/** Fixed-width integers, the hexadecimal text of byte strings, and its decoder. */
module Bytes {
  datatype Option<+T> = None | Some(value: T)
  type u8 = x: int | 0 <= x < 0x100
  type u16 = x: int | 0 <= x < 0x1_0000
  type u32 = x: int | 0 <= x < 0x1_0000_0000
  const TWO_32: int := 0x1_0000_0000

  /** A 32-byte event id or public key. */
  type Key = s: seq<u8> | |s| == 32 witness seq(32, (i: int) => 0)

  /** A C cast to `uint32_t`: the residue modulo 2^32, for negative values too. */
  function ToU32(x: int): u32 {
    x % TWO_32
  }

  function Min(a: int, b: int): int {
    if a <= b then a else b
  }

  /** The first n elements, or all of a shorter sequence. */
  function Take<T>(s: seq<T>, n: nat): seq<T> {
    if n <= |s| then s[..n] else s
  }

  lemma SubsetSize<T>(a: set<T>, b: set<T>)
    requires a <= b
    ensures |a| <= |b|
  {
    assert b == a + (b - a);
  }

  function HexDigit(n: int): char
    requires 0 <= n < 16
  {
    "0123456789abcdef"[n]
  }

  /** The value of a hexadecimal digit of either case, -1 for any other character. */
  function HexValue(c: char): int {
    if '0' <= c <= '9' then c as int - '0' as int
    else if 'a' <= c <= 'f' then c as int - 'a' as int + 10
    else if 'A' <= c <= 'F' then c as int - 'A' as int + 10
    else -1
  }

  /** Lower-case hexadecimal text, two digits a byte (`nostr_bytes_to_hex`). */
  function Hex(b: seq<u8>): (s: string)
    ensures |s| == 2 * |b|
  {
    seq(2 * |b|, i requires 0 <= i < 2 * |b| =>
      HexDigit(if i % 2 == 0 then b[i / 2] / 16 else b[i / 2] % 16))
  }

  function ByteAt(hi: char, lo: char): u8
  {
    if HexValue(hi) < 0 || HexValue(lo) < 0 then 0 else 16 * HexValue(hi) + HexValue(lo)
  }

  /** Decodes the first 2 * n characters (`nostr_hex_to_bytes`); the terminating NUL of
      a text that is too short is not a hexadecimal digit, so decoding fails there. */
  function HexToBytes(s: string, n: nat): (r: Option<seq<u8>>)
    ensures r.Some? ==> |r.value| == n
  {
    if |s| < 2 * n || exists i :: 0 <= i < 2 * n && HexValue(s[i]) < 0 then None
    else Some(seq(n, i requires 0 <= i < n => ByteAt(s[2 * i], s[2 * i + 1])))
  }

  function Lower(c: char): char {
    if 'A' <= c <= 'Z' then (c as int + 32) as char else c
  }

  lemma HexDigitValue(n: int)
    requires 0 <= n < 16
    ensures HexValue(HexDigit(n)) == n
  {
  }

  lemma ValueHexDigit(c: char)
    requires HexValue(c) >= 0
    ensures HexDigit(HexValue(c)) == Lower(c)
  {
  }

  lemma HexAt(b: seq<u8>, j: nat)
    requires j < |b|
    ensures HexValue(Hex(b)[2 * j]) == b[j] / 16 && HexValue(Hex(b)[2 * j + 1]) == b[j] % 16
  {
    assert (2 * j) / 2 == j && (2 * j + 1) / 2 == j;
    HexDigitValue(b[j] / 16);
    HexDigitValue(b[j] % 16);
  }

  lemma SpeltDigits(b: seq<u8>, s: string)
    requires Hex(b) <= s
    ensures forall i :: 0 <= i < 2 * |b| ==> HexValue(s[i]) >= 0
  {
    forall i | 0 <= i < 2 * |b|
      ensures HexValue(s[i]) >= 0
    {
      assert s[i] == Hex(b)[i] && (i == 2 * (i / 2) || i == 2 * (i / 2) + 1);
      HexAt(b, i / 2);
    }
  }

  lemma SpeltByte(b: seq<u8>, s: string, j: nat)
    requires Hex(b) <= s && j < |b|
    ensures ByteAt(s[2 * j], s[2 * j + 1]) == b[j]
  {
    assert s[2 * j] == Hex(b)[2 * j] && s[2 * j + 1] == Hex(b)[2 * j + 1];
    HexAt(b, j);
  }

  /** Decoding inverts encoding, whatever text follows the encoded part. */
  lemma DecodeEncode(b: seq<u8>, s: string)
    requires Hex(b) <= s
    ensures HexToBytes(s, |b|) == Some(b)
  {
    SpeltDigits(b, s);
    var r := HexToBytes(s, |b|).value;
    forall j | 0 <= j < |b|
      ensures r[j] == b[j]
    {
      SpeltByte(b, s, j);
    }
    assert r == b;
  }

  /** What decodes to `b` spells `b`, up to the case of its letters. */
  lemma EncodeDecode(s: string, n: nat)
    requires HexToBytes(s, n).Some?
    ensures forall i :: 0 <= i < 2 * n ==> Lower(s[i]) == Hex(HexToBytes(s, n).value)[i]
  {
    var b := HexToBytes(s, n).value;
    forall i | 0 <= i < 2 * n
      ensures Lower(s[i]) == Hex(b)[i]
    {
      assert b[i / 2] == ByteAt(s[2 * (i / 2)], s[2 * (i / 2) + 1]);
      assert i == 2 * (i / 2) + i % 2;
      ValueHexDigit(s[i]);
      assert b[i / 2] / 16 == HexValue(s[2 * (i / 2)]);
      assert b[i / 2] % 16 == HexValue(s[2 * (i / 2) + 1]);
    }
  }

  lemma HexInjective(a: seq<u8>, b: seq<u8>)
    requires Hex(a) == Hex(b)
    ensures a == b
  {
    DecodeEncode(a, Hex(a));
    DecodeEncode(b, Hex(b));
  }

  lemma HexPrefix(b: seq<u8>, n: nat)
    requires n <= |b|
    ensures Hex(b[..n]) == Hex(b)[..2 * n]
  {
  }

  /** Four big-endian bytes: the eight digits of `%08x`. */
  function BigEndian(x: u32): (b: seq<u8>)
    ensures |b| == 4
  {
    var a := x / 0x100;
    var b := a / 0x100;
    [b / 0x100, b % 0x100, a % 0x100, x % 0x100]
  }

  lemma BigEndianInjective(x: u32, y: u32)
    requires BigEndian(x) == BigEndian(y)
    ensures x == y
  {
    var a, a' := x / 0x100, y / 0x100;
    var b, b' := a / 0x100, a' / 0x100;
    assert b == b' by {
      assert BigEndian(x)[0] == BigEndian(y)[0] && BigEndian(x)[1] == BigEndian(y)[1];
    }
    assert a == a' by { assert BigEndian(x)[2] == BigEndian(y)[2]; }
    assert BigEndian(x)[3] == BigEndian(y)[3];
  }
}
