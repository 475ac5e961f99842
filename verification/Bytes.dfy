/** Little-endian integers and NUL-terminated strings, as the C code lays them out in memory. */
module Bytes {

  type byte = x: int | 0 <= x < 256

  /** The contents of a C string, without its terminator. */
  type Text = seq<byte>

  /** The values of a C int64_t. */
  type Word = x: int | -0x8000_0000_0000_0000 <= x < 0x8000_0000_0000_0000

  /** Two's-complement wrap-around to 64 bits. */
  function Wrap64(x: int): Word {
    (x + 0x8000_0000_0000_0000) % 0x1_0000_0000_0000_0000 - 0x8000_0000_0000_0000
  }

  /** The conversion of an int64_t to a 32-bit int. */
  function Truncate32(x: int): (r: int)
    ensures -0x8000_0000 <= r < 0x8000_0000
  {
    (x + 0x8000_0000) % 0x1_0000_0000 - 0x8000_0000
  }

  function Pow256(k: nat): (r: nat)
    ensures r > 0
  {
    if k == 0 then 1 else 256 * Pow256(k - 1)
  }

  /** The k low bytes of x, least significant first. */
  function Encode(k: nat, x: nat): (s: seq<byte>)
    ensures |s| == k
  {
    if k == 0 then [] else [x % 256] + Encode(k - 1, x / 256)
  }

  function Decode(s: seq<byte>): nat {
    if s == [] then 0 else s[0] + 256 * Decode(s[1..])
  }

  lemma {:induction false} DecodeEncode(k: nat, x: nat)
    requires x < Pow256(k)
    ensures Decode(Encode(k, x)) == x
  {
    if k > 0 {
      assert Encode(k, x)[1..] == Encode(k - 1, x / 256);
      DecodeEncode(k - 1, x / 256);
    }
  }

  /** A 16-bit field: two bytes, agnostic of sign. */
  function Int16(x: int): (s: seq<byte>)
    ensures |s| == 2
  {
    Encode(2, x % 0x1_0000)
  }

  function Signed16(s: seq<byte>): int
    requires |s| == 2
  {
    var u := Decode(s);
    if u < 0x8000 then u else u - 0x1_0000
  }

  function Int64(x: int): (s: seq<byte>)
    ensures |s| == 8
  {
    Encode(8, x % 0x1_0000_0000_0000_0000)
  }

  function Signed64(s: seq<byte>): Word
    requires |s| == 8
  {
    Wrap64(Decode(s))
  }

  lemma Signed16OfInt16(x: int)
    requires -0x8000 <= x < 0x8000
    ensures Signed16(Int16(x)) == x
  {
    assert Pow256(2) == 0x1_0000 by { assert Pow256(1) == 256; }
    DecodeEncode(2, x % 0x1_0000);
  }

  lemma Unsigned16OfInt16(x: nat)
    requires x < 0x1_0000
    ensures Decode(Int16(x)) == x
  {
    assert Pow256(2) == 0x1_0000 by { assert Pow256(1) == 256; }
    DecodeEncode(2, x);
  }

  lemma Pow256Eight()
    ensures Pow256(4) == 0x1_0000_0000
    ensures Pow256(8) == 0x1_0000_0000_0000_0000
  {
    assert Pow256(2) == 0x1_0000 by { assert Pow256(1) == 256; }
    assert Pow256(4) == 0x1_0000_0000 by { assert Pow256(3) == 0x100_0000; }
    assert Pow256(6) == 0x1_0000_0000_0000 by { assert Pow256(5) == 0x100_0000_0000; }
    assert Pow256(7) == 0x100_0000_0000_0000;
  }

  lemma Signed64OfInt64(x: Word)
    ensures Signed64(Int64(x)) == x
  {
    Pow256Eight();
    DecodeEncode(8, x % 0x1_0000_0000_0000_0000);
  }

  /** What a C string function sees of these bytes: everything before the first NUL. */
  function CString(s: seq<byte>): (t: Text)
    ensures 0 !in t
    ensures 0 !in s ==> t == s
  {
    if s == [] || s[0] == 0 then [] else [s[0]] + CString(s[1..])
  }
}
