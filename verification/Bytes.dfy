/** Bytes, little-endian words and sectors, as the file system engine sees them. */
module Bytes {
  import opened Arith

  type byte = x: int | 0 <= x < 0x100
  type u16 = x: int | 0 <= x < 0x1_0000
  type u32 = x: int | 0 <= x < 0x1_0000_0000

  /** One sector: FF_MIN_SS == FF_MAX_SS == 512. */
  type Sector = s: seq<byte> | |s| == 512 witness seq(512, _ => 0)

  /** DWORD subtraction: wraps modulo 2^32. */
  function Sub32(a: int, b: int): (r: u32)
    ensures a >= b && a - b < 0x1_0000_0000 ==> r == a - b
  {
    (a - b) % 0x1_0000_0000
  }

  function LdWord(s: seq<byte>, i: nat): u16
    requires i + 1 < |s|
  {
    s[i] as int + 0x100 * (s[i + 1] as int)
  }

  function LdDword(s: seq<byte>, i: nat): u32
    requires i + 3 < |s|
  {
    s[i] as int + 0x100 * (s[i + 1] as int) + 0x1_0000 * (s[i + 2] as int) + 0x100_0000 * (s[i + 3] as int)
  }

  function StWord(s: seq<byte>, i: nat, v: u16): (r: seq<byte>)
    requires i + 1 < |s|
    ensures |r| == |s|
  {
    s[i := v % 0x100][i + 1 := v / 0x100]
  }

  function StDword(s: seq<byte>, i: nat, v: u32): (r: seq<byte>)
    requires i + 3 < |s|
    ensures |r| == |s|
  {
    s[i := v % 0x100][i + 1 := v / 0x100 % 0x100][i + 2 := v / 0x1_0000 % 0x100][i + 3 := v / 0x100_0000]
  }

  /** A stored word reads back; every byte outside it is untouched. */
  lemma WordRoundTrip(s: seq<byte>, i: nat, v: u16)
    requires i + 1 < |s|
    ensures LdWord(StWord(s, i, v), i) == v
    ensures forall k :: 0 <= k < |s| && k != i && k != i + 1 ==> StWord(s, i, v)[k] == s[k]
  {
  }

  lemma DwordRoundTrip(s: seq<byte>, i: nat, v: u32)
    requires i + 3 < |s|
    ensures LdDword(StDword(s, i, v), i) == v
    ensures forall k :: 0 <= k < |s| && !(i <= k < i + 4) ==> StDword(s, i, v)[k] == s[k]
  {
    var t := StDword(s, i, v);
    assert t[i] == v % 0x100 && t[i + 1] == v / 0x100 % 0x100;
    assert t[i + 2] == v / 0x1_0000 % 0x100 && t[i + 3] == v / 0x100_0000;
    DwordSplit(v);
  }

  lemma WordSplit(v: u32)
    ensures v % 0x100 + 0x100 * (v / 0x100 % 0x100) == v % 0x1_0000
  {
    SplitDigits(v, 0x100, 0x100);
  }

  lemma DwordSplit(v: u32)
    ensures v % 0x100 + 0x100 * (v / 0x100 % 0x100) + 0x1_0000 * (v / 0x1_0000 % 0x100)
            + 0x100_0000 * (v / 0x100_0000) == v
  {
    SplitDigits(v, 0x100, 0x100);
    SplitDigits(v, 0x1_0000, 0x100);
  }
}
