/** dir_register on FAT12/16/32: numbering a short name that lost something, and registering the object. */
module DirCreate {
  import opened Bytes
  import opened ByteBits
  import opened Arith
  import opened Volume
  import opened Chains
  import opened Names
  import opened NameEntries
  import opened DirTable
  import opened DirStep
  import opened DirSlots
  import opened DirWrite

  // ---------- dir_find for a short name ----------

  /** AM_VOL in an attribute byte. */
  predicate VolumeBit(attr: byte) {
    (attr as int) / 8 % 2 == 1
  }

  lemma VolumeBits(x: bv8)
    ensures VolumeBit(Value(x)) <==> x & 0x08 != 0
  {
    hide Value;
    HalfValue(x);
    HalfValue(x >> 1);
    HalfValue(x >> 1 >> 1);
    OddValue(x >> 1 >> 1 >> 1);
  }

  /** A short entry in use with the name `fn`. */
  predicate ShortMatch(s: Slot, fn: seq<byte>) {
    s[0] != DDEM && s[0] != 0 && !VolumeBit(s[11]) && s[..11] == fn
  }

  /** No slot among the first `hi`, before the end mark, has the short name `fn`. */
  ghost predicate NoShort(t: seq<Slot>, fn: seq<byte>, hi: nat) {
    forall j :: 0 <= j < hi && j < |t| && (forall i :: 0 <= i < j ==> t[i][0] != 0) ==> !ShortMatch(t[j], fn)
  }

  /** None of the first `k` slots matches or is the end mark. */
  ghost predicate Searched(t: seq<Slot>, fn: seq<byte>, k: nat) {
    forall j :: 0 <= j < k && j < |t| ==> t[j][0] != 0 && !ShortMatch(t[j], fn)
  }

  /** The search ends at slot `k`: the end mark, or the last one. */
  lemma SearchOver(t: seq<Slot>, fn: seq<byte>, k: nat, hi: nat)
    requires Searched(t, fn, k)
    requires (k < |t| && t[k][0] == 0) || k >= |t| || k >= hi
    ensures NoShort(t, fn, hi)
  {
  }

  lemma SearchHit(t: seq<Slot>, fn: seq<byte>, k: nat, hi: nat)
    requires Searched(t, fn, k) && k < |t| && k < hi && ShortMatch(t[k], fn)
    ensures !NoShort(t, fn, hi)
  {
  }

  lemma SearchedNone(t: seq<Slot>, fn: seq<byte>)
    ensures Searched(t, fn, 0)
  {
  }

  lemma SearchedNext(t: seq<Slot>, fn: seq<byte>, k: nat)
    requires Searched(t, fn, k) && k < |t| && t[k][0] != 0 && !ShortMatch(t[k], fn)
    ensures Searched(t, fn, k + 1)
  {
  }

  /** dir_find with NS_NOLFN set and NS_LOSS clear, as dir_register uses it: long-name entries are passed over. */
  method FindShort(fs: Fatfs, dp: Dir) returns (res: FResult, ghost k: nat)
    requires Opened(fs, dp) && dp.fn.Length == 11 && dp.fn != fs.win
    modifies fs, fs.win, dp`ch, dp`sect, dp`clust, dp`dptr
    ensures Opened(fs, dp) && dp.ch == old(dp.ch) && Table(fs, dp) == old(Table(fs, dp)) && dp.fn[..] == old(dp.fn[..])
    ensures res == FrOk ==> k < |Table(fs, dp)| && ShortMatch(Table(fs, dp)[k], dp.fn[..])
    ensures res == FrOk || res == FrNoFile || res == FrDiskErr
    ensures res == FrNoFile ==> NoShort(Table(fs, dp), dp.fn[..], MAX_DIR / 32)
    ensures res == FrOk ==> !NoShort(Table(fs, dp), dp.fn[..], MAX_DIR / 32)
    ensures SameFat(fs.fat, fs.log, fs.freeClst, old(fs.fat), old(fs.log), old(fs.freeClst))
    ensures Onward(old(fs.medium), fs.medium)
    ensures res == FrDiskErr ==> Faulted(old(fs.medium), fs.medium)
  {
    hide Fatfs.Valid, WinState.Logical, Slots, Geometry.WellFormed, Opened, OnSlot, Loaded, Table, ShortMatch, Kept,
         CrashSafe, OnlyTable, CountKnown, Full, NoShort, Searched, Onward, Faulted;
    OpenedBasics(fs, dp);
    ghost var t, fn, m0 := Table(fs, dp), dp.fn[..], fs.medium;
    k := 0;
    SearchedNone(t, fn);
    SomeSlot(fs, dp);
    res := DirSdi(fs, dp, 0);
    if res != FrOk { return; }
    while true
      invariant Opened(fs, dp) && dp.ch == old(dp.ch) && Table(fs, dp) == t && OnSlot(fs.g, dp, k) && dp.fn[..] == fn
      invariant Searched(t, fn, k)
      invariant SameFat(fs.fat, fs.log, fs.freeClst, old(fs.fat), old(fs.log), old(fs.freeClst))
      invariant Onward(m0, fs.medium)
      decreases MAX_DIR - 32 * k
    {
      ghost var m1 := fs.medium;
      var end, found;
      res, end, found := LookForShort(fs, dp, k);
      OnwardTrans(m0, m1, fs.medium);
      if res != FrOk { return; }
      if end {
        SearchOver(t, fn, k, MAX_DIR / 32);
        return FrNoFile, k;
      }
      OnSlotRange(fs, dp, k);
      if found {
        SearchHit(t, fn, k, MAX_DIR / 32);
        return;
      }
      SearchedNext(t, fn, k);
      m1 := fs.medium;
      res := NextSlot(fs, dp, k);
      OnwardTrans(m0, m1, fs.medium);
      if res == FrNoFile { SearchOver(t, fn, k + 1, MAX_DIR / 32); }
      if res != FrOk { return; }
      k := k + 1;
    }
  }

  /** One round of that search. */
  method LookForShort(fs: Fatfs, dp: Dir, ghost k: nat) returns (res: FResult, end: bool, found: bool)
    requires Opened(fs, dp) && OnSlot(fs.g, dp, k) && dp.fn.Length == 11 && dp.fn != fs.win
    modifies fs`disk, fs`wflag, fs`medium, fs`winsect, fs.win
    ensures Opened(fs, dp) && Table(fs, dp) == old(Table(fs, dp)) && (res == FrOk || res == FrDiskErr)
    ensures res == FrOk ==> k < |Table(fs, dp)| && end == (Table(fs, dp)[k][0] == 0)
    ensures res == FrOk && !end ==> found == ShortMatch(Table(fs, dp)[k], dp.fn[..])
    ensures dp.fn[..] == old(dp.fn[..])
    ensures Onward(old(fs.medium), fs.medium)
    ensures res == FrDiskErr ==> Faulted(old(fs.medium), fs.medium)
  {
    hide Fatfs.Valid, WinState.Logical, Slots, Geometry.WellFormed, Opened, OnSlot, Loaded;
    OpenedBasics(fs, dp);
    end, found := false, false;
    res := LoadSlot(fs, dp, k);
    if res != FrOk { return; }
    LoadedSlot(fs, dp, k);
    var slot := fs.win[dp.dptr % 512..dp.dptr % 512 + 32];
    if slot[0] == 0 { end := true; return; }
    var a := (slot[11] as int) % 0x40;
    AttrMask(slot[11]);
    if slot[0] != DDEM && !VolumeBit(a) {
      found := slot[..11] == dp.fn[..];
    }
  }

  lemma AttrMask(b: byte)
    ensures VolumeBit((b as int) % 0x40) == VolumeBit(b)
  {
  }

  // ---------- gen_numname ----------

  function HexDigit(d: nat): byte
    requires d < 16
  {
    if d < 10 then 0x30 + d else 0x41 + d - 10
  }

  /** The number in hexadecimal, without leading zeros. */
  function Hex(n: nat): (r: seq<byte>)
    ensures |r| >= 1 && forall k :: 0 <= k < |r| ==> 0x30 <= r[k] <= 0x46
  {
    if n < 16 then [HexDigit(n)] else Hex(n / 16) + [HexDigit(n % 16)]
  }

  /** The value of a hexadecimal digit, and of a row of them. */
  function DigitValue(c: byte): int {
    if 0x30 <= c <= 0x39 then c - 0x30 else if 0x41 <= c <= 0x46 then c - 0x41 + 10 else -1
  }

  function HexValue(s: seq<byte>): int {
    if s == [] then 0 else 16 * HexValue(s[..|s| - 1]) + DigitValue(s[|s| - 1])
  }

  /** Read in base 16 the text is the number, and it has no leading zero. */
  lemma {:induction false} HexReads(n: nat)
    ensures HexValue(Hex(n)) == n && (n > 0 ==> Hex(n)[0] != 0x30)
    ensures forall k :: 0 <= k < |Hex(n)| ==> 0 <= DigitValue(Hex(n)[k]) < 16
  {
    var s := Hex(n);
    if n < 16 {
      assert s[..0] == [];
    } else {
      HexReads(n / 16);
      assert s[..|s| - 1] == Hex(n / 16);
    }
  }

  lemma HexLength(n: nat)
    requires n < 0x1_0000
    ensures |Hex(n)| <= 4
  {
    var a := n / 16;
    var b := a / 16;
    var c := b / 16;
    assert |Hex(c)| == 1;
    assert |Hex(b)| <= 2;
    assert |Hex(a)| <= 3;
  }

  /** `x` with the bit of value `m` flipped. */
  function Toggle(x: nat, m: nat): nat
    requires m > 0
  {
    if x / m % 2 == 1 then x - m else x + m
  }

  /** Exclusive or with 0x1021. */
  function Xor1021(x: nat): nat {
    Toggle(Toggle(Toggle(x, 0x1000), 0x20), 1)
  }

  lemma ToggleAt(m: nat, q: nat, r: nat)
    requires r < m
    ensures m * q + r >= 0
    ensures Toggle(m * q + r, m) == if q % 2 == 1 then m * (q - 1) + r else m * (q + 1) + r
  {
    NonNegProduct(m, q);
    DivModIs(m * q + r, m, q, r);
    assert m * (q - 1) == m * q - m && m * (q + 1) == m * q + m;
  }

  /** Flipping twice changes nothing. */
  lemma ToggleBack(x: nat, m: nat)
    requires m > 0
    ensures Toggle(Toggle(x, m), m) == x
  {
    hide Toggle;
    var q, r := x / m, x % m;
    DivMod(x, m);
    ToggleAt(m, q, r);
    ToggleAt(m, if q % 2 == 1 then q - 1 else q + 1, r);
  }

  /** Flipping a bit of a word gives a word. */
  lemma ToggleRange(x: u16, m: nat, k: nat)
    requires m > 0 && 2 * k * m == 0x1_0000
    ensures 0 <= Toggle(x, m) < 0x1_0000
  {
    DivMod(x, m);
    if x / m % 2 == 0 {
      var h := x / m / 2;
      assert m * (2 * h) == 2 * (m * h) && 2 * k * m == 2 * (m * k);
      if k <= h { MulMono(m, k, h); }
      MulMono(m, h + 1, k);
      assert m * (h + 1) == m * h + m;
    }
  }

  /** Flipping a bit above the lowest keeps the parity. */
  lemma ToggleParity(x: nat, m: nat, h: nat)
    requires m == 2 * h > 0
    ensures Toggle(x, m) % 2 == x % 2
  {
    DivMod(x, 2);
    DivModIs(x + m, 2, x / 2 + h, x % 2);
    DivModIs(x - m, 2, x / 2 - h, x % 2);
  }

  lemma ToggleLowest(x: nat)
    ensures Toggle(x, 1) % 2 != x % 2
  {
    DivModIs(x, 1, x, 0);
  }

  lemma ToggleWord(x: u16)
    ensures 0 <= Xor1021(x) < 0x1_0000 && Xor1021(x) % 2 != x % 2
  {
    hide Toggle;
    var a := Toggle(x, 0x1000);
    var d := Toggle(a, 0x20);
    ToggleRange(x, 0x1000, 8);
    ToggleRange(a, 0x20, 0x400);
    ToggleRange(d, 1, 0x8000);
    ToggleParity(x, 0x1000, 0x800);
    ToggleParity(a, 0x20, 0x10);
    ToggleLowest(d);
  }

  lemma Xor1021Injective(x: u16, y: u16)
    requires x != y
    ensures Xor1021(x) != Xor1021(y)
  {
    hide Toggle;
    var a, b := Toggle(x, 0x1000), Toggle(y, 0x1000);
    var d, e := Toggle(a, 0x20), Toggle(b, 0x20);
    ToggleBack(x, 0x1000);
    ToggleBack(y, 0x1000);
    ToggleBack(a, 0x20);
    ToggleBack(b, 0x20);
    ToggleBack(d, 1);
    ToggleBack(e, 1);
  }

  /** One bit of a character enters the register of a CRC with the polynomial x^16 + x^12 + x^5 + 1. */
  function HashBit(s: u16, bit: nat): (r: u16)
    requires bit < 2
  {
    var x := 2 * s + bit;
    if x < 0x1_0000 then x else ToggleWord(x - 0x1_0000); Xor1021(x - 0x1_0000)
  }

  /** The lowest `n` bits of a character. */
  function HashBits(s: u16, w: nat, n: nat): u16
    decreases n
  {
    if n == 0 then s else HashBits(HashBit(s, w % 2), w / 2, n - 1)
  }

  /** All sixteen bits of a character. */
  function HashWord(s: u16, w: nat): u16 {
    HashBits(s, w, 16)
  }

  /** All characters of a name. */
  function NameHash(s: u16, name: seq<u16>): u16
    decreases name
  {
    if name == [] then s else NameHash(HashWord(s, name[0]), name[1..])
  }

  /** A step can be undone: the lowest bit of the register tells whether a bit was shifted out. */
  lemma HashBitInjective(s: u16, t: u16, bit: nat)
    requires s != t && bit < 2
    ensures HashBit(s, bit) != HashBit(t, bit)
  {
    hide Xor1021;
    HashBitParity(s, bit);
    HashBitParity(t, bit);
    var x, y := 2 * s + bit, 2 * t + bit;
    if x >= 0x1_0000 && y >= 0x1_0000 {
      Xor1021Injective(x - 0x1_0000, y - 0x1_0000);
    }
  }

  lemma HashBitParity(s: u16, bit: nat)
    requires bit < 2
    ensures (HashBit(s, bit) % 2 == bit) == (s < 0x8000)
  {
    hide Xor1021;
    DivModIs(2 * s + bit, 2, s, bit);
    if s >= 0x8000 {
      DivModIs(2 * s + bit - 0x1_0000, 2, s - 0x8000, bit);
      ToggleWord(2 * s + bit - 0x1_0000);
    }
  }

  lemma {:induction false} HashBitsInjective(s: u16, t: u16, w: nat, n: nat)
    requires s != t
    ensures HashBits(s, w, n) != HashBits(t, w, n)
    decreases n
  {
    if n > 0 {
      HashBitInjective(s, t, w % 2);
      HashBitsInjective(HashBit(s, w % 2), HashBit(t, w % 2), w / 2, n - 1);
    }
  }

  /** The number of a try: the try itself up to five, then a hash of the name started with it. */
  function TryNumber(seq0: u16, name: seq<u16>): u16 {
    if seq0 <= 5 then seq0 else NameHash(seq0, name)
  }

  /** From the sixth try on, different tries for one name give different numbers. */
  lemma {:induction false} TriesDiffer(s: u16, t: u16, name: seq<u16>)
    requires s != t
    ensures NameHash(s, name) != NameHash(t, name)
    decreases name
  {
    if name != [] {
      HashBitsInjective(s, t, name[0], 16);
      TriesDiffer(HashWord(s, name[0]), HashWord(t, name[0]), name[1..]);
    }
  }

  lemma NameHashNext(s: u16, name: seq<u16>, p: nat)
    requires p < |name|
    ensures NameHash(s, name[p..]) == NameHash(HashWord(s, name[p]), name[p + 1..])
  {
    hide HashWord;
    assert name[p..][0] == name[p] && name[p..][1..] == name[p + 1..];
  }

  lemma NameHashed(s: u16, name: seq<u16>)
    ensures NameHash(s, name[|name|..]) == s && name[0..] == name
  {
  }

  /** The hash gen_numname uses from the sixth collision on: all characters of the name enter the register. */
  method HashName(lfn: array<u16>, s: u16, ghost name: seq<u16>) returns (sreg: u16)
    requires HoldsName(lfn[..], name)
    ensures sreg == NameHash(s, name)
  {
    hide HashWord, NameHash, HoldsName;
    NameInBuffer(lfn[..], name);
    sreg := s;
    var p: nat := 0;
    NameHashed(sreg, name);
    while lfn[p] != 0
      invariant p <= |name| && NameHash(sreg, name[p..]) == NameHash(s, name)
      decreases |name| - p
    {
      NameHashNext(sreg, name, p);
      sreg := HashChar(sreg, lfn[p]);
      p := p + 1;
    }
    NameHashed(sreg, name);
  }

  /** One round of the inner loop. */
  method Shift(s: u16, bit: nat) returns (sreg: u16)
    requires bit < 2
    ensures sreg == HashBit(s, bit)
  {
    hide Xor1021;
    var x: nat := 2 * s + bit;
    if x >= 0x1_0000 {
      ToggleWord(x - 0x1_0000);
      x := Xor1021(x - 0x1_0000);
    }
    sreg := x;
  }

  /** The inner loop: sixteen bits of one character. */
  method HashChar(s: u16, w: u16) returns (sreg: u16)
    ensures sreg == HashWord(s, w)
  {
    hide HashBit;
    sreg := s;
    var wc := w;
    var i := 0;
    while i < 16
      invariant 0 <= i <= 16 && HashBits(sreg, wc, 16 - i) == HashWord(s, w)
    {
      sreg := Shift(sreg, wc % 2);
      wc := wc / 2;
      i := i + 1;
    }
  }

  /** Where the suffix goes: at the first blank of the body, at the latest so that it still fits. */
  function SuffixAt(src: seq<byte>, i: nat): (j: nat)
    requires i <= |src|
    ensures j <= i && (forall k :: 0 <= k < j ==> src[k] != SPACE) && (j < i ==> src[j] == SPACE)
  {
    if i == 0 then 0 else if SuffixAt(src, i - 1) < i - 1 || src[i - 1] == SPACE then SuffixAt(src, i - 1) else i
  }

  /** The numbered name: body cut, a tilde and the number, blanks up to the extension. */
  function Numbered(src: seq<byte>, num: nat): (r: seq<byte>)
    requires |src| == 11 && |Hex(num)| <= 7
    ensures |r| == 11
  {
    var hex := Hex(num);
    var j := SuffixAt(src, 7 - |hex|);
    src[..j] + [0x7E] + hex + seq<byte>(7 - |hex| - j, _ => SPACE) + src[8..]
  }

  lemma NumberedUsable(src: seq<byte>, num: nat)
    requires UsableShort(src) && |Hex(num)| <= 7
    ensures UsableShort(Numbered(src, num))
  {
  }

  lemma {:induction false} HexInjective(m: nat, n: nat)
    ensures Hex(m) == Hex(n) ==> m == n
  {
    if Hex(m) == Hex(n) && m >= 16 && n >= 16 {
      var x, y := Hex(m / 16), Hex(n / 16);
      assert (x + [HexDigit(m % 16)])[|x|] == (y + [HexDigit(n % 16)])[|x|];
      assert x == (x + [HexDigit(m % 16)])[..|x|] == (y + [HexDigit(n % 16)])[..|x|] == y;
      HexInjective(m / 16, n / 16);
    }
  }

  /** The last tilde of a numbered name starts the number, and the number ends at a blank or at the end of the body. */
  lemma NumberedShape(src: seq<byte>, num: nat)
    requires |src| == 11 && |Hex(num)| <= 7
    ensures var r, j, d := Numbered(src, num), SuffixAt(src, 7 - |Hex(num)|), |Hex(num)|;
      && j + 1 + d <= 8 && r[j] == 0x7E && r[j + 1..j + 1 + d] == Hex(num)
      && (forall k :: j < k < 8 ==> r[k] != 0x7E)
      && (forall k :: j < k < j + 1 + d ==> r[k] != SPACE)
      && (forall k :: j + 1 + d <= k < 8 ==> r[k] == SPACE)
  {
    hide Hex, SuffixAt;
    var r, j, d := Numbered(src, num), SuffixAt(src, 7 - |Hex(num)|), |Hex(num)|;
    forall k | j < k < j + 1 + d
      ensures r[k] == Hex(num)[k - j - 1]
    {
    }
  }

  /** Different numbers give different names. */
  lemma NumberedInjective(src: seq<byte>, m: nat, n: nat)
    requires |src| == 11 && |Hex(m)| <= 7 && |Hex(n)| <= 7 && m != n
    ensures Numbered(src, m) != Numbered(src, n)
  {
    hide Hex, SuffixAt, Numbered;
    NumberedShape(src, m);
    NumberedShape(src, n);
    HexInjective(m, n);
    var r, i, j, d, e := Numbered(src, m), SuffixAt(src, 7 - |Hex(m)|), SuffixAt(src, 7 - |Hex(n)|), |Hex(m)|, |Hex(n)|;
    var r2 := Numbered(src, n);
    var p := i + 1 + if d < e then d else e;
    assert r == r2 ==> i == j;
    assert p < 8 ==> (r[p] == SPACE <==> p >= i + 1 + d);
    assert p < 8 && p > j ==> (r2[p] == SPACE <==> p >= j + 1 + e);
  }

  /** The number as text, right-aligned in eight places, behind a tilde at place `i`. */
  method MakeSuffix(num: nat) returns (ns: seq<byte>, i: nat)
    requires |Hex(num)| <= 4
    ensures |ns| == 8 && i == 7 - |Hex(num)| && ns[i] == 0x7E && ns[i + 1..] == Hex(num)
  {
    ns := [0, 0, 0, 0, 0, 0, 0, 0];
    i := 7;
    var rest := num;
    while true
      invariant |ns| == 8 && i <= 7 && |Hex(rest)| + 7 - i == |Hex(num)| && Hex(num) == Hex(rest) + ns[i + 1..]
      decreases rest
    {
      ghost var tail := ns[i + 1..];
      ns := ns[i := HexDigit(rest % 16)];
      assert ns[i..] == [HexDigit(rest % 16)] + tail;
      i := i - 1;
      rest := rest / 16;
      if i == 0 || rest == 0 { break; }
    }
    ns := ns[i := 0x7E];
  }

  /** Where the suffix goes. */
  method FindBlank(dst: array<byte>, i: nat) returns (j: nat)
    requires dst.Length == 11 && i <= 7
    ensures j == SuffixAt(dst[..], i)
  {
    j := 0;
    while j < i && dst[j] != SPACE
      invariant j <= i && forall k :: 0 <= k < j ==> dst[k] != SPACE
    {
      j := j + 1;
    }
  }

  /** Append the suffix at place `j0`, blanks behind it. */
  method PutSuffix(dst: array<byte>, ns: seq<byte>, i0: nat, j0: nat)
    requires dst.Length == 11 && |ns| == 8 && j0 <= i0 <= 7
    modifies dst
    ensures dst[..] == old(dst[..])[..j0] + ns[i0..] + seq<byte>(i0 - j0, _ => SPACE) + old(dst[..])[8..]
  {
    var i, j := i0, j0;
    while j < 8
      invariant j0 <= j <= 8 && i == (if i0 + j - j0 <= 8 then i0 + j - j0 else 8)
      invariant forall k :: 0 <= k < 11 && !(j0 <= k < j) ==> dst[k] == old(dst[k])
      invariant forall k :: j0 <= k < j ==> dst[k] == if k - j0 < 8 - i0 then ns[i0 + k - j0] else SPACE
    {
      if i < 8 {
        dst[j] := ns[i];
        i := i + 1;
      } else {
        dst[j] := SPACE;
      }
      j := j + 1;
    }
  }

  /** gen_numname: the short name `src` with the number of the try. */
  method GenNumName(dst: array<byte>, src: seq<byte>, lfn: array<u16>, seq0: nat, ghost name: seq<u16>)
    returns (num: nat)
    requires dst.Length == 11 && UsableShort(src) && HoldsName(lfn[..], name) && 1 <= seq0 < 100
    modifies dst
    ensures num == TryNumber(seq0, name) && |Hex(num)| <= 7 && dst[..] == Numbered(src, num)
    ensures UsableShort(dst[..])
  {
    hide Hex, SuffixAt, UsableShort, HoldsName, Numbered, NameHash;
    ShortLength(src);
    forall k | 0 <= k < 11 { dst[k] := src[k]; }
    assert lfn[..] == old(lfn[..]);
    num := seq0;
    if num > 5 { num := HashName(lfn, num, name); }
    HexLength(num);
    var ns, i := MakeSuffix(num);
    assert dst[..] == src;
    var j := FindBlank(dst, i);
    PutSuffix(dst, ns, i, j);
    assert ns[i..] == [0x7E] + Hex(num);
    NumberedIs(src, num);
    NumberedUsable(src, num);
  }

  lemma NumberedIs(src: seq<byte>, num: nat)
    requires |src| == 11 && |Hex(num)| <= 7
    ensures var i := 7 - |Hex(num)|; var j := SuffixAt(src, i);
      Numbered(src, num) == src[..j] + ([0x7E] + Hex(num)) + seq<byte>(i - j, _ => SPACE) + src[8..]
  {
    hide Hex, SuffixAt;
    var i := 7 - |Hex(num)|;
    var j := SuffixAt(src, i);
    assert src[..j] + ([0x7E] + Hex(num)) == src[..j] + [0x7E] + Hex(num);
  }

  lemma ShortLength(src: seq<byte>)
    requires UsableShort(src)
    ensures |src| == 11
  {
  }

  // ---------- dir_register ----------

  /** The short name of try `i`. */
  function TryName(src: seq<byte>, i: nat, name: seq<u16>): (r: seq<byte>)
    requires |src| == 11 && i < 100
  {
    HexLength(TryNumber(i, name));
    Numbered(src, TryNumber(i, name))
  }

  lemma HashStep(s: u16, w: nat, n: nat, t: u16)
    requires n > 0 && s < 0x8000 && t == 2 * s + w % 2
    ensures HashBits(s, w, n) == HashBits(t, w / 2, n - 1)
  {
  }

  lemma HashOut(s: u16, w: nat, n: nat, x: u16, t: u16)
    requires n > 0 && 0x1_0000 + x == 2 * s + w % 2 && t == Xor1021(x)
    ensures HashBits(s, w, n) == HashBits(t, w / 2, n - 1)
  {
    hide Xor1021;
  }

  lemma ShiftedOut()
    ensures Xor1021(0xA180) == 0xB1A1 && Xor1021(0x6342) == 0x7363
  {
  }

  /** The register before and after each of the sixteen bits of the character `a`, from 6 on. */
  lemma KnownBits(s: u16, w: u16)
    requires s == 6 && w == 0x61
    ensures HashWord(s, w) == 0xE6C6
  {
    hide HashBits, Xor1021;
    ShiftedOut();
    var sreg: seq<u16> := [s, 0xD, 0x1A, 0x34, 0x68, 0xD0, 0x1A1, 0x343, 0x686, 0xD0C, 0x1A18, 0x3430, 0x6860, 0xD0C0,
                           0xB1A1, 0x7363, 0xE6C6];
    var wc: seq<nat> := [w, 0x30, 0x18, 0xC, 6, 3, 1, 0, 0, 0, 0, 0, 0, 0, 0, 0, 0];
    for k := 0 to 13
      invariant HashBits(s, w, 16) == HashBits(sreg[k], wc[k], 16 - k)
    {
      HashStep(sreg[k], wc[k], 16 - k, sreg[k + 1]);
    }
    HashOut(sreg[13], 0, 3, 0xA180, sreg[14]);
    HashOut(sreg[14], 0, 2, 0x6342, sreg[15]);
    HashStep(sreg[15], 0, 1, sreg[16]);
    NoBitsLeft(sreg[16], 0);
  }

  lemma NoBitsLeft(s: u16, w: nat)
    ensures HashBits(s, w, 0) == s
  {
  }

  /** The hash of the name `a`. */
  lemma KnownHash(s: u16, name: seq<u16>)
    requires s == 6 && name == [0x61]
    ensures NameHash(s, name) == 0xE6C6
  {
    hide HashWord;
    KnownBits(s, name[0]);
    assert name[1..] == [];
  }

  lemma KnownText()
    ensures Hex(1) == [0x31] && Hex(5) == [0x35] && Hex(0xE6C6) == [0x45, 0x36, 0x43, 0x36]
  {
    assert Hex(0xE) == [0x45] && Hex(0xE6) == [0x45, 0x36] && Hex(0xE6C) == [0x45, 0x36, 0x43];
  }

  /** The names a file `a` of the short name ALONGNAM.TXT gets: the number of the try up to five, then the hash. */
  lemma KnownTries()
    ensures var src: seq<byte> := [0x41, 0x4C, 0x4F, 0x4E, 0x47, 0x4E, 0x41, 0x4D, 0x54, 0x58, 0x54];
      && TryName(src, 1, [0x61]) == [0x41, 0x4C, 0x4F, 0x4E, 0x47, 0x4E, 0x7E, 0x31, 0x54, 0x58, 0x54]
      && TryName(src, 5, [0x61]) == [0x41, 0x4C, 0x4F, 0x4E, 0x47, 0x4E, 0x7E, 0x35, 0x54, 0x58, 0x54]
      && TryName(src, 6, [0x61]) == [0x41, 0x4C, 0x4F, 0x7E, 0x45, 0x36, 0x43, 0x36, 0x54, 0x58, 0x54]
  {
    hide NameHash, HashBits, Hex, SuffixAt;
    var src: seq<byte> := [0x41, 0x4C, 0x4F, 0x4E, 0x47, 0x4E, 0x41, 0x4D, 0x54, 0x58, 0x54];
    KnownHash(6, [0x61]);
    KnownText();
    NoBlank(src, 6);
    NoBlank(src, 3);
    assert TryName(src, 6, [0x61]) == src[..3] + [0x7E] + [0x45, 0x36, 0x43, 0x36] + src[8..];
  }

  lemma {:induction false} NoBlank(src: seq<byte>, i: nat)
    requires i <= |src| && forall k :: 0 <= k < i ==> src[k] != SPACE
    ensures SuffixAt(src, i) == i
  {
    if i > 0 { NoBlank(src, i - 1); }
  }

  /** The directory has all names of the tries before `n`. */
  ghost predicate TriesTaken(t: seq<Slot>, src: seq<byte>, name: seq<u16>, n: nat)
    requires |src| == 11
  {
    forall i :: 1 <= i < n && i < 100 ==> !NoShort(t, TryName(src, i, name), MAX_DIR / 32)
  }

  lemma OneMoreTaken(t: seq<Slot>, src: seq<byte>, name: seq<u16>, n: nat)
    requires |src| == 11 && 1 <= n < 100 && TriesTaken(t, src, name, n)
    requires !NoShort(t, TryName(src, n, name), MAX_DIR / 32)
    ensures TriesTaken(t, src, name, n + 1)
  {
    hide TryName, NoShort;
  }

  /** The numbering loop: the name of the first try that nothing in the directory has; FR_DENIED if there is none. */
  method NumberName(fs: Fatfs, dp: Dir, lfn: array<u16>, ghost name: seq<u16>) returns (res: FResult, ghost try: nat)
    requires Opened(fs, dp) && dp.fn.Length == 11 && dp.fn != fs.win && UsableShort(dp.fn[..])
    requires HoldsName(lfn[..], name)
    modifies fs, fs.win, dp`ch, dp`sect, dp`clust, dp`dptr, dp.fn
    ensures Opened(fs, dp) && dp.ch == old(dp.ch) && Table(fs, dp) == old(Table(fs, dp)) && lfn[..] == old(lfn[..])
    ensures UsableShort(dp.fn[..]) && 1 <= try < 100 && |old(dp.fn[..])| == 11
    ensures dp.fn[..] == TryName(old(dp.fn[..]), try, name) && TriesTaken(Table(fs, dp), old(dp.fn[..]), name, try)
    ensures res == FrOk || res == FrDenied || res == FrDiskErr
    ensures res == FrOk ==> NoShort(Table(fs, dp), dp.fn[..], MAX_DIR / 32)
    ensures res == FrDenied ==> TriesTaken(Table(fs, dp), old(dp.fn[..]), name, 100)
    ensures SameFat(fs.fat, fs.log, fs.freeClst, old(fs.fat), old(fs.log), old(fs.freeClst))
    ensures Onward(old(fs.medium), fs.medium)
    ensures res == FrDiskErr ==> Faulted(old(fs.medium), fs.medium)
  {
    hide Fatfs.Valid, WinState.Logical, Slots, Geometry.WellFormed, Opened, OnSlot, Table, ShortMatch, NoShort,
         UsableShort, HoldsName, Hex, SuffixAt, Numbered, TriesTaken;
    OpenedBasics(fs, dp);
    var sn := dp.fn[..];
    var n := 1;
    ghost var t := Table(fs, dp);
    NoneTaken(t, sn, name);
    res := FrOk;
    while true
      invariant 1 <= n < 100 && Opened(fs, dp) && dp.ch == old(dp.ch) && Table(fs, dp) == t
      invariant lfn[..] == old(lfn[..]) && TriesTaken(t, sn, name, n)
      invariant SameFat(fs.fat, fs.log, fs.freeClst, old(fs.fat), old(fs.log), old(fs.freeClst))
      invariant Onward(old(fs.medium), fs.medium)
      decreases 100 - n
    {
      try := n;
      var num := GenNumName(dp.fn, sn, lfn, n, name);
      ghost var k;
      res, k := FindShort(fs, dp);
      if res != FrOk { break; }
      OneMoreTaken(t, sn, name, n);
      n := n + 1;
      if n == 100 { return FrDenied, try; }
    }
    if res == FrNoFile { res := FrOk; }
  }

  lemma NoneTaken(t: seq<Slot>, src: seq<byte>, name: seq<u16>)
    requires |src| == 11
    ensures TriesTaken(t, src, name, 1)
  {
  }

  /** dir_register on FAT12/16/32. On FR_OK the slots a..a+n, all of them free in the (possibly grown) table `t1`, hold
      the long-name entries and the short entry of the object, and no other slot changed. A short name that lost
      something got the number of the first try that nothing in the directory had. FR_DENIED means that the directory
      had all 99 of them, or no free slots in a row, being at its maximum or the volume full. */
  method DirRegister(fs: Fatfs, dp: Dir, lfn: array<u16>, ghost name: seq<u16>)
    returns (res: FResult, ghost a: nat, ghost t1: seq<Slot>)
    requires Opened(fs, dp) && dp.fn.Length == 11 && dp.fn != fs.win
    requires !dp.flags.dot ==>
      UsableShort(dp.fn[..]) && HoldsName(lfn[..], name) && 0xFFFF !in name && 0 < |name| <= MAX_LFN
    modifies fs, fs.win, dp`ch, dp`sect, dp`clust, dp`dptr, dp.fn
    ensures dp.flags.dot <==> res == FrInvalidName
    ensures res == FrOk || res == FrDenied || res == FrInvalidName || res == FrDiskErr
            || (res == FrIntErr && HasReserved(old(fs.fat)))
    ensures res == FrOk || res == FrDenied || res == FrInvalidName ==> Opened(fs, dp)
    ensures res == FrOk ==> UsableShort(dp.fn[..]) && lfn[..] == old(lfn[..])
    ensures res == FrOk ==> var n := LongEntries(dp.flags, |name|);
      && Registered(Table(fs, dp), a, n, name, dp.fn[..], dp.flags.body, dp.flags.ext) && OnSlot(fs.g, dp, a + n)
      && GrownBy(old(Table(fs, dp)), t1) && Reserved(t1, a, n) && OnlySlots(t1, Table(fs, dp), a, a + n)
    ensures res == FrOk ==> var k := a + LongEntries(dp.flags, |name|);
      FreshShort(Table(fs, dp), k, dp) && Loaded(fs, dp, k) && fs.wflag
    ensures res == FrOk && EndMarked(old(Table(fs, dp))) ==> EndMarked(Table(fs, dp))
    ensures res == FrOk && !dp.flags.loss ==> dp.fn[..] == old(dp.fn[..])
    ensures res == FrOk && dp.flags.loss ==>
      NoShort(old(Table(fs, dp)), dp.fn[..], MAX_DIR / 32)
      && |old(dp.fn[..])| == 11 && exists n :: 1 <= n < 100 && dp.fn[..] == TryName(old(dp.fn[..]), n, name)
                                              && TriesTaken(old(Table(fs, dp)), old(dp.fn[..]), name, n)
    ensures res == FrDenied ==>
      || (dp.flags.loss && |old(dp.fn[..])| == 11 && TriesTaken(old(Table(fs, dp)), old(dp.fn[..]), name, 100))
      || NoPlace(fs, dp, LongEntries(dp.flags, |name|) + 1)
    ensures res == FrOk || res == FrDenied || res == FrInvalidName ==>
      Kept(old(fs.fat), old(fs.freeClst), fs.fat, fs.freeClst)
    ensures OnlyTable(old(fs.fat), old(dp.ch), fs.fat, dp.ch)
    ensures StaysSafe(old(fs.log), fs.log, res != FrDiskErr)
    ensures Onward(old(fs.medium), fs.medium)
    ensures res == FrDiskErr ==> Faulted(old(fs.medium), fs.medium)
  {
    hide Fatfs.Valid, WinState.Logical, Slots, Geometry.WellFormed, Opened, OnSlot, Table, NoShort, UsableShort,
         HoldsName, Hex, SuffixAt, Numbered, Registered, OnlySlots, Reserved, GrownBy, EndMarked, Kept, OnlyTable,
         CrashSafe, NoRun, CountKnown, Full, TryName, TriesTaken, ShortEntry, Loaded;
    OpenedBasics(fs, dp);
    KeptSelf(fs.fat, fs.freeClst);
    OnlyTableSelf(fs.fat, dp.ch);
    a, t1 := 0, [];
    if dp.flags.dot { return FrInvalidName, a, t1; }
    var len := NameLength(lfn, name);
    if dp.flags.loss {
      ghost var try;
      res, try := NumberName(fs, dp, lfn, name);
      if res != FrOk { return; }
    }
    res, a, t1 := RegisterEntries(fs, dp, lfn, len, name);
  }
}
