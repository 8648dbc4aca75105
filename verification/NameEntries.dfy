/** Names in directory entries: long-name entries (put_lfn, pick_lfn), the checksum tying them to their short entry
    (sum_sfn), and the name an entry shows (get_fileinfo). */
module NameEntries {
  import opened Bytes
  import opened ByteBits
  import opened Names

  /** Offset of the `s`-th character in a long-name entry. */
  function LfnOfs(s: nat): (o: nat)
    requires s < 13
    ensures 1 <= o <= 30
  {
    if s < 5 then 1 + 2 * s else if s < 11 then 14 + 2 * (s - 5) else 28 + 2 * (s - 11)
  }

  /** The places the format gives the characters. */
  lemma LfnPlaces(s: nat)
    requires s < 13
    ensures LfnOfs(s) == [1, 3, 5, 7, 9, 14, 16, 18, 20, 22, 24, 28, 30][s]
  {
  }

  const LLEF: nat := 0x40
  const AM_LFN: byte := 0x0F

  /** A directory slot: 32 bytes. */
  type Slot = s: seq<byte> | |s| == 32 witness seq(32, _ => 0)

  /** Character `j` of a zero-terminated name padded with 0xFFFF. */
  function PartChar(name: seq<u16>, j: nat): u16 {
    if j < |name| then name[j] else if j == |name| then 0 else 0xFFFF
  }

  /** `slot` is the long-name entry number `ord` (1: the first 13 characters) of `name`. */
  predicate IsPart(slot: seq<byte>, name: seq<u16>, ord: nat, sum: byte)
    requires |slot| == 32
  {
    && 1 <= ord <= 20 && slot[0] as int == ord + (if ord * 13 >= |name| then LLEF else 0)
    && slot[11] == AM_LFN && slot[12] == 0 && slot[13] == sum && LdWord(slot, 26) == 0
    && forall s :: 0 <= s < 13 ==> LdWord(slot, LfnOfs(s)) == PartChar(name, (ord - 1) * 13 + s)
  }

  /** st_word into the window. */
  method PutWord(win: array<byte>, i: nat, v: u16)
    requires i + 1 < win.Length
    modifies win
    ensures win[i] as int + 0x100 * (win[i + 1] as int) == v
    ensures forall k :: 0 <= k < win.Length && k != i && k != i + 1 ==> win[k] == old(win[k])
  {
    win[i], win[i + 1] := v % 0x100, v / 0x100;
  }

  lemma OffsetsApart(s: nat, t: nat)
    requires s < 13 && t < 13 && s != t
    ensures LfnOfs(s) + 1 < LfnOfs(t) || LfnOfs(t) + 1 < LfnOfs(s)
    ensures LfnOfs(s) !in {10, 11, 12, 13, 25, 26, 27, 31} && LfnOfs(s) + 1 !in {11, 12, 13, 26, 27, 32}
  {
  }

  /** The character of the window at offset `o`. */
  function WinWord(win: seq<byte>, o: nat): u16
    requires o + 1 < |win|
  {
    win[o] as int + 0x100 * (win[o + 1] as int)
  }

  /** put_lfn: writes entry `ord` of the name in the long name buffer into the slot at offset `o` of the window. */
  method PutLfn(lfn: array<u16>, win: array<byte>, o: nat, ord: nat, sum: byte, ghost name: seq<u16>)
    requires HoldsName(lfn[..], name) && 0xFFFF !in name && o + 32 <= win.Length
    requires 1 <= ord <= 20 && (ord - 1) * 13 < |name|
    modifies win
    ensures IsPart(win[o..o + 32], name, ord, sum)
    ensures forall k :: 0 <= k < win.Length && !(o <= k < o + 32) ==> win[k] == old(win[k])
  {
    hide HoldsName;
    NameInBuffer(lfn[..], name);
    win[o + 13] := sum;
    win[o + 11] := AM_LFN;
    win[o + 12] := 0;
    PutWord(win, o + 26, 0);
    var i: nat := (ord - 1) * 13;
    var s: nat, wc: u16 := 0, 0;
    while s < 13
      invariant s <= 13 && i <= |name| + 1
      invariant if wc == 0xFFFF then (ord - 1) * 13 + s > |name| else i == (ord - 1) * 13 + s <= |name|
      invariant win[o + 13] == sum && win[o + 11] == AM_LFN && win[o + 12] == 0 && win[o + 26] == 0 && win[o + 27] == 0
      invariant forall t :: 0 <= t < s ==> WinWord(win[..], o + LfnOfs(t)) == PartChar(name, (ord - 1) * 13 + t)
      invariant forall k :: 0 <= k < win.Length && !(o <= k < o + 32) ==> win[k] == old(win[k])
    {
      if wc != 0xFFFF {
        wc := lfn[i];
        i := i + 1;
      }
      ghost var was := win[..];
      PutWord(win, o + LfnOfs(s), wc);
      forall t | 0 <= t <= s
        ensures WinWord(win[..], o + LfnOfs(t)) == PartChar(name, (ord - 1) * 13 + t)
      {
        if t < s {
          OffsetsApart(s, t);
          assert WinWord(was, o + LfnOfs(t)) == PartChar(name, (ord - 1) * 13 + t);
        }
      }
      if wc == 0 { wc := 0xFFFF; }
      s := s + 1;
    }
    var mark: byte := ord;
    if wc == 0xFFFF || lfn[i] == 0 { mark := mark + LLEF; }
    ghost var was := win[..];
    win[o] := mark;
    PartComplete(was, o, name, ord, sum, mark);
    assert win[..] == was[o := mark];
    assert win[o..o + 32] == win[..][o..o + 32];
  }

  lemma PartComplete(w: seq<byte>, o: nat, name: seq<u16>, ord: nat, sum: byte, mark: byte)
    requires o + 32 <= |w| && 1 <= ord <= 20 && mark as int == ord + (if ord * 13 >= |name| then LLEF else 0)
    requires w[o + 13] == sum && w[o + 11] == AM_LFN && w[o + 12] == 0 && w[o + 26] == 0 && w[o + 27] == 0
    requires forall t :: 0 <= t < 13 ==> WinWord(w, o + LfnOfs(t)) == PartChar(name, (ord - 1) * 13 + t)
    ensures IsPart(w[o := mark][o..o + 32], name, ord, sum)
  {
    hide LfnOfs, PartChar;
    var slot := w[o := mark][o..o + 32];
    forall t | 0 <= t < 13
      ensures LdWord(slot, LfnOfs(t)) == PartChar(name, (ord - 1) * 13 + t)
    {
      assert WinWord(w, o + LfnOfs(t)) == PartChar(name, (ord - 1) * 13 + t);
    }
  }

  lemma NameInBuffer(lfn: seq<u16>, name: seq<u16>)
    requires HoldsName(lfn, name)
    ensures |name| < |lfn| && lfn[|name|] == 0 && forall k :: 0 <= k < |name| ==> lfn[k] == name[k] != 0
  {
    forall k | 0 <= k < |name|
      ensures lfn[k] == name[k] != 0
    {
      assert lfn[..|name|][k] == name[k];
    }
  }

  // ---------- pick_lfn ----------

  /** The 13 characters of a long-name entry. */
  function Chars(slot: seq<byte>): (r: seq<u16>)
    requires |slot| == 32
    ensures |r| == 13
  {
    seq<u16>(13, s requires 0 <= s < 13 => LdWord(slot, LfnOfs(s)))
  }

  /** Index of the terminator; 13 if there is none. */
  function TerminatorAt(cs: seq<u16>): (z: nat)
    ensures z <= |cs| && (forall k :: 0 <= k < z ==> cs[k] != 0) && (z < |cs| ==> cs[z] == 0)
  {
    if |cs| == 0 || cs[0] == 0 then 0 else 1 + TerminatorAt(cs[1..])
  }

  /** Only filler behind the terminator. */
  predicate Filled(cs: seq<u16>) {
    forall k :: TerminatorAt(cs) < k < |cs| ==> cs[k] == 0xFFFF
  }

  /** Offset in the long name buffer where entry `b` starts; negative numbers wrap and never fit. */
  function PartOffset(b: byte): int {
    ((if (b as int) / 0x40 % 2 == 1 then (b as int) - 0x40 else b as int) - 1) * 13
  }

  predicate LastPart(b: byte) {
    (b as int) / 0x40 % 2 == 1
  }

  /** The entries pick_lfn accepts. */
  predicate Pickable(slot: seq<byte>)
    requires |slot| == 32
  {
    var i, z := PartOffset(slot[0]), TerminatorAt(Chars(slot));
    && LdWord(slot, 26) == 0 && Filled(Chars(slot)) && i >= 0
    && i + z <= 256 && (z < 13 || LastPart(slot[0]) ==> i + z <= 255)
  }

  /** What an accepted entry puts into the buffer. */
  predicate PickedInto(slot: seq<byte>, a: seq<u16>, b: seq<u16>)
    requires |slot| == 32 && |a| == |b| == 256 && Pickable(slot)
  {
    var i, z := PartOffset(slot[0]), TerminatorAt(Chars(slot));
    && (forall k :: i <= k < i + z ==> b[k] == Chars(slot)[k - i])
    && (z < 13 || LastPart(slot[0]) ==> b[i + z] == 0)
    && (forall k :: 0 <= k < 256 && !(i <= k < i + z) && !(k == i + z && (z < 13 || LastPart(slot[0]))) ==>
          b[k] == a[k])
  }

  /** The loop of pick_lfn over the 13 characters, storing from `i0` on. */
  method PickChars(lfn: array<u16>, slot: seq<byte>, i0: nat) returns (ok: bool, i: nat, ended: bool)
    requires lfn.Length == 256 && |slot| == 32
    modifies lfn
    ensures var cs, z := Chars(slot), TerminatorAt(Chars(slot));
      && (ok <==> Filled(cs) && i0 + (if z < 13 then z + 1 else 13) <= 256)
      && (ok ==> i == i0 + (if z < 13 then z + 1 else 13) && (ended <==> z < 13))
      && (ok ==> forall k :: i0 <= k < i ==> lfn[k] == cs[k - i0])
      && (ok ==> forall k :: 0 <= k < 256 && !(i0 <= k < i) ==> lfn[k] == old(lfn[k]))
  {
    hide LfnOfs, LdWord, TerminatorAt;
    ghost var cs, z := Chars(slot), TerminatorAt(Chars(slot));
    ok, i, ended := false, i0, false;
    var s: nat := 0;
    while s < 13
      invariant s <= 13 && (ended <==> z < s)
      invariant i == i0 + (if s <= z then s else z + 1) && (s == 0 || i <= 256)
      invariant forall k :: i0 <= k < i ==> lfn[k] == cs[k - i0]
      invariant forall k :: 0 <= k < 256 && !(i0 <= k < i) ==> lfn[k] == old(lfn[k])
      invariant forall k :: z < k < s ==> cs[k] == 0xFFFF
    {
      var uc: u16 := LdWord(slot, LfnOfs(s));
      assert uc == cs[s];
      if !ended {
        if i >= MAX_LFN + 1 { return; }
        lfn[i] := uc;
        ended := uc == 0;
        i := i + 1;
      } else {
        if uc != 0xFFFF { return; }
      }
      s := s + 1;
    }
    ok := true;
  }

  /** The offset as a DWORD. */
  lemma PartRange(b: byte)
    ensures -13 <= PartOffset(b) <= 0x1000
    ensures PartOffset(b) % 0x1_0000_0000 == if PartOffset(b) < 0 then PartOffset(b) + 0x1_0000_0000 else PartOffset(b)
  {
  }

  /** pick_lfn. */
  method PickLfn(lfn: array<u16>, slot: seq<byte>) returns (ok: bool)
    requires lfn.Length == 256 && |slot| == 32
    modifies lfn
    ensures ok <==> Pickable(slot)
    ensures ok ==> PickedInto(slot, old(lfn[..]), lfn[..])
  {
    hide Chars, TerminatorAt, Filled, PartOffset, LastPart, LdWord;
    PartRange(slot[0]);
    if LdWord(slot, 26) != 0 { return false; }
    var i, ended;
    ok, i, ended := PickChars(lfn, slot, PartOffset(slot[0]) % 0x1_0000_0000);
    if !ok { return; }
    if LastPart(slot[0]) && !ended {
      if i >= MAX_LFN + 1 { return false; }
      lfn[i] := 0;
    }
  }

  /** Where the terminator of a part is. */
  lemma PartTerminator(slot: seq<byte>, name: seq<u16>, ord: nat, sum: byte)
    requires |slot| == 32 && IsPart(slot, name, ord, sum) && 0 !in name && (ord - 1) * 13 < |name|
    ensures PartOffset(slot[0]) == (ord - 1) * 13 && (LastPart(slot[0]) <==> ord * 13 >= |name|)
    ensures TerminatorAt(Chars(slot)) == if ord * 13 <= |name| then 13 else |name| - (ord - 1) * 13
    ensures Filled(Chars(slot))
  {
    hide LfnOfs, LdWord, TerminatorAt;
    var cs, z, i := Chars(slot), TerminatorAt(Chars(slot)), (ord - 1) * 13;
    assert forall s :: 0 <= s < 13 ==> cs[s] == PartChar(name, i + s);
    assert ord * 13 > |name| ==> cs[|name| - i] == 0;
    assert z < 13 ==> PartChar(name, i + z) == 0;
  }

  /** An entry written by put_lfn is accepted, and gives its part of the name back. */
  lemma PartPicked(slot: seq<byte>, name: seq<u16>, ord: nat, sum: byte, a: seq<u16>, b: seq<u16>)
    requires |slot| == 32 && |a| == |b| == 256 && IsPart(slot, name, ord, sum)
    requires |name| <= MAX_LFN && 0 !in name && (ord - 1) * 13 < |name|
    ensures Pickable(slot)
    ensures PickedInto(slot, a, b) ==> forall k :: (ord - 1) * 13 <= k < ord * 13 && k < |name| ==> b[k] == name[k]
    ensures PickedInto(slot, a, b) && ord * 13 >= |name| ==> b[|name|] == 0
    ensures PickedInto(slot, a, b) ==> forall k :: ord * 13 <= k <= |name| && ord * 13 < |name| ==> b[k] == a[k]
  {
    hide LfnOfs, LdWord, TerminatorAt;
    PartTerminator(slot, name, ord, sum);
    if PickedInto(slot, a, b) {
      forall k | (ord - 1) * 13 <= k < ord * 13 && k < |name|
        ensures b[k] == name[k]
      {
        var s := k - (ord - 1) * 13;
        assert Chars(slot)[s] == PartChar(name, (ord - 1) * 13 + s);
      }
    }
  }

  // ---------- sum_sfn ----------

  /** `(sum >> 1) + (sum << 7)` in a byte: rotation to the right. */
  function RotateRight(b: byte): byte {
    (b as int) / 2 + (b as int) % 2 * 128
  }

  /** Addition in a byte. */
  function AddByte(a: byte, b: byte): byte {
    (a as int + b as int) % 0x100
  }

  /** The checksum of a short name. */
  function Checksum(fn: seq<byte>): byte {
    if |fn| == 0 then 0 else AddByte(RotateRight(Checksum(fn[..|fn| - 1])), fn[|fn| - 1])
  }

  /** The same in bits: from 0 on, rotated to the right by one and the next byte added. */
  ghost function SumBits(fn: seq<bv8>): bv8 {
    if |fn| == 0 then 0 else SumBits(fn[..|fn| - 1]).RotateRight(1) + fn[|fn| - 1]
  }

  ghost predicate SameBytes(fn: seq<byte>, bits: seq<bv8>) {
    |bits| == |fn| && forall i :: 0 <= i < |fn| ==> Value(bits[i]) == fn[i]
  }

  lemma {:induction false} ChecksumBits(fn: seq<byte>, bits: seq<bv8>)
    requires SameBytes(fn, bits)
    ensures Checksum(fn) == Value(SumBits(bits))
  {
    hide Value;
    NextValue(0);
    if |fn| > 0 {
      var n := |fn| - 1;
      ChecksumBits(fn[..n], bits[..n]);
      RotatedValue(SumBits(bits[..n]));
      SumValue(SumBits(bits[..n]).RotateRight(1), bits[n]);
    }
  }

  lemma ChecksumNext(fn: seq<byte>, c: byte)
    ensures Checksum(fn + [c]) == ((Checksum(fn) as int) / 2 + (Checksum(fn) as int) % 2 * 0x80 + c) % 0x100
  {
    assert (fn + [c])[..|fn|] == fn;
  }

  lemma NoSum()
    ensures Checksum([]) == 0
  {
  }

  /** The sum of one name, by which the start and the order of the bytes are fixed. */
  lemma KnownSum()
    ensures Checksum([0x41, 0x4C, 0x4F, 0x4E, 0x47, 0x4E, 0x7E, 0x31, 0x54, 0x58, 0x54]) == 0x42    // ALONGN~1TXT
  {
    hide Checksum;
    NoSum();
    var fn: seq<byte> := [0x41, 0x4C, 0x4F, 0x4E, 0x47, 0x4E, 0x7E, 0x31, 0x54, 0x58, 0x54];
    var sums := [0, 0x41, 0xEC, 0xC5, 0x30, 0x5F, 0xFD, 0x7C, 0x6F, 0x0B, 0xDD, 0x42];
    for k := 0 to 11
      invariant Checksum(fn[..k]) == sums[k]
    {
      assert fn[..k + 1] == fn[..k] + [fn[k]];
      ChecksumNext(fn[..k], fn[k]);
    }
    assert fn[..11] == fn;
  }

  /** sum_sfn. */
  method SumSfn(slot: seq<byte>) returns (sum: byte)
    requires |slot| >= 11
    ensures forall bits :: SameBytes(slot[..11], bits) ==> sum == Value(SumBits(bits))
    ensures sum == Checksum(slot[..11])
  {
    sum := 0;
    var n := 11;
    while n > 0
      invariant 0 <= n <= 11 && sum == Checksum(slot[..11 - n])
    {
      var k := 11 - n;
      assert slot[..k + 1][..k] == slot[..k];
      sum := AddByte(RotateRight(sum), slot[k]);
      n := n - 1;
    }
    forall bits | SameBytes(slot[..11], bits)
      ensures sum == Value(SumBits(bits))
    {
      ChecksumBits(slot[..11], bits);
    }
  }

  lemma RotateInjective(a: byte, b: byte)
    ensures RotateRight(a) == RotateRight(b) ==> a == b
  {
  }

  lemma AddInjective(a: byte, b: byte, c: byte)
    ensures AddByte(a, c) == AddByte(b, c) ==> a == b
    ensures AddByte(c, a) == AddByte(c, b) ==> a == b
  {
  }

  /** Two short names that differ in exactly one byte have different checksums. */
  lemma {:induction false} ChecksumDetects(a: seq<byte>, b: seq<byte>, i: nat)
    requires |a| == |b| && i < |a| && a[i] != b[i] && forall k :: 0 <= k < |a| && k != i ==> a[k] == b[k]
    ensures Checksum(a) != Checksum(b)
  {
    hide RotateRight, AddByte;
    var n := |a| - 1;
    var x, y := Checksum(a[..n]), Checksum(b[..n]);
    if i == n {
      assert a[..n] == b[..n];
      AddInjective(a[n], b[n], RotateRight(x));
    } else {
      ChecksumDetects(a[..n], b[..n], i);
      RotateInjective(x, y);
      AddInjective(RotateRight(x), RotateRight(y), a[n]);
    }
  }

  // ---------- get_fileinfo: the name ----------

  /** What byte `si` of the short name adds to the readable form. */
  function Piece(fn: seq<byte>, si: nat): seq<byte>
    requires si < |fn|
  {
    var c := if fn[si] == RDDEM then DDEM else fn[si];
    if fn[si] == SPACE then [] else if si == 8 then [DOT, c] else [c]
  }

  function ReadableUpTo(fn: seq<byte>, n: nat): (r: seq<byte>)
    requires n <= |fn|
    ensures |r| <= if n <= 8 then n else n + 1
  {
    if n == 0 then [] else ReadableUpTo(fn, n - 1) + Piece(fn, n - 1)
  }

  /** The short name in readable form. */
  function Readable(fn: seq<byte>): seq<byte>
    requires |fn| == 11
  {
    ReadableUpTo(fn, 11)
  }

  function ZeroAt(s: seq<byte>): (z: nat)
    ensures z <= |s| && (forall k :: 0 <= k < z ==> s[k] != 0) && (z < |s| ==> s[z] == 0)
  {
    if |s| == 0 || s[0] == 0 then 0 else 1 + ZeroAt(s[1..])
  }

  function CaseOf(b: byte, low: bool): byte {
    if IsUpper(b) && low then (b as int) + 0x20 else b
  }

  /** Is character `k` shown in lower case? From the dot on, the flag of the extension decides. */
  predicate LowerAt(alt: seq<byte>, k: nat, bodyLower: bool, extLower: bool)
    requires k < |alt|
  {
    if DOT in alt[..k + 1] then extLower else bodyLower
  }

  /** The readable form with the case flags applied; a zero byte ends it. */
  function Cased(alt: seq<byte>, bodyLower: bool, extLower: bool): seq<byte> {
    seq<byte>(ZeroAt(alt), k requires 0 <= k < ZeroAt(alt) => CaseOf(alt[k], LowerAt(alt, k, bodyLower, extLower)))
  }

  predicate BodyLower(nt: byte) { (nt as int) / 0x08 % 2 == 1 }
  predicate ExtLower(nt: byte) { (nt as int) / 0x10 % 2 == 1 }

  /** The name of an entry without a valid long name. */
  function ShortName(slot: seq<byte>): seq<byte>
    requires |slot| == 32
  {
    var alt := Readable(slot[..11]);
    if alt == [] then [0x3F] else Cased(alt, BodyLower(slot[12]), ExtLower(slot[12]))
  }

  predicate Encodable(cp: CodePage, w: u16) {
    !IsSurrogate(w) && cp.toOem(w) != 0
  }

  /** A long name in the code page; empty if some character has no place in it. */
  function Encode(cp: CodePage, name: seq<u16>): seq<byte> {
    if forall k :: 0 <= k < |name| ==> Encodable(cp, name[k]) then
      seq<byte>(|name|, k requires 0 <= k < |name| => cp.toOem(name[k]))
    else []
  }

  /** get_fileinfo, the long name. (A surrogate, single or paired, has no place in the code page.) */
  method LongInfo(cp: CodePage, lfn: array<u16>, ghost name: seq<u16>) returns (fname: seq<byte>)
    requires lfn.Length == 256 && HoldsName(lfn[..], name)
    ensures fname == Encode(cp, name)
  {
    hide HoldsName;
    NameInBuffer(lfn[..], name);
    var si: nat := 0;
    var hs: u16 := 0;
    fname := [];
    while lfn[si] != 0
      invariant si <= |name| && (hs != 0 ==> exists k :: 0 <= k < si && IsSurrogate(name[k]))
      invariant hs == 0 ==> |fname| == si
      invariant hs == 0 ==> forall k :: 0 <= k < si ==> Encodable(cp, name[k]) && fname[k] == cp.toOem(name[k])
      decreases |name| - si
    {
      var wc := lfn[si];
      si := si + 1;
      if hs == 0 && IsSurrogate(wc) {
        hs := wc;
        continue;
      }
      var c: byte := if hs != 0 then 0 else cp.toOem(wc);
      if c == 0 || |fname| >= 255 {
        fname := [];
        break;
      }
      fname := fname + [c];
      hs := 0;
    }
    if hs != 0 { fname := []; }
  }

  /** get_fileinfo, the short name. */
  method ShortInfo(slot: seq<byte>) returns (alt: seq<byte>)
    requires |slot| == 32
    ensures alt == Readable(slot[..11])
  {
    alt := [];
    var si := 0;
    ghost var fn := slot[..11];
    while si < 11
      invariant 0 <= si <= 11 && alt == ReadableUpTo(fn, si)
    {
      var wc := slot[si];
      si := si + 1;
      if wc == SPACE { continue; }
      if wc == RDDEM { wc := DDEM; }
      if si == 9 && |alt| < 12 { alt := alt + [DOT]; }
      alt := alt + [wc];
    }
  }

  lemma LowerNext(alt: seq<byte>, k: nat, bodyLower: bool, extLower: bool)
    requires k < |alt|
    ensures LowerAt(alt, k, bodyLower, extLower) == if DOT in alt[..k] || alt[k] == DOT then extLower else bodyLower
    ensures DOT in alt[..k + 1] <==> DOT in alt[..k] || alt[k] == DOT
  {
    assert alt[..k + 1] == alt[..k] + [alt[k]];
  }

  /** get_fileinfo, the case flags of a short name. */
  method ApplyCase(alt: seq<byte>, bodyLower: bool, extLower: bool) returns (fname: seq<byte>)
    ensures fname == Cased(alt, bodyLower, extLower)
  {
    hide CaseOf, ZeroAt, LowerAt;
    fname := [];
    var si, low := 0, bodyLower;
    while si < |alt| && alt[si] != 0
      invariant si <= ZeroAt(alt) && |fname| == si && low == (if DOT in alt[..si] then extLower else bodyLower)
      invariant forall k :: 0 <= k < si ==> fname[k] == CaseOf(alt[k], LowerAt(alt, k, bodyLower, extLower))
    {
      LowerNext(alt, si, bodyLower, extLower);
      if alt[si] == DOT { low := extLower; }
      fname := fname + [CaseOf(alt[si], low)];
      si := si + 1;
    }
  }

  /** get_fileinfo: fname[]. `hasLong` is `dp->blk_ofs != 0xFFFFFFFF`. */
  method FileName(cp: CodePage, hasLong: bool, lfn: array<u16>, slot: seq<byte>, ghost name: seq<u16>)
    returns (fname: seq<byte>)
    requires |slot| == 32 && lfn.Length == 256 && (hasLong ==> HoldsName(lfn[..], name))
    ensures fname == if hasLong && Encode(cp, name) != [] then Encode(cp, name) else ShortName(slot)
  {
    fname := [];
    if hasLong { fname := LongInfo(cp, lfn, name); }
    var alt := ShortInfo(slot);
    if fname == [] {
      if alt == [] {
        fname := [0x3F];
      } else {
        fname := ApplyCase(alt, BodyLower(slot[12]), ExtLower(slot[12]));
      }
    }
  }

  // ---------- round trips ----------

  /** The name without case. */
  function UpperName(name: seq<byte>): (r: seq<byte>)
    ensures |r| == |name|
  {
    seq<byte>(|name|, k requires 0 <= k < |name| => ToUpper(name[k]))
  }

  /** An 8.3 name of plain ASCII characters, as create_name leaves it. */
  ghost predicate Plain83(cp: CodePage, bytes: seq<byte>) {
    && |bytes| > 0 && bytes[|bytes| - 1] != DOT
    && (forall k :: 0 <= k < |bytes| ==> 0x20 < bytes[k] < 0x80)
    && (forall k :: 0 <= k < |bytes| ==> bytes[k] == DOT ==> k > 0 && k + 1 == AfterDot(bytes))
    && |Body(bytes)| <= 8 && |Ext(bytes)| <= 3
  }

  lemma PlainIs(cp: CodePage, bytes: seq<byte>)
    requires Faithful(cp) && |bytes| > 0
    requires (forall k :: 0 <= k < |bytes| ==> NameByte(bytes[k]) && cp.toUni(bytes[k]) != 0)
    requires TrimLength(bytes) == |bytes| && !NeedsLong(cp, Decode(cp, bytes))
    ensures Decode(cp, bytes) == bytes && Plain83(cp, bytes)
  {
    var name := Decode(cp, bytes);
    forall k | 0 <= k < |bytes|
      ensures name[k] == bytes[k] as int && 0x20 < bytes[k] < 0x80
    {
      DecodedByte(cp, bytes[k]);
      assert GoodAt(cp, name, k);
      assert name[k] < 0x80;
    }
    assert name == bytes;
    forall k | 0 <= k < |bytes| && bytes[k] == DOT
      ensures k > 0 && k + 1 == AfterDot(bytes)
    {
      assert GoodAt(cp, name, k);
    }
  }

  /** The short form of such a name, byte by byte. */
  lemma PlainShort(cp: CodePage, bytes: seq<byte>, k: nat)
    requires Plain83(cp, bytes) && k < 11
    ensures var fn, b := ShortForm(cp, bytes), |Body(bytes)|;
      && (k < 8 ==> fn[k] == if k < b then UpperName(bytes)[k] else SPACE)
      && (k >= 8 ==> fn[k] == if b + 1 + k - 8 < |bytes| then UpperName(bytes)[b + 1 + k - 8] else SPACE)
      && fn[k] != RDDEM
  {
  }

  /** How much of the name the first `n` bytes of the short form show. */
  function Shown(bytes: seq<byte>, n: nat): (m: nat)
    ensures m <= |bytes|
  {
    var b := |Body(bytes)|;
    if n <= 8 then (if n < b then n else b) else if b + 1 + n - 8 < |bytes| then b + 1 + n - 8 else |bytes|
  }

  lemma PieceShown(cp: CodePage, bytes: seq<byte>, n: nat)
    requires Plain83(cp, bytes) && n < 11
    ensures Shown(bytes, n) <= Shown(bytes, n + 1)
    ensures Piece(ShortForm(cp, bytes), n) == UpperName(bytes)[Shown(bytes, n)..Shown(bytes, n + 1)]
  {
    hide ShortForm, AfterDot, UpperName, Body, Ext;
    PlainShort(cp, bytes, n);
    var alt, m := UpperName(bytes), Shown(bytes, n);
    PlainByte(cp, bytes, n);
    if Shown(bytes, n + 1) == m + 1 { assert alt[m..m + 1] == [alt[m]]; }
    if Shown(bytes, n + 1) == m + 2 { assert alt[m..m + 2] == [alt[m], alt[m + 1]]; }
  }

  /** Which characters a byte of the short form shows. */
  lemma PlainByte(cp: CodePage, bytes: seq<byte>, n: nat)
    requires Plain83(cp, bytes) && n < 11
    ensures var alt, fn, m, m2 := UpperName(bytes), ShortForm(cp, bytes), Shown(bytes, n), Shown(bytes, n + 1);
      && (m2 == m || m2 == m + 1 || m2 == m + 2)
      && (fn[n] == SPACE <==> m2 == m)
      && (m2 == m + 2 <==> n == 8 && m2 > m)
      && (m2 == m + 1 ==> alt[m] == fn[n])
      && (m2 == m + 2 ==> alt[m] == DOT && alt[m + 1] == fn[n])
  {
    hide ShortForm, AfterDot;
    PlainShort(cp, bytes, n);
  }

  /** Reading the short form gives the name in upper case. */
  lemma {:induction false} PlainReadable(cp: CodePage, bytes: seq<byte>, n: nat)
    requires Plain83(cp, bytes) && n <= 11
    ensures ReadableUpTo(ShortForm(cp, bytes), n) == UpperName(bytes)[..Shown(bytes, n)]
  {
    hide ShortForm, AfterDot, Plain83, UpperName;
    if n > 0 {
      PlainReadable(cp, bytes, n - 1);
      PieceShown(cp, bytes, n - 1);
    } else {
      assert Shown(bytes, 0) == 0;
    }
  }

  lemma FlagRight(s: seq<byte>, k: nat)
    requires k < |s| && !Mixed(s)
    ensures CaseOf(ToUpper(s[k]), HasLower(s)) == s[k]
  {
  }

  /** The case flags restore the case of every character. */
  lemma CaseRestored(bytes: seq<byte>, k: nat)
    requires k < |bytes| && !Mixed(Body(bytes)) && !Mixed(Ext(bytes))
    requires forall j :: 0 <= j < |bytes| && bytes[j] == DOT ==> j + 1 == AfterDot(bytes)
    ensures var alt := UpperName(bytes);
      CaseOf(alt[k], LowerAt(alt, k, HasLower(Body(bytes)), HasLower(Ext(bytes)))) == bytes[k]
  {
    hide HasLower, Mixed, AfterDot, UpperName, LowerAt, CaseOf;
    var di := AfterDot(bytes);
    DotSeen(bytes, k);
    if di > 0 && k + 1 >= di {
      if k + 1 > di { FlagRight(Ext(bytes), k - di); } else { DotCase(HasLower(Ext(bytes))); }
    } else {
      FlagRight(Body(bytes), k);
    }
  }

  lemma DotCase(low: bool)
    ensures CaseOf(ToUpper(DOT), low) == DOT
  {
  }

  /** From the dot on the flag of the extension decides. */
  lemma DotSeen(bytes: seq<byte>, k: nat)
    requires k < |bytes| && forall j :: 0 <= j < |bytes| && bytes[j] == DOT ==> j + 1 == AfterDot(bytes)
    ensures UpperName(bytes)[k] == ToUpper(bytes[k])
    ensures forall b, e :: LowerAt(UpperName(bytes), k, b, e) == if 0 < AfterDot(bytes) <= k + 1 then e else b
  {
    hide AfterDot;
    var alt, di := UpperName(bytes), AfterDot(bytes);
    if 0 < di <= k + 1 {
      assert alt[..k + 1][di - 1] == DOT;
    } else {
      assert DOT !in alt[..k + 1];
    }
  }

  lemma PlainWhole(cp: CodePage, bytes: seq<byte>)
    requires Plain83(cp, bytes)
    ensures Readable(ShortForm(cp, bytes)) == UpperName(bytes)
    ensures ZeroAt(UpperName(bytes)) == |bytes|
  {
    PlainReadable(cp, bytes, 11);
    assert Shown(bytes, 11) == |bytes|;
    assert UpperName(bytes)[..|bytes|] == UpperName(bytes);
  }

  /** A name without long-name entries comes back through its short form and the two case flags. */
  lemma ShortRoundTrip(cp: CodePage, bytes: seq<byte>, slot: seq<byte>)
    requires Faithful(cp) && |slot| == 32 && |bytes| > 0 && TrimLength(bytes) == |bytes|
    requires forall k :: 0 <= k < |bytes| ==> NameByte(bytes[k]) && cp.toUni(bytes[k]) != 0
    requires var name := Decode(cp, bytes);
      && !NeedsLong(cp, name) && slot[..11] == ShortForm(cp, name)
      && BodyLower(slot[12]) == HasLower(Body(name)) && ExtLower(slot[12]) == HasLower(Ext(name))
    ensures ShortName(slot) == bytes
  {
    hide ShortForm, AfterDot, HasLower, Faithful, Is83, Body, Ext, LowerAt, CaseOf, Readable, ZeroAt, TrimLength;
    PlainIs(cp, bytes);
    PlainWhole(cp, bytes);
    forall k | 0 <= k < |bytes|
      ensures var low := LowerAt(UpperName(bytes), k, HasLower(Body(bytes)), HasLower(Ext(bytes)));
        CaseOf(UpperName(bytes)[k], low) == bytes[k]
    {
      CaseRestored(bytes, k);
    }
    assert Cased(UpperName(bytes), HasLower(Body(bytes)), HasLower(Ext(bytes))) == bytes;
  }

  /** A name with long-name entries comes back through the code page. */
  lemma LongRoundTrip(cp: CodePage, bytes: seq<byte>)
    requires Faithful(cp) && forall k :: 0 <= k < |bytes| ==> NameByte(bytes[k]) && cp.toUni(bytes[k]) != 0
    ensures Encode(cp, Decode(cp, bytes)) == bytes
    ensures 0xFFFF !in Decode(cp, bytes)
  {
    forall k | 0 <= k < |bytes|
      ensures Encodable(cp, Decode(cp, bytes)[k]) && cp.toOem(Decode(cp, bytes)[k]) == bytes[k]
      ensures Decode(cp, bytes)[k] != 0xFFFF
    {
      DecodedByte(cp, bytes[k]);
    }
  }
}
