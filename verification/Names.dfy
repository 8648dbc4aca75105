/** Object names: segments of a path, long names, 8.3 names with their case flags. */
module Names {
  import opened Bytes

  const MAX_LFN: nat := 255

  /** The code page (single byte characters): ff_oem2uni, ff_uni2oem and the upper-case table ExCvt. A result of 0
      means that the character cannot be converted. */
  datatype CodePage = CodePage(toUni: byte -> u16, toOem: u16 -> byte, upper: byte -> byte)

  predicate IsSurrogate(w: u16) { 0xD800 <= w <= 0xDFFF }
  predicate IsSeparator(w: u16) { w == 0x2F || w == 0x5C }
  predicate IsUpper(w: u16) { 0x41 <= w <= 0x5A }
  predicate IsLower(w: u16) { 0x61 <= w <= 0x7A }

  /** The set "*:<>|\"?\x7F". */
  predicate Illegal(w: u16) {
    w == 0x2A || w == 0x3A || w == 0x3C || w == 0x3E || w == 0x7C || w == 0x22 || w == 0x3F || w == 0x7F
  }

  /** The set "+,;=[]", which only long names may contain. */
  predicate LongOnly(b: byte) { b == 0x2B || b == 0x2C || b == 0x3B || b == 0x3D || b == 0x5B || b == 0x5D }

  const SPACE: byte := 0x20
  const DOT: byte := 0x2E
  const DDEM: byte := 0xE5
  const RDDEM: byte := 0x05

  /** What the rest relies on: ASCII maps to itself, the two tables are inverse to each other above it, no character
      maps to a surrogate or to the filler, and an upper-case character is one that a short name may hold. */
  ghost predicate Faithful(cp: CodePage) {
    && (forall b: byte :: b < 0x80 ==> cp.toUni(b) == b && cp.toOem(b) == b)
    && (forall b: byte :: b >= 0x80 && cp.toUni(b) != 0 ==>
          0x80 <= cp.toUni(b) < 0xFFFF && !IsSurrogate(cp.toUni(b)) && cp.toOem(cp.toUni(b)) == b)
    && (forall w: u16 :: w >= 0x80 ==> cp.toOem(w) == 0 || cp.toOem(w) >= 0x80)
    && (forall b: byte :: b >= 0x80 ==> cp.upper(b) >= 0x80 || IsUpper(cp.upper(b)))
  }

  // ---------- 8.3 names ----------

  /** The character of the short name before case conversion. */
  function Converted(cp: CodePage, w: u16): byte {
    if w < 0x80 then w
    else if cp.toOem(w) >= 0x80 then cp.upper(cp.toOem(w)) else cp.toOem(w)
  }

  function ToUpper(b: byte): byte {
    if IsLower(b) then (b as int) - 0x20 else b
  }

  predicate Fits(cp: CodePage, w: u16) {
    Converted(cp, w) != 0 && !LongOnly(Converted(cp, w))
  }

  function Short(cp: CodePage, w: u16): byte {
    ToUpper(Converted(cp, w))
  }

  /** Index behind the last dot; 0 if there is none. */
  function AfterDot(name: seq<u16>): (d: nat)
    ensures d <= |name| && (d > 0 ==> name[d - 1] == DOT as int)
    ensures forall k :: d <= k < |name| ==> name[k] != DOT as int
  {
    if |name| == 0 then 0
    else if name[|name| - 1] == DOT as int then |name|
    else AfterDot(name[..|name| - 1])
  }

  function BodyLength(name: seq<u16>): (n: nat)
    ensures n <= |name|
  {
    if AfterDot(name) == 0 then |name| else AfterDot(name) - 1
  }

  function Body(name: seq<u16>): seq<u16> {
    name[..BodyLength(name)]
  }

  function Ext(name: seq<u16>): seq<u16> {
    if AfterDot(name) == 0 then [] else name[AfterDot(name)..]
  }

  /** Character `k` may stand where it is in an 8.3 name. */
  predicate GoodAt(cp: CodePage, name: seq<u16>, k: nat)
    requires k < |name|
  {
    name[k] != SPACE as int && (if k + 1 == AfterDot(name) then k > 0 else name[k] != DOT as int && Fits(cp, name[k]))
  }

  /** The name fits the 8.3 format without loss. */
  ghost predicate Is83(cp: CodePage, name: seq<u16>) {
    && (forall k :: 0 <= k < |name| ==> GoodAt(cp, name, k))
    && |Body(name)| <= 8 && |Ext(name)| <= 3
  }

  predicate HasLower(s: seq<u16>) {
    exists k :: 0 <= k < |s| && IsLower(s[k])
  }

  predicate HasUpper(s: seq<u16>) {
    exists k :: 0 <= k < |s| && IsUpper(s[k])
  }

  predicate Extended(s: seq<u16>) {
    exists k :: 0 <= k < |s| && s[k] >= 0x80
  }

  predicate Mixed(s: seq<u16>) {
    HasLower(s) && HasUpper(s)
  }

  /** The short name and two case flags do not carry the whole name. */
  ghost predicate NeedsLong(cp: CodePage, name: seq<u16>) {
    !Is83(cp, name) || Extended(name) || Mixed(Body(name)) || Mixed(Ext(name))
  }

  function RestoreMark(b: byte): byte {
    if b == DDEM then RDDEM else b
  }

  /** Byte `k` of the directory form of an 8.3 name. */
  function ShortByte(cp: CodePage, name: seq<u16>, k: nat): byte {
    if k < 8 then (if k < |Body(name)| then Short(cp, Body(name)[k]) else SPACE)
    else if k - 8 < |Ext(name)| then Short(cp, Ext(name)[k - 8]) else SPACE
  }

  /** The directory form, 11 bytes. */
  function ShortForm(cp: CodePage, name: seq<u16>): (r: seq<byte>)
    ensures |r| == 11
  {
    seq(11, k requires 0 <= k < 11 => if k == 0 then RestoreMark(ShortByte(cp, name, 0)) else ShortByte(cp, name, k))
  }

  /** What any short name in a directory slot must be: never mistaken for a free slot, a dot entry or the end. */
  predicate UsableShort(fn: seq<byte>) {
    |fn| == 11 && fn[0] != 0 && fn[0] != DDEM && fn[0] != DOT
  }

  /** The flags kept in fn[NSFLAG]. */
  datatype NameFlags = NameFlags(loss: bool, lfn: bool, last: bool, body: bool, ext: bool, dot: bool)

  // ---------- the field-filling loop of create_name ----------

  /** ASCII letters seen so far: lower and upper case (two bits of the capital flags). */
  datatype Caps = Caps(lo: bool, up: bool)

  function Seen(c: Caps, b: byte): Caps {
    Caps(c.lo || IsLower(b), c.up || IsUpper(b))
  }

  /** The loop's state: next character `si`, next position `i` in fn, end `ni` of the field, what is known of the
      flags. */
  datatype Fill = Fill(si: nat, i: nat, ni: nat, loss: bool, lfn: bool, cur: Caps, body: Caps)

  ghost function CapsOf(s: seq<u16>): Caps {
    Caps(HasLower(s), HasUpper(s))
  }

  /** What the short name holds after the loop consumed name[..f.si]. */
  ghost predicate Filling(cp: CodePage, name: seq<u16>, fn: seq<byte>, f: Fill) {
    var di := AfterDot(name);
    && f.si <= |name| && |fn| == 11
    && ((f.ni == 8 && f.i <= 8) || (f.ni == 11 && 8 <= f.i <= 11 && 0 < di <= f.si))
    && (forall k :: f.i <= k < 11 ==> fn[k] == SPACE)
    && (forall k :: 0 <= k < 11 ==> fn[k] != 0 && fn[k] != DOT)
    && (f.loss ==> f.lfn && !Is83(cp, name))
    && (!f.loss ==> FillingExact(cp, name, fn, f))
  }

  /** ... while nothing was lost. */
  ghost predicate FillingExact(cp: CodePage, name: seq<u16>, fn: seq<byte>, f: Fill)
    requires f.si <= |name| && |fn| == 11 && f.i <= f.ni && f.ni <= 11
    requires f.ni == 11 ==> 8 <= f.i && 0 < AfterDot(name) <= f.si
  {
    && (forall k :: 0 <= k < f.si ==> GoodAt(cp, name, k))
    && (f.lfn <==> Extended(name[..f.si]))
    && (if f.ni == 11 then InExt(cp, name, fn, f) else InBody(cp, name, fn, f))
  }

  ghost predicate InBody(cp: CodePage, name: seq<u16>, fn: seq<byte>, f: Fill)
    requires f.si <= |name| && |fn| == 11 && f.i <= 11
  {
    && f.i == f.si && (AfterDot(name) == 0 || f.si < AfterDot(name))
    && (forall k :: 0 <= k < f.si ==> fn[k] == Short(cp, name[k]))
    && (!f.lfn ==> f.cur == CapsOf(name[..f.si]))
  }

  ghost predicate InExt(cp: CodePage, name: seq<u16>, fn: seq<byte>, f: Fill)
    requires |fn| == 11 && 8 <= f.i <= 11 && 0 < AfterDot(name) <= f.si <= |name|
  {
    var di := AfterDot(name);
    && f.i == 8 + f.si - di && di - 1 <= 8
    && (forall k :: 0 <= k < di - 1 ==> fn[k] == Short(cp, name[k]))
    && (forall k :: di - 1 <= k < 8 ==> fn[k] == SPACE)
    && (forall k :: 8 <= k < f.i ==> fn[k] == Short(cp, name[di + k - 8]))
    && (!f.lfn ==> f.body == CapsOf(name[..di - 1]) && f.cur == CapsOf(name[di..f.si]))
  }

  lemma StartFill(cp: CodePage, name: seq<u16>, fn: seq<byte>, f: Fill)
    requires |fn| == 11 && (forall k :: 0 <= k < 11 ==> fn[k] == SPACE) && f.si < |name| && f.i == 0 && f.ni == 8
    requires f.loss == f.lfn == (f.si > 0 || name[0] == DOT as int) && f.cur == Caps(false, false)
    requires f.si > 0 ==> name[0] == SPACE as int
    ensures Filling(cp, name, fn, f)
  {
    if f.loss { BadPlace(cp, name, 0); }
  }

  /** A space, or a dot that is not the last one or leads the name, or a character only long names may hold. */
  lemma BadPlace(cp: CodePage, name: seq<u16>, k: nat)
    requires k < |name|
    requires name[k] == SPACE as int || (name[k] == DOT as int && (k + 1 != AfterDot(name) || k == 0))
             || (name[k] != DOT as int && !Fits(cp, name[k]))
    ensures !GoodAt(cp, name, k) && !Is83(cp, name)
  {
  }

  lemma GoodPlace(cp: CodePage, name: seq<u16>, k: nat)
    requires k < |name| && name[k] != SPACE as int && name[k] != DOT as int && Fits(cp, name[k])
    ensures GoodAt(cp, name, k) && k + 1 != AfterDot(name)
  {
  }

  lemma CapsNext(s: seq<u16>, w: u16)
    ensures CapsOf(s + [w]) == Caps(HasLower(s) || IsLower(w), HasUpper(s) || IsUpper(w))
    ensures Extended(s + [w]) <==> Extended(s) || w >= 0x80
  {
    var t := s + [w];
    assert t[|s|] == w;
    forall k | 0 <= k < |s| ensures t[k] == s[k] { }
  }

  /** The field is full and another character comes. */
  lemma OverflowStep(cp: CodePage, name: seq<u16>, fn: seq<byte>, f: Fill)
    requires Filling(cp, name, fn, f) && f.si < |name| && f.i >= f.ni && !f.loss
    requires f.ni == 11 || f.si + 1 != AfterDot(name)
    ensures !Is83(cp, name)
  {
  }

  /** The last dot: the extension begins. */
  lemma EnterExtension(cp: CodePage, name: seq<u16>, fn: seq<byte>, f: Fill)
    requires Filling(cp, name, fn, f) && f.ni == 8 && f.si < |name| && f.si < AfterDot(name)
    requires f.si + 1 != AfterDot(name) ==> f.loss
    requires !f.loss ==> f.si > 0
    ensures Filling(cp, name, fn, f.(si := AfterDot(name), i := 8, ni := 11, body := f.cur, cur := Caps(false, false)))
  {
    hide AfterDot, Short, Is83, Fits, Converted;
    if !f.loss {
      assert GoodAt(cp, name, f.si);
      assert name[..f.si + 1] == name[..f.si] + [name[f.si]];
      CapsNext(name[..f.si], name[f.si]);
    }
  }

  function Stored(cp: CodePage, name: seq<u16>, f: Fill): Fill
    requires f.si < |name|
  {
    f.(si := f.si + 1, i := f.i + 1, lfn := f.lfn || name[f.si] >= 0x80, cur := Seen(f.cur, Converted(cp, name[f.si])))
  }

  lemma CapsSeen(cp: CodePage, s: seq<u16>, w: u16)
    requires w < 0x80
    ensures Seen(CapsOf(s), Converted(cp, w)) == CapsOf(s + [w])
  {
    CapsNext(s, w);
  }

  lemma SliceNext(s: seq<u16>, a: nat, b: nat)
    requires a <= b < |s|
    ensures s[a..b + 1] == s[a..b] + [s[b]]
  {
  }

  lemma StoreInBody(cp: CodePage, name: seq<u16>, fn: seq<byte>, f: Fill, b: byte)
    requires f.si < |name| && |fn| == 11 && f.i < 8 && InBody(cp, name, fn, f) && f.si + 1 != AfterDot(name)
    requires b == Short(cp, name[f.si])
    ensures InBody(cp, name, fn[f.i := b], Stored(cp, name, f))
  {
    hide AfterDot, CapsOf, Short, Seen, Converted;
    assert name[..f.si + 1] == name[..f.si] + [name[f.si]];
    if name[f.si] < 0x80 { CapsSeen(cp, name[..f.si], name[f.si]); }
  }

  lemma StoreInExt(cp: CodePage, name: seq<u16>, fn: seq<byte>, f: Fill, b: byte)
    requires |fn| == 11 && 8 <= f.i < 11 && 0 < AfterDot(name) <= f.si < |name| && InExt(cp, name, fn, f)
    requires b == Short(cp, name[f.si])
    ensures InExt(cp, name, fn[f.i := b], Stored(cp, name, f))
  {
    hide AfterDot, CapsOf, Short, Seen, Converted;
    var di := AfterDot(name);
    SliceNext(name, di, f.si);
    if name[f.si] < 0x80 { CapsSeen(cp, name[di..f.si], name[f.si]); }
    ExtBytes(cp, name, fn, f.i, f.si, di, b);
  }

  lemma ExtBytes(cp: CodePage, name: seq<u16>, fn: seq<byte>, i: nat, si: nat, di: nat, b: byte)
    requires |fn| == 11 && 8 <= i < 11 && di <= si < |name| && i == 8 + si - di && b == Short(cp, name[si])
    requires forall k :: 8 <= k < i ==> fn[k] == Short(cp, name[di + k - 8])
    ensures var r := fn[i := b];
      (forall k :: 0 <= k < 8 ==> r[k] == fn[k]) && forall k :: 8 <= k < i + 1 ==> r[k] == Short(cp, name[di + k - 8])
  {
    hide Short;
  }

  /** A character is stored: the right one, unless the name is lossy already. */
  lemma StoreStep(cp: CodePage, name: seq<u16>, fn: seq<byte>, f: Fill, b: byte)
    requires Filling(cp, name, fn, f) && f.si < |name| && f.i < f.ni
    requires b != 0 && b != DOT
    requires (!f.loss ==> GoodAt(cp, name, f.si) && f.si + 1 != AfterDot(name) && b == Short(cp, name[f.si]))
    ensures Filling(cp, name, fn[f.i := b], Stored(cp, name, f))
  {
    hide InBody, InExt, GoodAt, Short, Is83, Extended, Converted, AfterDot, CapsOf;
    if !f.loss {
      assert name[..f.si + 1] == name[..f.si] + [name[f.si]];
      CapsNext(name[..f.si], name[f.si]);
      if f.ni == 11 {
        StoreInExt(cp, name, fn, f, b);
      } else {
        StoreInBody(cp, name, fn, f, b);
      }
    }
  }

  /** The capital flags of body and extension at the end. */
  function EndCaps(f: Fill): (Caps, Caps) {
    if f.ni == 8 then (f.cur, Caps(false, false)) else (f.body, f.cur)
  }

  predicate Both(c: Caps) {
    c.lo && c.up
  }

  /** At the end of the name. */
  lemma FillDone(cp: CodePage, name: seq<u16>, fn: seq<byte>, f: Fill)
    requires Filling(cp, name, fn, f) && (f.loss || f.si == |name|)
    ensures f.loss <==> !Is83(cp, name)
    ensures !f.loss ==> forall k :: 0 <= k < 11 ==> fn[k] == ShortByte(cp, name, k)
    ensures !f.loss ==> (f.lfn <==> Extended(name))
    ensures !f.lfn ==> EndCaps(f) == (CapsOf(Body(name)), CapsOf(Ext(name)))
    ensures f.ni == 8 || f.ni == 11
    ensures (f.lfn || Both(EndCaps(f).0) || Both(EndCaps(f).1)) <==> NeedsLong(cp, name)
  {
    if !f.loss {
      assert name[..|name|] == name;
      forall k | 0 <= k < 11
        ensures fn[k] == ShortByte(cp, name, k)
      {
        if f.ni == 11 && 8 <= k {
          if k - 8 < |Ext(name)| {
            assert fn[k] == Short(cp, name[AfterDot(name) + k - 8]);
          }
        }
      }
    }
  }

  /** A lossy step: only the position matters from now on. */
  lemma NowLossy(cp: CodePage, name: seq<u16>, fn: seq<byte>, f: Fill, si: nat)
    requires Filling(cp, name, fn, f) && f.si <= si <= |name| && (f.loss || !Is83(cp, name))
    ensures Filling(cp, name, fn, f.(si := si, loss := true, lfn := true))
  {
  }

  lemma StoreLossy(cp: CodePage, name: seq<u16>, fn: seq<byte>, f: Fill, b: byte)
    requires Filling(cp, name, fn, f) && f.si < |name| && f.i < f.ni && b != 0 && b != DOT && !Is83(cp, name)
    ensures Filling(cp, name, fn[f.i := b], f.(si := f.si + 1, i := f.i + 1, loss := true, lfn := true))
  {
  }

  lemma FillBasics(cp: CodePage, name: seq<u16>, fn: seq<byte>, f: Fill)
    requires Filling(cp, name, fn, f)
    ensures f.si <= |name| && |fn| == 11 && f.i <= f.ni && (f.ni == 8 || f.ni == 11) && (f.loss ==> f.lfn)
    ensures f.ni == 11 ==> AfterDot(name) <= f.si
    ensures !f.loss && f.ni == 8 ==> f.i == f.si && (AfterDot(name) == 0 || f.si < AfterDot(name))
  {
  }

  // ---------- the short form of any name ----------

  /** The characters of `s` that get into a field of the short name: all but spaces and dots, with `_` for those that
      only a long name may hold. */
  function Squeezed(cp: CodePage, s: seq<u16>): (r: seq<byte>)
    ensures |r| <= |s|
  {
    if |s| == 0 then []
    else
      var w := s[|s| - 1];
      Squeezed(cp, s[..|s| - 1]) + if w == SPACE as int || w == DOT as int then [] else [Convert(cp, w).0]
  }

  /** Byte `k` of a field that holds `s`, filled up with spaces. */
  function FieldByte(s: seq<byte>, k: nat): byte {
    if k < |s| then s[k] else SPACE
  }

  /** Byte `k` of the short name of any name: each field is cut behind its last byte. */
  function SqueezedByte(cp: CodePage, name: seq<u16>, k: nat): byte {
    if k < 8 then FieldByte(Squeezed(cp, Body(name)), k) else FieldByte(Squeezed(cp, Ext(name)), k - 8)
  }

  /** The directory form of any name, 11 bytes. */
  function SqueezedForm(cp: CodePage, name: seq<u16>): (r: seq<byte>)
    ensures |r| == 11
  {
    seq(11, k requires 0 <= k < 11 =>
      if k == 0 then RestoreMark(SqueezedByte(cp, name, 0)) else SqueezedByte(cp, name, k))
  }

  /** A character that gets in comes behind those before it. */
  lemma SqueezedNext(cp: CodePage, s: seq<u16>, w: u16)
    ensures Squeezed(cp, s + [w])
         == if w == SPACE as int || w == DOT as int then Squeezed(cp, s) else Squeezed(cp, s) + [Convert(cp, w).0]
  {
    hide Convert;
    assert (s + [w])[..|s|] == s;
  }

  lemma {:induction false} SqueezedPrefix(cp: CodePage, s: seq<u16>, n: nat)
    requires n <= |s|
    ensures Squeezed(cp, s[..n]) <= Squeezed(cp, s)
    decreases |s|
  {
    hide Convert;
    if n == |s| {
      assert s[..n] == s;
    } else {
      assert s[..|s| - 1][..n] == s[..n];
      SqueezedPrefix(cp, s[..|s| - 1], n);
    }
  }

  /** Nothing is squeezed out of a name that fits. */
  lemma {:induction false} SqueezedFits(cp: CodePage, s: seq<u16>)
    requires forall k :: 0 <= k < |s| ==> s[k] != SPACE as int && s[k] != DOT as int && Fits(cp, s[k])
    ensures |Squeezed(cp, s)| == |s| && forall k :: 0 <= k < |s| ==> Squeezed(cp, s)[k] == Short(cp, s[k])
  {
    hide Fits, Short;
    if |s| > 0 {
      var t := s[..|s| - 1];
      SqueezedFits(cp, t);
      assert Convert(cp, s[|s| - 1]).0 == Short(cp, s[|s| - 1]);
    }
  }

  /** For an 8.3 name it is the 8.3 form. */
  lemma Squeezed83(cp: CodePage, name: seq<u16>)
    requires Is83(cp, name)
    ensures SqueezedForm(cp, name) == ShortForm(cp, name)
  {
    hide Fits, Short, AfterDot, Squeezed;
    forall k | 0 <= k < |name| && k + 1 != AfterDot(name)
      ensures name[k] != SPACE as int && name[k] != DOT as int && Fits(cp, name[k])
    {
      assert GoodAt(cp, name, k);
    }
    SqueezedFits(cp, Body(name));
    SqueezedFits(cp, Ext(name));
  }

  /** `fn[a..a + n]` holds the first bytes of `s`. */
  ghost predicate Field(fn: seq<byte>, a: nat, n: nat, s: seq<byte>)
    requires |fn| == 11 && a + n <= 11
  {
    forall k :: 0 <= k < n ==> fn[a + k] == FieldByte(s, k)
  }

  /** A full field shows nothing of what comes behind. */
  lemma FieldLonger(fn: seq<byte>, a: nat, n: nat, s: seq<byte>, t: seq<byte>)
    requires |fn| == 11 && a + n <= 11 && Field(fn, a, n, s) && s <= t && (|s| >= n || s == t)
    ensures Field(fn, a, n, t)
  {
    forall k | 0 <= k < n ensures fn[a + k] == FieldByte(t, k) {
      assert fn[a + k] == FieldByte(s, k);
    }
  }

  lemma FieldsShow(cp: CodePage, name: seq<u16>, fn: seq<byte>)
    requires |fn| == 11 && Field(fn, 0, 8, Squeezed(cp, Body(name))) && Field(fn, 8, 3, Squeezed(cp, Ext(name)))
    ensures forall k :: 0 <= k < 11 ==> fn[k] == SqueezedByte(cp, name, k)
  {
    hide Squeezed, Body, Ext;
    var body, ext := Squeezed(cp, Body(name)), Squeezed(cp, Ext(name));
    forall k | 0 <= k < 11
      ensures fn[k] == SqueezedByte(cp, name, k)
    {
      if k < 8 {
        assert fn[0 + k] == FieldByte(body, k);
      } else {
        assert fn[8 + (k - 8)] == FieldByte(ext, k - 8);
      }
    }
  }

  /** What the fields hold after the loop consumed name[..si], lossy or not. */
  ghost predicate Squeezing(cp: CodePage, name: seq<u16>, fn: seq<byte>, si: nat, i: nat, ni: nat) {
    var di := AfterDot(name);
    && si <= |name| && |fn| == 11
    && if ni == 8 then
      && (di == 0 || si < di) && i == |Squeezed(cp, name[..si])| <= 8
      && Field(fn, 0, 8, Squeezed(cp, name[..si])) && Field(fn, 8, 3, [])
    else
      && 0 < di <= si && i == 8 + |Squeezed(cp, name[di..si])| <= 11
      && Field(fn, 0, 8, Squeezed(cp, Body(name))) && Field(fn, 8, 3, Squeezed(cp, name[di..si]))
  }

  lemma SqueezeStart(cp: CodePage, name: seq<u16>, fn: seq<byte>, si: nat)
    requires |fn| == 11 && (forall k :: 0 <= k < 11 ==> fn[k] == SPACE)
    requires si < |name| && forall k :: 0 <= k < si ==> name[k] == SPACE as int
    requires name[si] != SPACE as int
    ensures Squeezing(cp, name, fn, si, 0, 8)
  {
    hide Convert, AfterDot;
    SqueezedSpaces(cp, name[..si]);
    assert AfterDot(name) > 0 ==> name[AfterDot(name) - 1] == DOT as int;
  }

  lemma {:induction false} SqueezedSpaces(cp: CodePage, s: seq<u16>)
    requires forall k :: 0 <= k < |s| ==> s[k] == SPACE as int
    ensures Squeezed(cp, s) == []
  {
    hide Convert;
    if |s| > 0 { SqueezedSpaces(cp, s[..|s| - 1]); }
  }

  /** A space, or a dot that is not the last one, is left out. */
  lemma SqueezeSkip(cp: CodePage, name: seq<u16>, fn: seq<byte>, si: nat, i: nat, ni: nat)
    requires Squeezing(cp, name, fn, si, i, ni) && si < |name|
    requires name[si] == SPACE as int || (name[si] == DOT as int && si + 1 != AfterDot(name))
    ensures Squeezing(cp, name, fn, si + 1, i, ni)
  {
    hide Convert, AfterDot, Squeezed, Field;
    var di := AfterDot(name);
    if ni == 8 {
      assert name[..si + 1] == name[..si] + [name[si]];
      SqueezedNext(cp, name[..si], name[si]);
      assert di > 0 ==> name[di - 1] == DOT as int;
    } else {
      SliceNext(name, di, si);
      SqueezedNext(cp, name[di..si], name[si]);
    }
  }

  lemma SqueezeStore(cp: CodePage, name: seq<u16>, fn: seq<byte>, si: nat, i: nat, ni: nat)
    requires Squeezing(cp, name, fn, si, i, ni) && si < |name| && i < ni <= 11
    requires name[si] != SPACE as int && name[si] != DOT as int
    ensures Squeezing(cp, name, fn[i := Convert(cp, name[si]).0], si + 1, i + 1, ni)
  {
    hide Convert, AfterDot, Squeezed;
    var di := AfterDot(name);
    if ni == 8 {
      assert name[..si + 1] == name[..si] + [name[si]];
      SqueezedNext(cp, name[..si], name[si]);
      FieldNext(fn, 0, 8, Squeezed(cp, name[..si]), Convert(cp, name[si]).0);
      assert di > 0 ==> name[di - 1] == DOT as int;
    } else {
      SliceNext(name, di, si);
      SqueezedNext(cp, name[di..si], name[si]);
      FieldNext(fn, 8, 3, Squeezed(cp, name[di..si]), Convert(cp, name[si]).0);
    }
  }

  lemma FieldNext(fn: seq<byte>, a: nat, n: nat, s: seq<byte>, b: byte)
    requires |fn| == 11 && a + n <= 11 && Field(fn, a, n, s) && |s| < n
    ensures Field(fn[a + |s| := b], a, n, s + [b])
  {
    forall k | 0 <= k < n ensures fn[a + |s| := b][a + k] == FieldByte(s + [b], k) {
      assert fn[a + k] == FieldByte(s, k);
    }
  }

  /** At the last dot, or where the body overflows, the extension begins. */
  lemma SqueezeEnter(cp: CodePage, name: seq<u16>, fn: seq<byte>, si: nat, i: nat)
    requires Squeezing(cp, name, fn, si, i, 8) && si < AfterDot(name) && (i == 8 || si + 1 == AfterDot(name))
    ensures Squeezing(cp, name, fn, AfterDot(name), 8, 11)
  {
    hide Convert, AfterDot;
    var di := AfterDot(name);
    assert name[di..di] == [];
    assert Body(name)[..si] == name[..si];
    SqueezedPrefix(cp, Body(name), si);
    if i < 8 { assert Body(name) == name[..si]; }
    FieldLonger(fn, 0, 8, Squeezed(cp, name[..si]), Squeezed(cp, Body(name)));
  }

  /** At the end of the name, or where its last field overflows. */
  lemma SqueezeDone(cp: CodePage, name: seq<u16>, fn: seq<byte>, si: nat, i: nat, ni: nat)
    requires Squeezing(cp, name, fn, si, i, ni) && (ni == 8 || ni == 11)
    requires si == |name| || (i == ni && (ni == 11 || AfterDot(name) == 0))
    ensures forall k :: 0 <= k < 11 ==> fn[k] == SqueezedByte(cp, name, k)
  {
    hide Convert, AfterDot, Squeezed;
    var di := AfterDot(name);
    assert Squeezed(cp, []) == [] by { SqueezedSpaces(cp, []); }
    if ni == 8 {
      assert Body(name) == name && Ext(name) == [];
      SqueezedPrefix(cp, name, si);
      assert si == |name| ==> name[..si] == name;
      FieldLonger(fn, 0, 8, Squeezed(cp, name[..si]), Squeezed(cp, name));
    } else {
      assert Ext(name)[..si - di] == name[di..si];
      SqueezedPrefix(cp, Ext(name), si - di);
      assert si == |name| ==> name[di..si] == Ext(name);
      FieldLonger(fn, 8, 3, Squeezed(cp, name[di..si]), Squeezed(cp, Ext(name)));
    }
    FieldsShow(cp, name, fn);
  }

  /** The index behind the last dot, found from the end. */
  method FindDot(lfn: array<u16>, len: nat) returns (di: nat)
    requires len < lfn.Length
    ensures di == AfterDot(lfn[..len])
  {
    di := len;
    while di > 0 && lfn[di - 1] != DOT as int
      invariant di <= len && forall k :: di <= k < len ==> lfn[..len][k] != DOT as int
    {
      di := di - 1;
    }
    assert di > 0 ==> lfn[..len][di - 1] == DOT as int;
  }

  /** The character that goes into the short name, and whether it had to be replaced. */
  function Convert(cp: CodePage, w: u16): (r: (byte, bool))
    ensures Faithful(cp) && w != 0 && w != DOT as int ==> r.0 != 0 && r.0 != DOT
    ensures r.1 <==> !Fits(cp, w)
    ensures r.0 == if Fits(cp, w) then Short(cp, w) else '_' as byte
  {
    var wc := Converted(cp, w);
    if wc == 0 || LongOnly(wc) then (0x5F, true) else (ToUpper(wc), false)
  }

  lemma SqueezeBasics(cp: CodePage, name: seq<u16>, fn: seq<byte>, si: nat, i: nat, ni: nat)
    requires Squeezing(cp, name, fn, si, i, ni)
    ensures ni == 8 ==> i <= 8 && (AfterDot(name) == 0 || si < AfterDot(name))
    ensures ni == 11 ==> 8 <= i <= 11 && 0 < AfterDot(name) <= si
  {
  }

  /** The loop of create_name that fills the fields of the short name. */
  method FillFields(cp: CodePage, lfn: array<u16>, fn: array<byte>, lead: nat, len: nat, ghost name: seq<u16>)
    returns (f: Fill)
    requires Faithful(cp) && lfn.Length == MAX_LFN + 1 && fn.Length == 11
    requires lead < |name| == len <= MAX_LFN && lfn[..len] == name && lfn[len] == 0 && 0 !in name
    requires name[lead] != SPACE as int && forall k :: 0 <= k < lead ==> name[k] == SPACE as int
    modifies fn
    ensures Filling(cp, name, fn[..], f) && (f.loss || f.si == len)
    ensures forall k :: 0 <= k < 11 ==> fn[k] == SqueezedByte(cp, name, k)
  {
    hide Filling, FillingExact, Is83, Faithful, Converted, GoodAt, Fits, AfterDot, Short, Extended, CapsOf, Squeezing,
         SqueezedByte, Convert;
    var si := lead;
    var loss := si > 0 || lfn[0] == DOT as int;
    var long := loss;
    var di := FindDot(lfn, len);
    forall k | 0 <= k < 11 { fn[k] := SPACE; }
    var i: nat, ni: nat := 0, 8;
    var cur, body := Caps(false, false), Caps(false, false);
    StartFill(cp, name, fn[..], Fill(si, i, ni, loss, long, cur, body));
    SqueezeStart(cp, name, fn[..], si);
    while true
      invariant Filling(cp, name, fn[..], Fill(si, i, ni, loss, long, cur, body))
      invariant loss || name[0] != DOT as int
      invariant Squeezing(cp, name, fn[..], si, i, ni)
      decreases len - si
    {
      ghost var was := fn[..];
      f := Fill(si, i, ni, loss, long, cur, body);
      FillBasics(cp, name, was, f);
      var wc: u16 := lfn[si];
      SqueezeBasics(cp, name, was, si, i, ni);
      if wc == 0 {
        SqueezeDone(cp, name, was, si, i, ni);
        return;
      }
      assert si < len && wc == name[si];
      si := si + 1;
      if wc == SPACE as int || (wc == DOT as int && si != di) {
        BadPlace(cp, name, si - 1);
        NowLossy(cp, name, was, f, si);
        SqueezeSkip(cp, name, was, si - 1, i, ni);
        loss, long := true, true;
        continue;
      }
      if i >= ni || si == di {
        if !loss && i >= ni && (ni == 11 || si != di) { OverflowStep(cp, name, was, f); }
        if loss || (i >= ni && (ni == 11 || si != di)) { NowLossy(cp, name, was, f, f.si); }
        if ni == 11 {
          f := f.(loss := true, lfn := true);
          SqueezeDone(cp, name, was, si - 1, i, ni);
          return;
        }
        if si != di { loss, long := true, true; }
        if si > di {
          f := f.(loss := loss, lfn := long);
          SqueezeDone(cp, name, was, si - 1, i, ni);
          return;
        }
        SqueezeEnter(cp, name, was, si - 1, i);
        EnterExtension(cp, name, was, f.(loss := loss, lfn := long));
        body, cur, si, i, ni := cur, Caps(false, false), di, 8, 11;
        continue;
      }
      if wc >= 0x80 { long := true; }
      var c := Convert(cp, wc);
      if c.1 {
        BadPlace(cp, name, si - 1);
        StoreLossy(cp, name, was, f, c.0);
        loss, long := true, true;
      } else {
        GoodPlace(cp, name, si - 1);
        StoreStep(cp, name, was, f, c.0);
        cur := Seen(cur, Converted(cp, wc));
      }
      SqueezeStore(cp, name, was, si - 1, i, ni);
      fn[i] := c.0;
      assert fn[..] == was[i := c.0];
      i := i + 1;
    }
  }

  /** create_name from the long name on: the 8.3 form and its flags. */
  method MakeShort(cp: CodePage, lfn: array<u16>, fn: array<byte>, last: bool, len: nat, ghost name: seq<u16>)
    returns (flags: NameFlags)
    requires Faithful(cp) && lfn.Length == MAX_LFN + 1 && fn.Length == 11
    requires 0 < |name| == len <= MAX_LFN && lfn[..len] == name && lfn[len] == 0 && 0 !in name
    requires name[len - 1] != SPACE as int && name[len - 1] != DOT as int
    modifies fn
    ensures UsableShort(fn[..])
    ensures flags.last == last && !flags.dot
    ensures flags.loss <==> !Is83(cp, name)
    ensures flags.lfn <==> NeedsLong(cp, name)
    ensures flags.body == (!flags.lfn && HasLower(Body(name))) && flags.ext == (!flags.lfn && HasLower(Ext(name)))
    ensures fn[..] == SqueezedForm(cp, name)
    ensures !flags.loss ==> fn[..] == ShortForm(cp, name)
  {
    hide FillingExact, Is83, Faithful, NeedsLong, HasLower, HasUpper, ShortByte, Body, Ext, SqueezedByte;
    var lead: nat := 0;
    while lfn[lead] == SPACE as int
      invariant lead < len && forall k :: 0 <= k < lead ==> name[k] == SPACE as int
      decreases len - lead
    {
      lead := lead + 1;
      assert name[len - 1] != SPACE as int;
    }
    assert name[lead] != SPACE as int;
    var f := FillFields(cp, lfn, fn, lead, len, name);
    FillDone(cp, name, fn[..], f);
    if fn[0] == DDEM { fn[0] := RDDEM; }
    var (body, ext) := EndCaps(f);
    var long := f.lfn || Both(body) || Both(ext);
    flags := NameFlags(f.loss, long, last, !long && body.lo, !long && ext.lo, false);
  }

  // ---------- create_name ----------

  /** The path is a C string: behind its last byte there is a terminator. */
  function At(path: seq<byte>, p: nat): byte {
    if p < |path| then path[p] else 0
  }

  predicate NameByte(b: byte) {
    b >= 0x20 && !IsSeparator(b)
  }

  /** Where the segment starting at `p` ends. */
  function SegmentEnd(path: seq<byte>, p: nat): (q: nat)
    requires p <= |path|
    ensures p <= q <= |path| && !NameByte(At(path, q))
    ensures forall k :: p <= k < q ==> NameByte(path[k])
    decreases |path| - p
  {
    if p < |path| && NameByte(path[p]) then SegmentEnd(path, p + 1) else p
  }

  function Segment(path: seq<byte>, p: nat): seq<byte>
    requires p <= |path|
  {
    path[p..SegmentEnd(path, p)]
  }

  /** Where the separators starting at `p` end. */
  function SkipSeparators(path: seq<byte>, p: nat): (q: nat)
    ensures p <= q
    decreases |path| - p
  {
    if p < |path| && IsSeparator(path[p]) then SkipSeparators(path, p + 1) else p
  }

  /** Nothing but separators follows. */
  predicate LastSegment(path: seq<byte>, p: nat)
    requires p <= |path|
  {
    var q := SegmentEnd(path, p);
    At(path, q) < 0x20 || At(path, SkipSeparators(path, q)) < 0x20
  }

  function Decode(cp: CodePage, seg: seq<byte>): (r: seq<u16>)
    ensures |r| == |seg|
  {
    seq<u16>(|seg|, k requires 0 <= k < |seg| => cp.toUni(seg[k]))
  }

  /** Length without trailing spaces and dots. */
  function TrimLength(s: seq<int>): (n: nat)
    ensures n <= |s| && (n > 0 ==> s[n - 1] != SPACE as int && s[n - 1] != DOT as int)
    ensures forall k :: n <= k < |s| ==> s[k] == SPACE as int || s[k] == DOT as int
  {
    if |s| == 0 then 0
    else if s[|s| - 1] == SPACE as int || s[|s| - 1] == DOT as int then TrimLength(s[..|s| - 1])
    else |s|
  }

  predicate DotName(seg: seq<byte>) {
    seg == [DOT] || seg == [DOT, DOT]
  }

  predicate Allowed(cp: CodePage, b: byte) {
    cp.toUni(b) != 0 && !Illegal(cp.toUni(b))
  }

  /** Of the printable ASCII characters these are not allowed in a name: `"`, `*`, `:`, `<`, `>`, `?`, `|`. */
  lemma AllowedAscii(cp: CodePage, b: byte)
    requires Faithful(cp) && 0x20 <= b < 0x80
    ensures Allowed(cp, b) <==> b !in {0x22, 0x2A, 0x3A, 0x3C, 0x3E, 0x3F, 0x7C, 0x7F}
  {
  }

  /** And these only in a long one: `+`, `,`, `;`, `=`, `[`, `]`. */
  lemma FittingAscii(cp: CodePage, w: u16)
    requires 0 < w < 0x80
    ensures Fits(cp, w) <==> w !in {0x2B, 0x2C, 0x3B, 0x3D, 0x5B, 0x5D}
    ensures Short(cp, w) as int == if 0x61 <= w <= 0x7A then w - 0x20 else w
  {
  }

  /** The segments create_name accepts. */
  predicate Acceptable(cp: CodePage, seg: seq<byte>) {
    && |seg| <= MAX_LFN
    && (forall k :: 0 <= k < |seg| ==> Allowed(cp, seg[k]))
    && (DotName(seg) || TrimLength(seg) > 0)
  }

  /** The name a segment denotes: without trailing spaces and dots. */
  function NameOf(seg: seq<byte>): seq<byte> {
    seg[..TrimLength(seg)]
  }

  /** The long name buffer holds `name`, terminated. */
  predicate HoldsName(lfn: seq<u16>, name: seq<u16>) {
    |name| < |lfn| && lfn[..|name|] == name && lfn[|name|] == 0 && 0 !in name
  }

  lemma DecodedByte(cp: CodePage, b: byte)
    requires Faithful(cp) && b != 0 && cp.toUni(b) != 0
    ensures cp.toUni(b) < 0x20 <==> b < 0x20
    ensures IsSeparator(cp.toUni(b)) <==> IsSeparator(b)
    ensures cp.toUni(b) == SPACE as int <==> b == SPACE
    ensures cp.toUni(b) == DOT as int <==> b == DOT
    ensures cp.toOem(cp.toUni(b)) == b && !IsSurrogate(cp.toUni(b)) && cp.toUni(b) != 0xFFFF
    ensures if b < 0x80 then cp.toUni(b) == b as int else cp.toUni(b) >= 0x80
  {
  }

  /** Trimming before or after decoding is the same. */
  lemma TrimDecoded(cp: CodePage, seg: seq<byte>)
    requires Faithful(cp) && forall k :: 0 <= k < |seg| ==> NameByte(seg[k]) && cp.toUni(seg[k]) != 0
    ensures TrimLength(Decode(cp, seg)) == TrimLength(seg)
    ensures Decode(cp, seg)[..TrimLength(seg)] == Decode(cp, NameOf(seg))
    ensures 0 !in Decode(cp, seg)
  {
    hide Faithful, TrimLength;
    var d, n := Decode(cp, seg), TrimLength(seg);
    forall k | 0 <= k < |seg|
      ensures d[k] != 0 && ((d[k] == SPACE as int || d[k] == DOT as int) <==> (seg[k] == SPACE || seg[k] == DOT))
    {
      DecodedByte(cp, seg[k]);
    }
    TrimUnique(d, n);
    assert d[..n] == Decode(cp, seg[..n]);
  }

  lemma TrimUnique(s: seq<int>, n: nat)
    requires n <= |s| && (n > 0 ==> s[n - 1] != SPACE as int && s[n - 1] != DOT as int)
    requires forall k :: n <= k < |s| ==> s[k] == SPACE as int || s[k] == DOT as int
    ensures TrimLength(s) == n
  {
  }

  /** The first loop of create_name: decode one segment into the long name buffer. */
  method PickSegment(cp: CodePage, lfn: array<u16>, path: seq<byte>, p0: nat) returns (ok: bool, p: nat, di: nat)
    requires Faithful(cp) && lfn.Length == MAX_LFN + 1 && p0 <= |path|
    modifies lfn
    ensures ok <==> |Segment(path, p0)| <= MAX_LFN
                    && forall k :: 0 <= k < |Segment(path, p0)| ==> Allowed(cp, Segment(path, p0)[k])
    ensures ok ==> p == SegmentEnd(path, p0) + 1 && di == |Segment(path, p0)| <= MAX_LFN
    ensures ok ==> lfn[..di] == Decode(cp, Segment(path, p0))
  {
    hide Faithful, SegmentEnd;
    p, di := p0, 0;
    ghost var q := SegmentEnd(path, p0);
    ghost var seg := Segment(path, p0);
    while true
      invariant p0 <= p <= q && di == p - p0 <= MAX_LFN
      invariant forall k :: 0 <= k < di ==> Allowed(cp, seg[k]) && lfn[k] == cp.toUni(seg[k])
      decreases q - p
    {
      var b := At(path, p);
      var wc: u16 := b;
      assert p < q ==> b == seg[di] && NameByte(b);
      if b != 0 {
        wc := cp.toUni(b);
        if wc == 0 {
          if p == q { AsciiDecoded(cp, b); }
          return false, p0, di;
        }
        DecodedByte(cp, b);
      }
      p := p + 1;
      if wc < 0x20 || IsSeparator(wc) { break; }
      if wc < 0x80 && Illegal(wc) { return false, p0, di; }
      if di >= MAX_LFN { return false, p0, di; }
      lfn[di] := wc;
      di := di + 1;
    }
    ok := true;
  }

  lemma AsciiDecoded(cp: CodePage, b: byte)
    requires Faithful(cp) && b < 0x80
    ensures cp.toUni(b) == b as int
  {
  }

  /** create_name: takes the segment at `p0` apart; `p` is where the next one starts. */
  method CreateName(cp: CodePage, lfn: array<u16>, fn: array<byte>, path: seq<byte>, p0: nat)
    returns (ok: bool, p: nat, flags: NameFlags)
    requires Faithful(cp) && lfn.Length == MAX_LFN + 1 && fn.Length == 11 && p0 <= |path|
    modifies lfn, fn
    // FR_INVALID_NAME exactly for the segments that are none
    ensures ok <==> Acceptable(cp, Segment(path, p0))
    ensures ok ==> flags.last == LastSegment(path, p0) && flags.dot == DotName(Segment(path, p0))
    ensures ok && !flags.last ==> p == SkipSeparators(path, SegmentEnd(path, p0)) && At(path, p) >= 0x20
    ensures ok && flags.dot ==>
      && fn[..] == seq(11, k => if k < |Segment(path, p0)| then DOT else SPACE)
      && HoldsName(lfn[..], Decode(cp, Segment(path, p0)))
    ensures ok && !flags.dot ==>
      var name := Decode(cp, NameOf(Segment(path, p0)));
      && HoldsName(lfn[..], name) && UsableShort(fn[..])
      && (flags.loss <==> !Is83(cp, name)) && (flags.lfn <==> NeedsLong(cp, name))
      && flags.body == (!flags.lfn && HasLower(Body(name))) && flags.ext == (!flags.lfn && HasLower(Ext(name)))
      && fn[..] == SqueezedForm(cp, name) && (!flags.loss ==> fn[..] == ShortForm(cp, name))
  {
    hide Faithful, SegmentEnd, SkipSeparators, LastSegment, TrimLength, Is83, NeedsLong, HasLower, Body, Ext,
         UsableShort, ShortForm, SqueezedForm, Allowed, IsSeparator, NameByte;
    ghost var seg := Segment(path, p0);
    flags := NameFlags(false, false, false, false, false, false);
    var di: nat;
    ok, p, di := PickSegment(cp, lfn, path, p0);
    if !ok { return; }
    var last: bool;
    p, last := NextSegment(path, p0, p);
    ghost var name := Decode(cp, seg);
    AllowedDecodes(cp, seg);
    DotDecoded(cp, seg);
    assert forall k :: 0 <= k < |seg| ==> lfn[..di][k] == name[k];
    if (di == 1 && lfn[di - 1] == DOT as int) || (di == 2 && lfn[di - 1] == DOT as int && lfn[di - 2] == DOT as int) {
      lfn[di] := 0;
      forall k | 0 <= k < 11 { fn[k] := if k < di then DOT else SPACE; }
      flags := NameFlags(false, false, last, false, false, true);
      TrimDecoded(cp, seg);
      return;
    }
    TrimDecoded(cp, seg);
    di := TrimBuffer(lfn, di, name);
    lfn[di] := 0;
    if di == 0 { return false, p, flags; }
    flags := MakeShort(cp, lfn, fn, last, di, name[..di]);
  }

  /** Snips off trailing spaces and dots. */
  method TrimBuffer(lfn: array<u16>, len: nat, ghost name: seq<u16>) returns (di: nat)
    requires len <= lfn.Length && lfn[..len] == name
    ensures di == TrimLength(name) && lfn[..di] == name[..di]
  {
    di := len;
    assert forall k :: 0 <= k < len ==> lfn[..len][k] == name[k];
    while di > 0 && (lfn[di - 1] == SPACE as int || lfn[di - 1] == DOT as int)
      invariant di <= len && forall k :: di <= k < len ==> name[k] == SPACE as int || name[k] == DOT as int
    {
      di := di - 1;
    }
    TrimUnique(name, di);
  }

  /** Behind the segment: is it the last one, and where does the next one start? */
  method NextSegment(path: seq<byte>, ghost p0: nat, p1: nat) returns (p: nat, last: bool)
    requires p0 <= |path| && p1 == SegmentEnd(path, p0) + 1
    ensures last == LastSegment(path, p0)
    ensures !last ==> p == SkipSeparators(path, SegmentEnd(path, p0)) && At(path, p) >= 0x20
  {
    hide SegmentEnd, SkipSeparators;
    p := p1;
    last := At(path, p - 1) < 0x20;
    if !last {
      p := SkipRun(path, p);
      SkipNext(path, SegmentEnd(path, p0));
      last := At(path, p) < 0x20;
    }
  }

  /** Skips duplicated separators. */
  method SkipRun(path: seq<byte>, p0: nat) returns (p: nat)
    ensures p == SkipSeparators(path, p0) && !IsSeparator(At(path, p))
  {
    hide SkipSeparators;
    p := p0;
    while IsSeparator(At(path, p))
      invariant p >= p0 && SkipSeparators(path, p) == SkipSeparators(path, p0)
      decreases |path| - p
    {
      SkipNext(path, p);
      p := p + 1;
    }
    SkipNext(path, p);
  }

  lemma SkipNext(path: seq<byte>, p: nat)
    ensures SkipSeparators(path, p) == if IsSeparator(At(path, p)) then SkipSeparators(path, p + 1) else p
    ensures IsSeparator(At(path, p)) ==> p < |path|
  {
  }

  lemma AllowedDecodes(cp: CodePage, seg: seq<byte>)
    requires forall k :: 0 <= k < |seg| ==> Allowed(cp, seg[k])
    ensures forall k :: 0 <= k < |seg| ==> cp.toUni(seg[k]) != 0
  {
  }

  lemma DotDecoded(cp: CodePage, seg: seq<byte>)
    requires Faithful(cp) && forall k :: 0 <= k < |seg| ==> NameByte(seg[k]) && cp.toUni(seg[k]) != 0
    ensures var d := Decode(cp, seg);
      DotName(seg) <==> ((|d| == 1 && d[0] == DOT as int) || (|d| == 2 && d[0] == DOT as int && d[1] == DOT as int))
  {
    forall k | 0 <= k < |seg|
      ensures Decode(cp, seg)[k] == DOT as int <==> seg[k] == DOT
    {
      DecodedByte(cp, seg[k]);
    }
  }
}
