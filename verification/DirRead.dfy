/** dir_read on FAT12/16/32, and the round trip of names: created, registered, read back. */
module DirRead {
  import opened Bytes
  import opened ByteBits
  import opened Volume
  import opened Chains
  import opened Names
  import opened NameEntries
  import opened DirTable
  import opened DirStep
  import opened DirSlots
  import opened DirWrite

  /** Entries without valid data: deleted, a dot entry, or a volume label. */
  predicate Skipped(s: Slot) {
    s[0] == DDEM || s[0] == DOT || Attr(s) == 0x08 || Attr(s) == 0x28
  }

  predicate IsLong(s: Slot) {
    Attr(s) == AM_LFN
  }

  /** The short entry of a file or directory. */
  predicate FileEntry(s: Slot) {
    s[0] != 0 && !Skipped(s) && !IsLong(s)
  }

  /** In bits: of the attribute's lower six, AM_LFN is none, and without the archive bit it is not AM_VOL. */
  lemma FileEntryBits(s: Slot, x: bv8)
    requires Value(x) == s[11]
    ensures FileEntry(s) <==> s[0] !in {0, 0xE5, 0x2E} && x & 0x3F != 0x0F && x & 0x3F & !0x20 != 0x08
  {
    LowSixBits(x);
  }

  lemma LowSixBits(x: bv8)
    ensures Value(x & 0x3F) == Value(x) % 0x40
  {
  }

  const NO_LFN: u32 := 0xFFFF_FFFF

  /** What dir_read remembers between slots: order and checksum expected next, where the sequence started. */
  datatype Track = Track(ord: byte, sum: byte, blk: u32)

  /** Is the long-name entry taken into the sequence? */
  predicate Taken(s: Slot, tr: Track) {
    if LastPart(s[0]) then Pickable(s)
    else s[0] == tr.ord && s[13] == tr.sum && Pickable(s)
  }

  function Order(s: Slot): nat {
    if LastPart(s[0]) then s[0] as int - 0x40 else s[0]
  }

  lemma OrderRange(s: Slot)
    ensures LastPart(s[0]) ==> s[0] >= 0x40
    ensures Pickable(s) ==> 1 <= Order(s) <= 20 && PartOffset(s[0]) == (Order(s) - 1) * 13
  {
  }

  /** One slot that is no file entry. */
  function NextTrack(s: Slot, tr: Track, k: nat): Track
    requires 32 * k < MAX_DIR
  {
    OrderRange(s);
    if Skipped(s) then tr.(ord := 0xFF)
    else
      var ord: byte := if Taken(s, tr) then Order(s) - 1 else 0xFF;
      if LastPart(s[0]) then Track(ord, s[13], 32 * k) else tr.(ord := ord)
  }

  /** What the entry adds to the long name buffer. */
  ghost predicate Buffered(s: Slot, tr: Track, x: seq<u16>, y: seq<u16>)
    requires |x| == |y| == 256
  {
    !Skipped(s) && Taken(s, tr) ==> PickedInto(s, x, y)
  }

  datatype Look = End | Found | Other

  /** One round of dir_read: the slot under the cursor. */
  method ReadSlot(fs: Fatfs, dp: Dir, lfn: array<u16>, ord: byte, sum: byte, ghost k: nat)
    returns (res: FResult, look: Look, ord1: byte, sum1: byte)
    requires Opened(fs, dp) && OnSlot(fs.g, dp, k) && lfn.Length == 256
    modifies fs`disk, fs`wflag, fs`medium, fs`winsect, fs.win, dp`blkOfs, lfn
    ensures Opened(fs, dp) && Table(fs, dp) == old(Table(fs, dp)) && (res == FrOk || res == FrDiskErr)
    ensures res == FrOk ==> Loaded(fs, dp, k) && k < |Table(fs, dp)| && 32 * k < MAX_DIR
    ensures res == FrOk ==> var s := Table(fs, dp)[k];
      && (look == End <==> s[0] == 0) && (look == Found <==> FileEntry(s))
      && (look == Other ==> Track(ord1, sum1, dp.blkOfs) == NextTrack(s, Track(ord, sum, old(dp.blkOfs)), k)
                            && Buffered(s, Track(ord, sum, old(dp.blkOfs)), old(lfn[..]), lfn[..]))
      && (look == Found ==> lfn[..] == old(lfn[..])
                            && dp.blkOfs == if ord == 0 && sum == Checksum(s[..11]) then old(dp.blkOfs) else NO_LFN)
    ensures Onward(old(fs.medium), fs.medium)
    ensures res == FrDiskErr ==> Faulted(old(fs.medium), fs.medium)
  {
    hide Fatfs.Valid, WinState.Logical, Slots, Geometry.WellFormed, Opened, OnSlot, Loaded, Table, Pickable,
         PickedInto, Checksum;
    look, ord1, sum1 := Other, ord, sum;
    OnSlotRange(fs, dp, k);
    res := LoadSlot(fs, dp, k);
    if res != FrOk { return; }
    LoadedSlot(fs, dp, k);
    var s := fs.win[dp.dptr % 512..dp.dptr % 512 + 32];
    var b := s[0];
    var attr := (s[11] as int) % 0x40;
    if b == 0 { look := End; return; }
    if b == DDEM || b == DOT || attr == 0x08 || attr == 0x28 {
      ord1 := 0xFF;
    } else if attr == AM_LFN as int {
      OrderRange(s);
      if LastPart(b) {
        sum1 := s[13];
        b := (b as int) - 0x40;
        ord1 := b;
        dp.blkOfs := dp.dptr;
      }
      var ok := b == ord1 && sum1 == s[13];
      if ok { ok := PickLfn(lfn, s); }
      ord1 := if ok then (ord1 as int) - 1 else 0xFF;
    } else {
      look := Found;
      var c := SumSfn(s);
      if ord != 0 || sum != c { dp.blkOfs := NO_LFN; }
    }
  }

  // ---------- sequences of long-name entries ----------

  /** The tracking after the slots k0..k, none of them a file entry or the end. */
  function TrackAt(t: seq<Slot>, k0: nat, k: nat, blk0: u32): (tr: Track)
    requires k0 <= k <= |t| && 32 * k <= MAX_DIR
    decreases k - k0
  {
    if k == k0 then Track(0xFF, 0xFF, blk0) else NextTrack(t[k - 1], TrackAt(t, k0, k - 1, blk0), k - 1)
  }

  /** Slots s..k are long-name entries in falling order down to `ord + 1`, the first one marked as the last part of
      the name, all with the checksum `sum`. */
  ghost predicate Run(t: seq<Slot>, s: nat, k: nat, ord: nat, sum: byte) {
    && s < k <= |t| && LastPart(t[s][0])
    && forall j :: s <= j < k ==> LongEntry(t[j], ord + (k - j), sum) && (j > s ==> !LastPart(t[j][0]))
  }

  predicate LongEntry(s: Slot, ord: nat, sum: byte) {
    !Skipped(s) && s[13] == sum && Pickable(s) && Order(s) == ord
  }

  /** The buffer holds the part of the name the entry carries. */
  ghost predicate Holds(s: Slot, lfn: seq<u16>) {
    var i, z := PartOffset(s[0]), TerminatorAt(Chars(s));
    && |lfn| == 256 && Pickable(s)
    && (forall c :: i <= c < i + z ==> lfn[c] == Chars(s)[c - i])
    && (z < 13 || LastPart(s[0]) ==> lfn[i + z] == 0)
  }

  /** What dir_read knows: an unbroken sequence so far, and its parts of the name in the buffer. */
  ghost predicate Tracking(t: seq<Slot>, k0: nat, k: nat, tr: Track, lfn: seq<u16>) {
    tr.ord != 0xFF ==>
      && tr.blk % 32 == 0 && k0 <= tr.blk / 32 && Run(t, tr.blk / 32, k, tr.ord, tr.sum)
      && forall j :: tr.blk / 32 <= j < k ==> Holds(t[j], lfn)
  }

  lemma TrackStep(t: seq<Slot>, k0: nat, k: nat, tr: Track, x: seq<u16>, y: seq<u16>)
    requires k0 <= k < |t| && 32 * k < MAX_DIR && |x| == |y| == 256 && Tracking(t, k0, k, tr, x)
    requires Skipped(t[k]) || (IsLong(t[k]) && Buffered(t[k], tr, x, y))
    ensures Tracking(t, k0, k + 1, NextTrack(t[k], tr, k), y)
  {
    hide Pickable, PickedInto, Holds;
    var s := t[k];
    if !Skipped(s) && Taken(s, tr) {
      OrderRange(s);
      PickedHolds(s, x, y);
      if !LastPart(s[0]) {
        forall j | tr.blk / 32 <= j < k
          ensures Holds(t[j], y)
        {
          OtherHolds(t[j], s, x, y);
        }
      }
    }
  }

  lemma PickedHolds(s: Slot, x: seq<u16>, y: seq<u16>)
    requires |x| == |y| == 256 && Pickable(s) && PickedInto(s, x, y)
    ensures Holds(s, y)
  {
  }

  /** A later, lower part does not touch what a higher one stored. */
  lemma OtherHolds(s: Slot, low: Slot, x: seq<u16>, y: seq<u16>)
    requires |x| == |y| == 256 && Holds(s, x) && Pickable(low) && PickedInto(low, x, y)
    requires Order(low) < Order(s) && !LastPart(low[0])
    ensures Holds(s, y)
  {
    hide Chars, TerminatorAt, Filled;
    OrderRange(s);
    OrderRange(low);
  }

  /** The name in the buffer. */
  function BufferName(lfn: seq<u16>): seq<u16> {
    lfn[..TerminatorAt(lfn)]
  }

  /** A sequence that reached its first part leaves a terminated name. */
  lemma RunTerminated(t: seq<Slot>, k0: nat, k: nat, tr: Track, lfn: seq<u16>)
    requires Tracking(t, k0, k, tr, lfn) && tr.ord != 0xFF
    ensures |lfn| == 256 && HoldsName(lfn, BufferName(lfn))
  {
    hide Chars;
    var s := tr.blk / 32;
    assert Holds(t[s], lfn);
    var i, z := PartOffset(t[s][0]), TerminatorAt(Chars(t[s]));
    assert lfn[i + z] == 0;
    FirstZero(lfn, i + z);
  }

  lemma FirstZero(lfn: seq<u16>, p: nat)
    requires p < |lfn| && lfn[p] == 0
    ensures TerminatorAt(lfn) <= p && HoldsName(lfn, BufferName(lfn))
  {
  }

  // ---------- dir_read ----------

  /** The slots lo..hi are in use or deleted, and none is a file entry. */
  ghost predicate Passed(t: seq<Slot>, lo: nat, hi: nat) {
    hi <= |t| && forall j :: lo <= j < hi ==> t[j][0] != 0 && !FileEntry(t[j])
  }

  /** No file entry from slot `lo` up to the end mark. */
  ghost predicate NoMore(t: seq<Slot>, lo: nat) {
    forall k :: lo <= k < MAX_DIR / 32 && k < |t| && Passed(t, lo, k) ==> !FileEntry(t[k])
  }

  lemma PassedOver(t: seq<Slot>, lo: nat, k: nat)
    requires Passed(t, lo, k) && lo <= k && (k >= |t| || 32 * k >= MAX_DIR || t[k][0] == 0)
    ensures NoMore(t, lo)
  {
  }

  lemma PassedNext(t: seq<Slot>, lo: nat, k: nat)
    requires Passed(t, lo, k) && k < |t| && t[k][0] != 0 && !FileEntry(t[k])
    ensures Passed(t, lo, k + 1)
  {
  }

  /** The state of dir_read before it looks at slot `k`. */
  ghost predicate Reading(t: seq<Slot>, k0: nat, k: nat, blk0: u32, tr: Track, lfn: seq<u16>) {
    && k0 <= k <= |t| && 32 * k <= MAX_DIR && Passed(t, k0, k)
    && tr == TrackAt(t, k0, k, blk0) && Tracking(t, k0, k, tr, lfn)
  }

  lemma ReadingNext(t: seq<Slot>, k0: nat, k: nat, blk0: u32, tr: Track, x: seq<u16>, y: seq<u16>)
    requires Reading(t, k0, k, blk0, tr, x) && k < |t| && 32 * k < MAX_DIR && |x| == |y| == 256
    requires t[k][0] != 0 && !FileEntry(t[k]) && Buffered(t[k], tr, x, y)
    ensures Reading(t, k0, k + 1, blk0, NextTrack(t[k], tr, k), y)
  {
    hide Tracking, NextTrack, Buffered, Passed;
    TrackStep(t, k0, k, tr, x, y);
    TrackNext(t, k0, k, blk0);
    PassedNext(t, k0, k);
  }

  /** One round of dir_read. */
  method ReadStep(fs: Fatfs, dp: Dir, lfn: array<u16>, ord: byte, sum: byte, ghost k0: nat, ghost k: nat,
                  ghost blk0: u32)
    returns (go: bool, res: FResult, ord1: byte, sum1: byte)
    requires Opened(fs, dp) && OnSlot(fs.g, dp, k) && lfn.Length == 256
    requires Reading(Table(fs, dp), k0, k, blk0, Track(ord, sum, dp.blkOfs), lfn[..])
    modifies fs, fs.win, dp`ch, dp`sect, dp`clust, dp`dptr, dp`blkOfs, lfn
    ensures Opened(fs, dp) && dp.ch == old(dp.ch) && Table(fs, dp) == old(Table(fs, dp))
    ensures res == FrOk || res == FrNoFile || res == FrDiskErr
    ensures go ==>
      OnSlot(fs.g, dp, k + 1) && Reading(Table(fs, dp), k0, k + 1, blk0, Track(ord1, sum1, dp.blkOfs), lfn[..])
    ensures !go && res == FrOk ==>
      Loaded(fs, dp, k) && k < |Table(fs, dp)| && 32 * k < MAX_DIR && FileEntry(Table(fs, dp)[k])
    ensures !go && res == FrOk ==>
      && lfn[..] == old(lfn[..])
      && dp.blkOfs == if ord == 0 && sum == Checksum(Table(fs, dp)[k][..11]) then old(dp.blkOfs) else NO_LFN
    ensures !go && res == FrNoFile ==> NoMore(Table(fs, dp), k0)
    ensures SameFat(fs.fat, fs.log, fs.freeClst, old(fs.fat), old(fs.log), old(fs.freeClst))
    ensures Onward(old(fs.medium), fs.medium)
    ensures res == FrDiskErr ==> Faulted(old(fs.medium), fs.medium)
  {
    hide Fatfs.Valid, WinState.Logical, Slots, Geometry.WellFormed, Opened, OnSlot, Loaded, Table, Checksum,
         Tracking, NextTrack, Buffered, TrackAt, FileEntry, Passed, NoMore, Reading, Kept, CrashSafe, OnlyTable,
         CountKnown, Full;
    OpenedBasics(fs, dp);
    OnSlotRange(fs, dp, k);
    ghost var t, tr, x := Table(fs, dp), Track(ord, sum, dp.blkOfs), lfn[..];
    ReadingPassed(t, k0, k, blk0, tr, x);
    go := false;
    var look;
    res, look, ord1, sum1 := ReadSlot(fs, dp, lfn, ord, sum, k);
    if res != FrOk || look == Found { return; }
    if look == End {
      PassedOver(t, k0, k);
      res := FrNoFile;
      return;
    }
    ReadingNext(t, k0, k, blk0, tr, x, lfn[..]);
    ReadingPassed(t, k0, k + 1, blk0, Track(ord1, sum1, dp.blkOfs), lfn[..]);
    res := NextSlot(fs, dp, k);
    if res == FrNoFile { PassedOver(t, k0, k + 1); }
    go := res == FrOk;
  }

  lemma ReadingPassed(t: seq<Slot>, k0: nat, k: nat, blk0: u32, tr: Track, lfn: seq<u16>)
    requires Reading(t, k0, k, blk0, tr, lfn)
    ensures k0 <= k <= |t| && Passed(t, k0, k) && 32 * k <= MAX_DIR
  {
  }

  /** dir_read for files and directories: on FR_OK the cursor is on the next file entry. `blkOfs` is NO_LFN unless an
      unbroken sequence of long-name entries with the right checksum leads up to it; then the buffer holds their
      name. */
  method DirReadFile(fs: Fatfs, dp: Dir, lfn: array<u16>, ghost k0: nat) returns (res: FResult, ghost k: nat)
    requires Opened(fs, dp) && (dp.sect != 0 ==> OnSlot(fs.g, dp, k0)) && lfn.Length == 256
    modifies fs, fs.win, dp`ch, dp`sect, dp`clust, dp`dptr, dp`blkOfs, lfn
    ensures Opened(fs, dp) && dp.ch == old(dp.ch) && Table(fs, dp) == old(Table(fs, dp))
    ensures res == FrOk || res == FrNoFile || res == FrDiskErr
    ensures res != FrOk ==> dp.sect == 0
    ensures old(dp.sect) == 0 ==> res == FrNoFile
    ensures res == FrOk ==> k0 <= k < |Table(fs, dp)| && 32 * k < MAX_DIR && Loaded(fs, dp, k)
    ensures res == FrOk ==> FileEntry(Table(fs, dp)[k]) && Passed(Table(fs, dp), k0, k)
    ensures res == FrOk ==>
      var tr := TrackAt(Table(fs, dp), k0, k, old(dp.blkOfs));
      && Tracking(Table(fs, dp), k0, k, tr, lfn[..])
      && dp.blkOfs == if tr.ord == 0 && tr.sum == Checksum(Table(fs, dp)[k][..11]) then tr.blk else NO_LFN
    ensures res == FrNoFile && old(dp.sect) != 0 ==> NoMore(Table(fs, dp), k0)
    ensures SameFat(fs.fat, fs.log, fs.freeClst, old(fs.fat), old(fs.log), old(fs.freeClst))
    ensures Onward(old(fs.medium), fs.medium)
    ensures res == FrDiskErr ==> Faulted(old(fs.medium), fs.medium)
  {
    hide Fatfs.Valid, WinState.Logical, Slots, Geometry.WellFormed, Opened, OnSlot, Loaded, Table, Checksum,
         Tracking, FileEntry, TrackAt, Passed, NoMore;
    k := k0;
    OpenedBasics(fs, dp);
    ghost var t, blk0 := Table(fs, dp), dp.blkOfs;
    var ord: byte, sum: byte := 0xFF, 0xFF;
    res := FrNoFile;
    if dp.sect != 0 {
      OnSlotRange(fs, dp, k);
      TrackStart(t, k0, blk0, lfn[..]);
      PassedNothing(t, k0);
    }
    while dp.sect != 0
      invariant Opened(fs, dp) && dp.ch == old(dp.ch) && Table(fs, dp) == t && fs.g.csize > 0
      invariant if dp.sect == 0 then old(dp.sect) == 0 && res == FrNoFile
                else OnSlot(fs.g, dp, k) && Reading(t, k0, k, blk0, Track(ord, sum, dp.blkOfs), lfn[..])
      invariant old(dp.sect) == 0 ==> dp.sect == 0
      invariant SameFat(fs.fat, fs.log, fs.freeClst, old(fs.fat), old(fs.log), old(fs.freeClst))
      invariant Onward(old(fs.medium), fs.medium)
      decreases MAX_DIR - 32 * k
    {
      OnSlotRange(fs, dp, k);
      var go;
      go, res, ord, sum := ReadStep(fs, dp, lfn, ord, sum, k0, k, blk0);
      if !go {
        if res == FrOk { return; }
        break;
      }
      k := k + 1;
      OnSlotRange(fs, dp, k);
    }
    dp.sect := 0;
  }

  lemma PassedNothing(t: seq<Slot>, k: nat)
    requires k <= |t|
    ensures Passed(t, k, k)
  {
  }

  lemma TrackStart(t: seq<Slot>, k0: nat, blk0: u32, lfn: seq<u16>)
    requires k0 < |t| && 32 * k0 < MAX_DIR
    ensures TrackAt(t, k0, k0, blk0) == Track(0xFF, 0xFF, blk0) && Tracking(t, k0, k0, Track(0xFF, 0xFF, blk0), lfn)
  {
  }

  lemma TrackNext(t: seq<Slot>, k0: nat, k: nat, blk0: u32)
    requires k0 <= k < |t| && 32 * k < MAX_DIR
    ensures TrackAt(t, k0, k + 1, blk0) == NextTrack(t[k], TrackAt(t, k0, k, blk0), k)
  {
  }

  // ---------- reading back what was registered ----------

  /** A name as dir_register gets it: terminated in the buffer, no filler character in it. */
  predicate Proper(name: seq<u16>, n: nat) {
    0 !in name && 0 < |name| <= MAX_LFN && (n > 0 ==> (n - 1) * 13 < |name| <= n * 13)
  }

  lemma PartIsLong(s: Slot, name: seq<u16>, ord: nat, sum: byte)
    requires IsPart(s, name, ord, sum) && 0 !in name && (ord - 1) * 13 < |name| <= MAX_LFN
    ensures s[0] != 0 && !Skipped(s) && IsLong(s) && !FileEntry(s) && s[13] == sum && Order(s) == ord && Pickable(s)
    ensures LastPart(s[0]) <==> ord * 13 >= |name|
  {
    PartTerminator(s, name, ord, sum);
  }

  lemma ShortIsFile(s: Slot, fn: seq<byte>, body: bool, ext: bool)
    requires UsableShort(fn) && ShortFor(s, fn, body, ext)
    ensures FileEntry(s) && s[..11] == fn && BodyLower(s[12]) == body && ExtLower(s[12]) == ext
  {
    assert s[0] == s[..11][0];
  }

  lemma RegisteredPart(t: seq<Slot>, a: nat, n: nat, name: seq<u16>, fn: seq<byte>, body: bool, ext: bool, j: nat)
    requires |fn| == 11 && Registered(t, a, n, name, fn, body, ext) && Proper(name, n) && a <= j < a + n
    ensures IsPart(t[j], name, a + n - j, Checksum(fn)) && 0 <= a + n - j - 1 && (a + n - j - 1) * 13 < |name|
    ensures (a + n - j) * 13 >= |name| <==> j == a
  {
  }

  /** dir_read passes the long-name entries and stops at the short one. */
  lemma StopsAt(t: seq<Slot>, k0: nat, k: nat, a: nat, n: nat, name: seq<u16>, fn: seq<byte>, body: bool, ext: bool)
    requires UsableShort(fn) && Registered(t, a, n, name, fn, body, ext) && Proper(name, n)
    requires k0 <= a && Passed(t, k0, a) && k0 <= k < |t| && Passed(t, k0, k) && FileEntry(t[k])
    ensures k == a + n && Passed(t, k0, a + n)
  {
    hide FileEntry, IsPart, ShortFor, Checksum, Proper, UsableShort;
    ShortIsFile(t[a + n], fn, body, ext);
    forall j | a <= j < a + n
      ensures t[j][0] != 0 && !FileEntry(t[j])
    {
      RegisteredPart(t, a, n, name, fn, body, ext, j);
      ProperLength(name, n);
      PartIsLong(t[j], name, a + n - j, Checksum(fn));
    }
  }

  lemma ProperLength(name: seq<u16>, n: nat)
    requires Proper(name, n)
    ensures 0 !in name && 0 < |name| <= MAX_LFN
  {
  }

  /** The tracking inside a registered sequence. */
  lemma {:induction false} RegisteredTrack(t: seq<Slot>, k0: nat, blk0: u32, a: nat, n: nat, i: nat, name: seq<u16>,
                                           fn: seq<byte>, body: bool, ext: bool)
    requires |fn| == 11 && Registered(t, a, n, name, fn, body, ext) && Proper(name, n)
    requires k0 <= a && 1 <= i <= n && 32 * (a + n) < MAX_DIR
    ensures TrackAt(t, k0, a + i, blk0) == Track(n - i, Checksum(fn), 32 * a)
  {
    hide IsPart, Checksum, Proper, Pickable, ShortFor;
    var k := a + i - 1;
    RegisteredPart(t, a, n, name, fn, body, ext, k);
    ProperLength(name, n);
    PartIsLong(t[k], name, a + n - k, Checksum(fn));
    OrderRange(t[k]);
    TrackNext(t, k0, k, blk0);
    if i > 1 {
      RegisteredTrack(t, k0, blk0, a, n, i - 1, name, fn, body, ext);
    }
  }

  /** The parts in the buffer make up the name. */
  lemma PartsAssembled(t: seq<Slot>, a: nat, n: nat, name: seq<u16>, fn: seq<byte>, body: bool, ext: bool,
                       lfn: seq<u16>)
    requires |fn| == 11 && Registered(t, a, n, name, fn, body, ext) && Proper(name, n) && n > 0
    requires |lfn| == 256 && forall j :: a <= j < a + n ==> Holds(t[j], lfn)
    ensures HoldsName(lfn, name)
  {
    hide Registered, Holds, IsPart;
    forall p | 0 <= p < |name|
      ensures lfn[p] == name[p]
    {
      var ord := p / 13 + 1;
      PartHeld(t, a, n, name, fn, body, ext, lfn, ord);
    }
    PartHeld(t, a, n, name, fn, body, ext, lfn, n);
    assert lfn[..|name|] == name;
  }

  lemma PartHeld(t: seq<Slot>, a: nat, n: nat, name: seq<u16>, fn: seq<byte>, body: bool, ext: bool, lfn: seq<u16>,
                 ord: nat)
    requires |fn| == 11 && Registered(t, a, n, name, fn, body, ext) && Proper(name, n) && 1 <= ord <= n
    requires |lfn| == 256 && forall j :: a <= j < a + n ==> Holds(t[j], lfn)
    ensures forall p :: (ord - 1) * 13 <= p < ord * 13 && p < |name| ==> lfn[p] == name[p]
    ensures ord == n ==> lfn[|name|] == 0
  {
    hide IsPart, Holds, Checksum, ShortFor;
    var j := a + n - ord;
    RegisteredPart(t, a, n, name, fn, body, ext, j);
    assert Holds(t[j], lfn);
    HeldPart(t[j], name, ord, Checksum(fn), lfn);
  }

  lemma HeldPart(s: Slot, name: seq<u16>, ord: nat, sum: byte, lfn: seq<u16>)
    requires IsPart(s, name, ord, sum) && 0 !in name && (ord - 1) * 13 < |name| < 256 && Holds(s, lfn)
    ensures |lfn| == 256 && forall p :: (ord - 1) * 13 <= p < ord * 13 && p < |name| ==> lfn[p] == name[p]
    ensures ord * 13 >= |name| ==> lfn[|name|] == 0
  {
    hide LfnOfs, LdWord, TerminatorAt;
    PartTerminator(s, name, ord, sum);
    forall p | (ord - 1) * 13 <= p < ord * 13 && p < |name|
      ensures lfn[p] == name[p]
    {
      assert Chars(s)[p - (ord - 1) * 13] == PartChar(name, p);
    }
  }

  /** No long-name entry stands right before slot `a`, or it cannot be mistaken for one of the object at `a`. */
  predicate NoOrphan(t: seq<Slot>, k0: nat, a: nat)
    requires a <= |t|
  {
    a == k0 || a == 0 || Skipped(t[a - 1])
  }

  /** Without long-name entries the sequence is broken. */
  lemma BrokenTrack(t: seq<Slot>, k0: nat, blk0: u32, a: nat)
    requires k0 <= a < |t| && 32 * a < MAX_DIR && NoOrphan(t, k0, a)
    ensures TrackAt(t, k0, a, blk0).ord == 0xFF
  {
    hide Taken, Order;
    if a > k0 { TrackNext(t, k0, a - 1, blk0); }
  }

  /** What dir_read finds at a registered object: the name in the buffer, or no long name at all. */
  lemma FoundRegistered(t: seq<Slot>, k0: nat, blk0: u32, k: nat, a: nat, n: nat, name: seq<u16>, fn: seq<byte>,
                        body: bool, ext: bool, lfn: seq<u16>)
    requires UsableShort(fn) && Registered(t, a, n, name, fn, body, ext) && Proper(name, n)
    requires k0 <= a && Passed(t, k0, a) && k0 <= k < |t| && 32 * k < MAX_DIR && Passed(t, k0, k) && FileEntry(t[k])
    requires n == 0 ==> NoOrphan(t, k0, a)
    requires |lfn| == 256 && Tracking(t, k0, k, TrackAt(t, k0, k, blk0), lfn)
    ensures k == a + n && ShortFor(t[k], fn, body, ext)
    ensures var tr := TrackAt(t, k0, k, blk0);
      && (n > 0 ==> tr.ord == 0 && tr.sum == Checksum(t[k][..11]) && tr.blk != NO_LFN && HoldsName(lfn, name))
      && (n == 0 ==> tr.ord != 0)
  {
    hide FileEntry, IsPart, Checksum, Proper, UsableShort, TrackAt, Holds, HoldsName, Passed, ShortFor;
    StopsAt(t, k0, k, a, n, name, fn, body, ext);
    ShortIsFile(t[k], fn, body, ext);
    if n > 0 {
      RegisteredTrack(t, k0, blk0, a, n, n, name, fn, body, ext);
      PartsAssembled(t, a, n, name, fn, body, ext, lfn);
    } else {
      BrokenTrack(t, k0, blk0, a);
    }
  }

  /** A name create_name accepts, and the short name and flags it makes of it (a number may have been added). */
  ghost predicate Named(cp: CodePage, bytes: seq<byte>, n: nat, fn: seq<byte>, body: bool, ext: bool) {
    var name := Decode(cp, bytes);
    && Faithful(cp) && 0 < |bytes| <= MAX_LFN && TrimLength(bytes) == |bytes| && UsableShort(fn)
    && (forall k :: 0 <= k < |bytes| ==> NameByte(bytes[k]) && cp.toUni(bytes[k]) != 0)
    && n == (if NeedsLong(cp, name) then (|bytes| + 12) / 13 else 0)
    && (!NeedsLong(cp, name) ==>
         fn == ShortForm(cp, name) && body == HasLower(Body(name)) && ext == HasLower(Ext(name)))
  }

  lemma NamedProper(cp: CodePage, bytes: seq<byte>, n: nat, fn: seq<byte>, body: bool, ext: bool)
    requires Named(cp, bytes, n, fn, body, ext)
    ensures Proper(Decode(cp, bytes), n) && UsableShort(fn) && 0xFFFF !in Decode(cp, bytes)
    ensures Encode(cp, Decode(cp, bytes)) == bytes != []
  {
    hide NeedsLong, ShortForm, Body, Ext, HasLower, TrimLength;
    LongRoundTrip(cp, bytes);
    TrimDecoded(cp, bytes);
  }

  /** Whatever else the short entry of an object without long-name entries holds, it shows the name. */
  lemma NamedShort(cp: CodePage, bytes: seq<byte>, fn: seq<byte>, body: bool, ext: bool, s: Slot)
    requires Named(cp, bytes, 0, fn, body, ext) && ShortFor(s, fn, body, ext)
    ensures ShortName(s) == bytes
  {
    hide NeedsLong, ShortForm, Body, Ext, HasLower, TrimLength, ShortName, FileEntry;
    ShortIsFile(s, fn, body, ext);
    ShortRoundTrip(cp, bytes, s);
  }

  /** dir_read does not miss a registered object. */
  lemma NotMissed(t: seq<Slot>, k0: nat, a: nat, n: nat, name: seq<u16>, fn: seq<byte>, body: bool, ext: bool)
    requires UsableShort(fn) && Registered(t, a, n, name, fn, body, ext) && Proper(name, n)
    requires k0 <= a && Passed(t, k0, a) && 32 * (a + n) < MAX_DIR
    ensures !NoMore(t, k0)
  {
    hide FileEntry, IsPart, ShortFor, Checksum, Proper, UsableShort;
    ShortIsFile(t[a + n], fn, body, ext);
    forall j | a <= j < a + n
      ensures t[j][0] != 0 && !FileEntry(t[j])
    {
      RegisteredPart(t, a, n, name, fn, body, ext, j);
      ProperLength(name, n);
      PartIsLong(t[j], name, a + n - j, Checksum(fn));
    }
    assert Passed(t, k0, a + n);
  }

  /** What create_name hands over to dir_register satisfies the above, whatever number the short name got. */
  lemma CreatedNamed(cp: CodePage, path: seq<byte>, p0: nat, flags: NameFlags, fn0: seq<byte>, fn: seq<byte>)
    requires Faithful(cp) && p0 <= |path| && Acceptable(cp, Segment(path, p0)) && !DotName(Segment(path, p0))
    requires var name := Decode(cp, NameOf(Segment(path, p0)));
      && UsableShort(fn0) && UsableShort(fn)
      && (flags.loss <==> !Is83(cp, name)) && (flags.lfn <==> NeedsLong(cp, name))
      && flags.body == (!flags.lfn && HasLower(Body(name))) && flags.ext == (!flags.lfn && HasLower(Ext(name)))
      && (!flags.loss ==> fn0 == ShortForm(cp, name) && fn == fn0)
    ensures var bytes := NameOf(Segment(path, p0));
      Named(cp, bytes, LongEntries(flags, |bytes|), fn, flags.body, flags.ext)
  {
    hide Faithful, Is83, HasLower, Body, Ext, ShortForm, UsableShort, Mixed, Extended;
    var seg := Segment(path, p0);
    var bytes := NameOf(seg);
    TrimAgain(seg);
    forall k | 0 <= k < |bytes|
      ensures NameByte(bytes[k]) && cp.toUni(bytes[k]) != 0
    {
      assert bytes[k] == seg[k] && seg[k] == path[p0 + k];
      assert Allowed(cp, seg[k]);
    }
  }

  lemma TrimAgain(seg: seq<byte>)
    ensures TrimLength(NameOf(seg)) == |NameOf(seg)|
  {
    TrimUnique(NameOf(seg), |NameOf(seg)|);
  }
}
