/** f_readdir on FAT12/16/32 and whole listings: every object of a directory is listed under its name. */
module DirList {
  import opened Bytes
  import opened Volume
  import opened Chains
  import opened Names
  import opened NameEntries
  import opened DirTable
  import opened DirStep
  import opened DirSlots
  import opened DirWrite
  import opened DirCreate
  import opened DirRead

  /** An object of a directory: `n` long-name entries from slot `a` on and the short entry behind them. */
  datatype Obj = Obj(a: nat, n: nat, bytes: seq<byte>, fn: seq<byte>, body: bool, ext: bool)

  predicate LongInUse(s: Slot) {
    s[0] != 0 && !Skipped(s) && IsLong(s)
  }

  /** The slots hold the object as dir_register stores it, with whatever attribute, times, start cluster and size; one
      without long-name entries does not follow any. */
  ghost predicate IsObject(cp: CodePage, t: seq<Slot>, o: Obj) {
    && Named(cp, o.bytes, o.n, o.fn, o.body, o.ext)
    && Registered(t, o.a, o.n, Decode(cp, o.bytes), o.fn, o.body, o.ext) && 32 * (o.a + o.n) < MAX_DIR
    && (o.n == 0 && o.a > 0 ==> !LongInUse(t[o.a - 1]))
  }

  /** No end mark up to slot `k`. */
  ghost predicate Live(t: seq<Slot>, k: nat) {
    k < |t| && forall j :: 0 <= j <= k ==> t[j][0] != 0
  }

  // ---------- f_readdir ----------

  /** `name` is right for whatever object has its short entry in slot `k` and starts at `k0` or behind. */
  ghost predicate NameRight(cp: CodePage, t: seq<Slot>, k0: nat, k: nat, name: seq<byte>) {
    forall o: Obj :: IsObject(cp, t, o) && k0 <= o.a && o.a + o.n == k ==> name == o.bytes
  }

  lemma HoldsUnique(lfn: seq<u16>, name: seq<u16>)
    requires HoldsName(lfn, name)
    ensures BufferName(lfn) == name
  {
    NameInBuffer(lfn, name);
  }

  /** The two ways a name comes back. */
  lemma NameIsRight(cp: CodePage, t: seq<Slot>, k0: nat, blk0: u32, k: nat, lfn: seq<u16>, hasLong: bool,
                    name: seq<byte>)
    requires k0 <= k < |t| && 32 * k < MAX_DIR && Passed(t, k0, k) && FileEntry(t[k])
    requires |lfn| == 256 && Tracking(t, k0, k, TrackAt(t, k0, k, blk0), lfn)
    requires var tr := TrackAt(t, k0, k, blk0);
      hasLong == (tr.ord == 0 && tr.sum == Checksum(t[k][..11]) && tr.blk != NO_LFN)
    requires var long := Encode(cp, BufferName(lfn));
      name == if hasLong && long != [] then long else ShortName(t[k])
    ensures NameRight(cp, t, k0, k, name)
  {
    hide Passed, FileEntry, Tracking, TrackAt, Named, Registered, Checksum, Encode, ShortName, HoldsName,
         ShortFor, Proper, BufferName, UsableShort;
    forall o: Obj | IsObject(cp, t, o) && k0 <= o.a && o.a + o.n == k
      ensures name == o.bytes
    {
      var long := Decode(cp, o.bytes);
      NamedProper(cp, o.bytes, o.n, o.fn, o.body, o.ext);
      PassedPrefix(t, k0, o.a, k);
      if o.n == 0 && o.a > k0 { PassedKind(t, k0, k, o.a - 1); }
      FoundRegistered(t, k0, blk0, k, o.a, o.n, long, o.fn, o.body, o.ext, lfn);
      if o.n > 0 {
        HoldsUnique(lfn, long);
      } else {
        NamedShort(cp, o.bytes, o.fn, o.body, o.ext, t[k]);
      }
    }
  }

  lemma PassedPrefix(t: seq<Slot>, k0: nat, m: nat, k: nat)
    requires Passed(t, k0, k) && m <= k
    ensures Passed(t, k0, m)
  {
  }

  lemma PassedKind(t: seq<Slot>, k0: nat, k: nat, j: nat)
    requires Passed(t, k0, k) && k0 <= j < k
    ensures j < |t| && t[j][0] != 0 && (LongInUse(t[j]) || Skipped(t[j]))
  {
  }

  /** The first part of f_readdir: the next file entry, if there is one, and its name. */
  method ReadItem(fs: Fatfs, dp: Dir, cp: CodePage, lfn: array<u16>, ghost k0: nat)
    returns (res: FResult, fname: seq<byte>, ghost k: nat)
    requires Opened(fs, dp) && (dp.sect != 0 ==> OnSlot(fs.g, dp, k0)) && lfn.Length == 256
    modifies fs, fs.win, dp`ch, dp`sect, dp`clust, dp`dptr, dp`blkOfs, lfn
    ensures Opened(fs, dp) && dp.ch == old(dp.ch) && Table(fs, dp) == old(Table(fs, dp))
    ensures res == FrOk || res == FrNoFile || res == FrDiskErr
    ensures res == FrOk ==> old(dp.sect) != 0 && k0 <= k < |Table(fs, dp)| && 32 * k < MAX_DIR && OnSlot(fs.g, dp, k)
    ensures res == FrOk ==> Passed(Table(fs, dp), k0, k) && FileEntry(Table(fs, dp)[k])
    ensures res == FrOk ==> NameRight(cp, Table(fs, dp), k0, k, fname)
    ensures res == FrOk && fname == [] ==> ShortName(Table(fs, dp)[k]) == []
    ensures res != FrOk ==> fname == [] && dp.sect == 0
    ensures res == FrNoFile && old(dp.sect) != 0 ==> NoMore(Table(fs, dp), k0)
    ensures SameFat(fs.fat, fs.log, fs.freeClst, old(fs.fat), old(fs.log), old(fs.freeClst))
    ensures Onward(old(fs.medium), fs.medium)
    ensures res == FrDiskErr ==> Faulted(old(fs.medium), fs.medium)
  {
    hide Fatfs.Valid, WinState.Logical, Slots, Geometry.WellFormed, Opened, OnSlot, Loaded, Table, Checksum,
         Tracking, FileEntry, TrackAt, Passed, NoMore, NameRight, Encode, ShortName, HoldsName, BufferName;
    OnSlotSize(fs, dp);
    ghost var t, blk0 := Table(fs, dp), dp.blkOfs;
    fname := [];
    res, k := DirReadFile(fs, dp, lfn, k0);
    if res != FrOk { return; }
    ghost var x := lfn[..];
    if dp.blkOfs != NO_LFN { RunTerminated(t, k0, k, TrackAt(t, k0, k, blk0), x); }
    LoadedSlot(fs, dp, k);
    fname := FileName(cp, dp.blkOfs != NO_LFN, lfn, fs.win[dp.dptr % 512..dp.dptr % 512 + 32], BufferName(x));
    NameIsRight(cp, t, k0, blk0, k, x, dp.blkOfs != NO_LFN, fname);
    OnSlotNow(fs, dp, k);
  }

  /** f_readdir: the next file entry - `found` tells whether there is one - and its name; then one slot on. The name is
      empty exactly if there is none, but for a damaged short entry that shows no character. */
  method ReadDir(fs: Fatfs, dp: Dir, cp: CodePage, lfn: array<u16>, ghost k0: nat)
    returns (res: FResult, fname: seq<byte>, found: bool, ghost k: nat)
    requires Opened(fs, dp) && (dp.sect != 0 ==> OnSlot(fs.g, dp, k0)) && lfn.Length == 256
    modifies fs, fs.win, dp`ch, dp`sect, dp`clust, dp`dptr, dp`blkOfs, lfn
    ensures Opened(fs, dp) && dp.ch == old(dp.ch) && Table(fs, dp) == old(Table(fs, dp))
    ensures res == FrOk || res == FrDiskErr
    ensures res == FrOk && found ==> old(dp.sect) != 0 && k0 <= k < |Table(fs, dp)| && 32 * k < MAX_DIR
    ensures res == FrOk && found ==> Passed(Table(fs, dp), k0, k) && FileEntry(Table(fs, dp)[k])
    ensures res == FrOk && found ==> NameRight(cp, Table(fs, dp), k0, k, fname)
    ensures res == FrOk && found && fname == [] ==> ShortName(Table(fs, dp)[k]) == []
    ensures res == FrOk && found ==>
      if dp.sect != 0 then OnSlot(fs.g, dp, k + 1) else k + 1 >= |Table(fs, dp)| || 32 * (k + 1) >= MAX_DIR
    ensures res == FrOk && !found ==> fname == [] && dp.sect == 0 && (old(dp.sect) != 0 ==> NoMore(Table(fs, dp), k0))
    ensures SameFat(fs.fat, fs.log, fs.freeClst, old(fs.fat), old(fs.log), old(fs.freeClst))
    ensures Onward(old(fs.medium), fs.medium)
    ensures res == FrDiskErr ==> Faulted(old(fs.medium), fs.medium)
  {
    hide Fatfs.Valid, WinState.Logical, Slots, Geometry.WellFormed, Opened, OnSlot, Table, FileEntry, Passed,
         NoMore, NameRight, ShortName, CountKnown, Full, Kept, CrashSafe, OnlyTable;
    OnSlotSize(fs, dp);
    res, fname, k := ReadItem(fs, dp, cp, lfn, k0);
    found := res == FrOk;
    if found {
      res := NextSlot(fs, dp, k);
    }
    if res == FrNoFile { res := FrOk; }
  }

  lemma OnSlotNow(fs: Fatfs, dp: Dir, k: nat)
    requires Opened(fs, dp) && Loaded(fs, dp, k)
    ensures OnSlot(fs.g, dp, k) && dp.sect != 0
  {
    OnSlotRange(fs, dp, k);
  }

  lemma OnSlotSize(fs: Fatfs, dp: Dir)
    requires Opened(fs, dp)
    ensures fs.g.csize > 0 && |Table(fs, dp)| == NumSlots(fs.g, dp.ch)
  {
    OpenedBasics(fs, dp);
  }

  // ---------- whole listings ----------

  /** Slots and names listed so far: the file entries among the first `k` slots, in order, none behind an end mark. */
  ghost predicate Listed(cp: CodePage, t: seq<Slot>, k: nat, places: seq<nat>, names: seq<seq<byte>>) {
    && |names| == |places|
    && (forall i :: 0 <= i < |places| ==> places[i] < k && places[i] < |t| && 32 * places[i] < MAX_DIR)
    && (forall i, j :: 0 <= i < j < |places| ==> places[i] < places[j])
    && (forall j :: 0 <= j < k && j < |t| ==> (j in places <==> FileEntry(t[j]) && Live(t, j)))
    && (forall i, o: Obj :: 0 <= i < |places| && IsObject(cp, t, o) && o.a + o.n == places[i] ==> names[i] == o.bytes)
  }

  /** The listing goes on at slot `k`: nothing but live slots before it, the last one a file entry. */
  ghost predicate ListedTo(cp: CodePage, t: seq<Slot>, k: nat, places: seq<nat>, names: seq<seq<byte>>) {
    && k <= |t| && Listed(cp, t, k, places, names)
    && (forall j :: 0 <= j < k ==> t[j][0] != 0) && (k > 0 ==> FileEntry(t[k - 1]))
  }

  /** An object does not start before a file entry and end behind it. */
  lemma NoFileInside(cp: CodePage, t: seq<Slot>, o: Obj, k: nat)
    requires IsObject(cp, t, o) && k < |t| && FileEntry(t[k])
    ensures !(o.a <= k < o.a + o.n)
  {
    hide FileEntry, IsPart, Checksum, Proper, ShortFor, Registered;
    if o.a <= k < o.a + o.n {
      var name := Decode(cp, o.bytes);
      NamedProper(cp, o.bytes, o.n, o.fn, o.body, o.ext);
      ProperLength(name, o.n);
      RegisteredPart(t, o.a, o.n, name, o.fn, o.body, o.ext, k);
      PartIsLong(t[k], name, o.a + o.n - k, Checksum(o.fn));
    }
  }

  lemma ObjectIsFile(cp: CodePage, t: seq<Slot>, o: Obj)
    requires IsObject(cp, t, o)
    ensures o.a + o.n < |t| && 32 * (o.a + o.n) < MAX_DIR && FileEntry(t[o.a + o.n]) && !FreeSlot(t[o.a + o.n])
  {
    hide FileEntry, ShortFor;
    ShortIsFile(t[o.a + o.n], o.fn, o.body, o.ext);
    FileInUse(t[o.a + o.n]);
  }

  /** Name and case flags kept, the rest of a file entry changed in any way that leaves it one: no object is lost, none
      appears, and the directory stays in order. */
  lemma EntryEdited(cp: CodePage, t: seq<Slot>, k: nat, s: Slot)
    requires k < |t| && FileEntry(t[k]) && FileEntry(s) && s[..11] == t[k][..11] && s[12] == t[k][12]
    ensures forall o: Obj :: IsObject(cp, t[k := s], o) <==> IsObject(cp, t, o)
    ensures Orderly(t[k := s]) <==> Orderly(t)
  {
    hide IsObject, FileEntry, Orderly;
    var u := t[k := s];
    assert u[k := t[k]] == t;
    forall o: Obj
      ensures IsObject(cp, u, o) <==> IsObject(cp, t, o)
    {
      if IsObject(cp, t, o) { ObjectStays(cp, t, k, s, o); }
      if IsObject(cp, u, o) { ObjectStays(cp, u, k, t[k], o); }
    }
    if Orderly(t) { OrderStays(t, k, s); }
    if Orderly(u) { OrderStays(u, k, t[k]); }
  }

  lemma ObjectStays(cp: CodePage, t: seq<Slot>, k: nat, s: Slot, o: Obj)
    requires k < |t| && FileEntry(t[k]) && FileEntry(s) && s[..11] == t[k][..11] && s[12] == t[k][12]
    requires IsObject(cp, t, o)
    ensures IsObject(cp, t[k := s], o)
  {
    hide Named, IsPart, Checksum;
    NoFileInside(cp, t, o, k);
    if k == o.a + o.n { ShortStays(t[k], s, o.fn, o.body, o.ext); }
  }

  lemma ShortStays(s: Slot, r: Slot, fn: seq<byte>, body: bool, ext: bool)
    requires ShortFor(s, fn, body, ext) && FileEntry(r) && r[..11] == s[..11] && r[12] == s[12]
    ensures ShortFor(r, fn, body, ext)
  {
  }

  lemma OrderStays(t: seq<Slot>, k: nat, s: Slot)
    requires k < |t| && FileEntry(t[k]) && FileEntry(s) && Orderly(t)
    ensures Orderly(t[k := s])
  {
    hide IsLong;
    FileInUse(t[k]);
    FileInUse(s);
  }

  lemma FileInUse(s: Slot)
    requires FileEntry(s)
    ensures s[0] != 0 && !FreeSlot(s) && !LongInUse(s)
  {
  }

  lemma ListedStart(cp: CodePage, t: seq<Slot>)
    ensures ListedTo(cp, t, 0, [], [])
  {
  }

  /** One more name. */
  lemma ListedNext(cp: CodePage, t: seq<Slot>, k0: nat, k: nat, places: seq<nat>, names: seq<seq<byte>>,
                   name: seq<byte>)
    requires ListedTo(cp, t, k0, places, names) && k0 <= k < |t| && Passed(t, k0, k) && FileEntry(t[k])
    requires NameRight(cp, t, k0, k, name) && 32 * k < MAX_DIR
    ensures ListedTo(cp, t, k + 1, places + [k], names + [name])
  {
    hide FileEntry, IsObject;
    var p, q := places + [k], names + [name];
    FileInUse(t[k]);
    forall j | 0 <= j < k + 1
      ensures j in p <==> FileEntry(t[j]) && Live(t, j)
    {
      if j < k0 {
        assert j in p <==> j in places;
      } else if j < k {
        assert !FileEntry(t[j]) && j !in places;
      }
    }
    forall i, o: Obj | 0 <= i < |p| && IsObject(cp, t, o) && o.a + o.n == p[i]
      ensures q[i] == o.bytes
    {
      if i == |places| {
        if k0 > 0 { NoFileInside(cp, t, o, k0 - 1); }
      } else {
        assert p[i] == places[i];
      }
    }
  }

  /** The end: no further file entry before the end mark. */
  lemma ListedAll(cp: CodePage, t: seq<Slot>, k: nat, places: seq<nat>, names: seq<seq<byte>>)
    requires ListedTo(cp, t, k, places, names) && (NoMore(t, k) || k >= |t| || 32 * k >= MAX_DIR)
    ensures Listed(cp, t, MAX_DIR / 32, places, names)
    ensures forall o: Obj :: IsObject(cp, t, o) && Live(t, o.a + o.n) ==> o.bytes in names
  {
    hide FileEntry, IsObject;
    forall j | 0 <= j < MAX_DIR / 32 && j < |t|
      ensures j in places <==> FileEntry(t[j]) && Live(t, j)
    {
      if j >= k && Live(t, j) { NoneBehind(t, k, j); }
    }
    forall o: Obj | IsObject(cp, t, o) && Live(t, o.a + o.n)
      ensures o.bytes in names
    {
      ObjectIsFile(cp, t, o);
      var i :| 0 <= i < |places| && places[i] == o.a + o.n;
      assert names[i] == o.bytes;
    }
  }

  lemma NoneBehind(t: seq<Slot>, k: nat, j: nat)
    requires (NoMore(t, k) || k >= |t| || 32 * k >= MAX_DIR) && k <= j < |t| && j < MAX_DIR / 32 && Live(t, j)
    ensures !FileEntry(t[j])
  {
    if FileEntry(t[j]) {
      FirstFile(t, k, j);
    }
  }

  /** There is a first file entry from `k` on. */
  lemma {:induction false} FirstFile(t: seq<Slot>, k: nat, j: nat)
    requires k <= j < |t| && Live(t, j) && FileEntry(t[j]) && j < MAX_DIR / 32
    ensures !NoMore(t, k)
    decreases j
  {
    hide FileEntry;
    if Passed(t, k, j) {
    } else {
      var i :| k <= i < j && !(t[i][0] != 0 && !FileEntry(t[i]));
      FirstFile(t, k, i);
    }
  }

  /** A listing of the whole directory, from offset 0 on: the live file entries in order, and the name of every object
      of the directory is among the names. */
  method ListNames(fs: Fatfs, dp: Dir, cp: CodePage, lfn: array<u16>)
    returns (res: FResult, names: seq<seq<byte>>, ghost places: seq<nat>)
    requires Opened(fs, dp) && lfn.Length == 256
    modifies fs, fs.win, dp`ch, dp`sect, dp`clust, dp`dptr, dp`blkOfs, lfn
    ensures Opened(fs, dp) && Table(fs, dp) == old(Table(fs, dp))
    ensures res == FrOk || res == FrDiskErr
    ensures res == FrOk ==> Listed(cp, Table(fs, dp), MAX_DIR / 32, places, names)
    ensures res == FrOk ==>
      forall o: Obj :: IsObject(cp, Table(fs, dp), o) && Live(Table(fs, dp), o.a + o.n) ==> o.bytes in names
    ensures SameFat(fs.fat, fs.log, fs.freeClst, old(fs.fat), old(fs.log), old(fs.freeClst))
    ensures Onward(old(fs.medium), fs.medium)
    ensures res == FrDiskErr ==> Faulted(old(fs.medium), fs.medium)
  {
    hide Fatfs.Valid, WinState.Logical, Slots, Geometry.WellFormed, Opened, OnSlot, Table, FileEntry, Passed,
         NoMore, NameRight, Listed, ListedTo, IsObject;
    names, places := [], [];
    OnSlotSize(fs, dp);
    ghost var t := Table(fs, dp);
    SomeSlot(fs, dp);
    res := DirSdi(fs, dp, 0);
    if res != FrOk { return; }
    ListedStart(cp, t);
    ghost var k0 := 0;
    OnSlotRange(fs, dp, 0);
    while true
      invariant Opened(fs, dp) && Table(fs, dp) == t && ListedTo(cp, t, k0, places, names)
      invariant if dp.sect != 0 then OnSlot(fs.g, dp, k0) else k0 >= |t| || 32 * k0 >= MAX_DIR
      invariant SameFat(fs.fat, fs.log, fs.freeClst, old(fs.fat), old(fs.log), old(fs.freeClst))
      invariant Onward(old(fs.medium), fs.medium)
      decreases MAX_DIR - 32 * k0
    {
      var name, found;
      ghost var k;
      res, name, found, k := ReadDir(fs, dp, cp, lfn, k0);
      if res != FrOk { return; }
      if !found {
        ListedAll(cp, t, k0, places, names);
        return;
      }
      ListedNext(cp, t, k0, k, places, names, name);
      names, places := names + [name], places + [k];
      k0 := k + 1;
    }
  }

  // ---------- creating objects ----------

  /** No long-name entry without a short entry behind its run. */
  ghost predicate NoOrphans(t: seq<Slot>) {
    forall j :: 0 <= j < |t| && LongInUse(t[j]) ==> j + 1 < |t| && !FreeSlot(t[j + 1])
  }

  /** A directory as this module leaves it. */
  ghost predicate Orderly(t: seq<Slot>) {
    EndMarked(t) && NoOrphans(t)
  }

  lemma ObjectLive(cp: CodePage, t: seq<Slot>, o: Obj)
    requires IsObject(cp, t, o) && EndMarked(t)
    ensures Live(t, o.a + o.n)
  {
    hide IsObject;
    ObjectIsFile(cp, t, o);
  }

  lemma GrownSlot(t: seq<Slot>, t1: seq<Slot>, j: nat)
    requires GrownBy(t, t1) && j < |t1|
    ensures |t| <= |t1| && if j < |t| then t1[j] == t[j] else t1[j][0] == 0
  {
  }

  /** Before the reserved slots stands no long-name entry. */
  lemma NoLongBefore(t: seq<Slot>, t1: seq<Slot>, a: nat, n: nat)
    requires GrownBy(t, t1) && Reserved(t1, a, n) && NoOrphans(t) && a > 0
    ensures a - 1 < |t| && t1[a - 1] == t[a - 1] && !LongInUse(t1[a - 1])
  {
    hide Skipped, IsLong, GrownBy;
    GrownSlot(t, t1, a - 1);
    GrownSlot(t, t1, a);
  }

  /** A registered object is an object of the directory, and the directory stays orderly. */
  lemma NewObject(cp: CodePage, t: seq<Slot>, t1: seq<Slot>, t2: seq<Slot>, o: Obj)
    requires Orderly(t) && EndMarked(t2) && GrownBy(t, t1) && Reserved(t1, o.a, o.n)
    requires OnlySlots(t1, t2, o.a, o.a + o.n)
    requires Named(cp, o.bytes, o.n, o.fn, o.body, o.ext) && 32 * (o.a + o.n) < MAX_DIR
    requires Registered(t2, o.a, o.n, Decode(cp, o.bytes), o.fn, o.body, o.ext)
    ensures IsObject(cp, t2, o) && Orderly(t2)
  {
    hide Named, Registered, EndMarked, GrownBy, Skipped, IsLong, FileEntry;
    if o.a > 0 { NoLongBefore(t, t1, o.a, o.n); }
    assert IsObject(cp, t2, o);
    forall j | 0 <= j < |t2| && LongInUse(t2[j])
      ensures j + 1 < |t2| && !FreeSlot(t2[j + 1])
    {
      if o.a <= j + 1 <= o.a + o.n {
        RunInUse(cp, t2, o, j + 1);
      } else if j == o.a + o.n {
        ObjectIsFile(cp, t2, o);
        FileInUse(t2[j]);
      } else {
        GrownLong(t, t1, j);
      }
    }
  }

  /** All slots of an object are in use. */
  lemma RunInUse(cp: CodePage, t: seq<Slot>, o: Obj, j: nat)
    requires IsObject(cp, t, o) && o.a <= j <= o.a + o.n
    ensures j < |t| && !FreeSlot(t[j])
  {
    hide Named, IsPart, FileEntry;
    ObjectIsFile(cp, t, o);
    if j < o.a + o.n { PartInUse(t[j], Decode(cp, o.bytes), o.a + o.n - j, Checksum(o.fn)); }
  }

  lemma GrownLong(t: seq<Slot>, t1: seq<Slot>, j: nat)
    requires GrownBy(t, t1) && NoOrphans(t) && j < |t1| && LongInUse(t1[j])
    ensures j + 1 < |t| <= |t1| && t1[j] == t[j] && t1[j + 1] == t[j + 1] && !FreeSlot(t1[j + 1])
  {
    hide Skipped, IsLong, GrownBy;
    GrownSlot(t, t1, j);
    if j + 1 < |t1| { GrownSlot(t, t1, j + 1); }
  }

  /** The other objects are untouched. */
  lemma ObjectKept(cp: CodePage, t: seq<Slot>, t1: seq<Slot>, t2: seq<Slot>, a: nat, n: nat, o: Obj)
    requires GrownBy(t, t1) && Reserved(t1, a, n) && OnlySlots(t1, t2, a, a + n) && !LongInUse(t2[a + n])
    requires IsObject(cp, t, o)
    ensures IsObject(cp, t2, o)
  {
    hide Named, Skipped, IsLong, IsPart, ShortFor, Checksum;
    forall j | o.a <= j <= o.a + o.n
      ensures t2[j] == t[j]
    {
      RunInUse(cp, t, o, j);
      assert t1[j] == t[j];
    }
    if o.n == 0 && o.a > 0 {
      RunInUse(cp, t, o, o.a);
      assert t1[o.a] == t[o.a] && t1[o.a - 1] == t[o.a - 1];
    }
  }

  /** What create_name leaves for dir_register: the long name in the buffer, and a short name with flags that make an
      object of it, whatever number the short name gets if it lost something. */
  ghost predicate Prepared(cp: CodePage, bytes: seq<byte>, lfn: seq<u16>, fn: seq<byte>, flags: NameFlags) {
    var name := Decode(cp, bytes);
    && UsableShort(fn) && HoldsName(lfn, name) && 0xFFFF !in name && 0 < |name| <= MAX_LFN
    && fn == SqueezedForm(cp, name)
    && forall fn1 :: UsableShort(fn1) && (!flags.loss ==> fn1 == fn) ==>
         Named(cp, bytes, LongEntries(flags, |bytes|), fn1, flags.body, flags.ext)
  }

  /** create_name into the directory object. */
  method PrepareName(dp: Dir, cp: CodePage, lfn: array<u16>, path: seq<byte>, p0: nat) returns (ok: bool)
    requires dp.fn.Length == 11 && lfn.Length == 256 && Faithful(cp) && p0 <= |path|
    modifies dp`flags, dp.fn, lfn
    ensures ok <==> Acceptable(cp, Segment(path, p0))
    ensures ok ==> dp.flags.dot == DotName(Segment(path, p0))
    ensures ok && !dp.flags.dot ==> (dp.flags.loss <==> !Is83(cp, Decode(cp, NameOf(Segment(path, p0)))))
    ensures ok && !dp.flags.dot ==> Prepared(cp, NameOf(Segment(path, p0)), lfn[..], dp.fn[..], dp.flags)
  {
    hide Named, UsableShort, HoldsName, Faithful, Is83, NeedsLong, HasLower, Body, Ext, ShortForm, Acceptable,
         DotName, SegmentEnd, LastSegment, SqueezedForm;
    ghost var bytes := NameOf(Segment(path, p0));
    var p, flags;
    ok, p, flags := CreateName(cp, lfn, dp.fn, path, p0);
    if !ok { return; }
    dp.flags := flags;
    if !flags.dot {
      ghost var fn0 := dp.fn[..];
      forall fn1 | UsableShort(fn1) && (!flags.loss ==> fn1 == fn0)
        ensures Named(cp, bytes, LongEntries(flags, |bytes|), fn1, flags.body, flags.ext)
      {
        CreatedNamed(cp, path, p0, flags, fn0, fn1);
      }
      NamedProper(cp, bytes, LongEntries(flags, |bytes|), fn0, flags.body, flags.ext);
      ProperLength(Decode(cp, bytes), LongEntries(flags, |bytes|));
    }
  }

  /** Why dir_register refuses: the directory has the 99 numbered names of a name that is no 8.3 name, or no place for
      the entries. */
  ghost predicate Refused(fs: Fatfs, dp: Dir, t: seq<Slot>, cp: CodePage, bytes: seq<byte>)
    requires Opened(fs, dp)
    reads fs, fs.win, dp
  {
    var name := Decode(cp, bytes);
    || (!Is83(cp, name) && TriesTaken(t, SqueezedForm(cp, name), name, 100))
    || NoPlace(fs, dp, if NeedsLong(cp, name) then (|bytes| + 12) / 13 + 1 else 1)
  }

  /** The short name of a new object: that of an 8.3 name is its form, that of another the first numbered one that the
      directory does not have. */
  ghost predicate ShortChosen(t: seq<Slot>, cp: CodePage, bytes: seq<byte>, fn: seq<byte>) {
    var name := Decode(cp, bytes);
    var form := SqueezedForm(cp, name);
    if Is83(cp, name) then fn == form
    else NoShort(t, fn, MAX_DIR / 32)
         && exists n :: 1 <= n < 100 && fn == TryName(form, n, name) && TriesTaken(t, form, name, n)
  }

  /** create_name and dir_register: the new object `o` is in the directory, and all others still are. */
  method Create(fs: Fatfs, dp: Dir, cp: CodePage, lfn: array<u16>, path: seq<byte>, p0: nat)
    returns (res: FResult, ghost o: Obj)
    requires Opened(fs, dp) && dp.fn.Length == 11 && dp.fn != fs.win && lfn.Length == 256 && Faithful(cp)
    requires p0 <= |path|
    modifies fs, fs.win, dp, dp.fn, lfn
    ensures !Acceptable(cp, Segment(path, p0)) || DotName(Segment(path, p0)) <==> res == FrInvalidName
    ensures res == FrOk || res == FrDenied || res == FrInvalidName || res == FrDiskErr
            || (res == FrIntErr && HasReserved(old(fs.fat)))
    ensures res == FrOk ==> Opened(fs, dp) && o.bytes == NameOf(Segment(path, p0))
    ensures res == FrDenied ==> Opened(fs, dp)
    ensures res == FrDenied ==> Refused(fs, dp, old(Table(fs, dp)), cp, NameOf(Segment(path, p0)))
    ensures res == FrOk ==> ShortChosen(old(Table(fs, dp)), cp, o.bytes, o.fn)
    ensures res == FrOk ==> var k := o.a + o.n;
      && FreshShort(Table(fs, dp), k, dp) && UsableShort(dp.fn[..]) && Loaded(fs, dp, k) && fs.wflag
      && o.fn == dp.fn[..] && o.body == dp.flags.body && o.ext == dp.flags.ext
    ensures res == FrOk && old(Orderly(Table(fs, dp))) ==> Orderly(Table(fs, dp)) && IsObject(cp, Table(fs, dp), o)
    ensures res == FrOk ==> forall x: Obj :: IsObject(cp, old(Table(fs, dp)), x) ==> IsObject(cp, Table(fs, dp), x)
    ensures res == FrOk ==> Kept(old(fs.fat), old(fs.freeClst), fs.fat, fs.freeClst)
    ensures res == FrDiskErr ==> Faulted(old(fs.medium), fs.medium)
    ensures Onward(old(fs.medium), fs.medium)
  {
    hide Fatfs.Valid, WinState.Logical, Slots, Geometry.WellFormed, Opened, OnSlot, Table, Registered, Faithful,
         Acceptable, DotName, SegmentEnd, GrownBy, Reserved, OnlySlots, Kept, OnlyTable, CrashSafe, NoShort,
         IsObject, Prepared, Orderly, HoldsName, UsableShort, Named, FreshShort, Loaded, TriesTaken, NoPlace, Is83,
         NeedsLong, SqueezedForm, TryName;
    OnSlotSize(fs, dp);
    ghost var t, bytes := Table(fs, dp), NameOf(Segment(path, p0));
    o := Obj(0, 0, bytes, [], false, false);
    var ok := PrepareName(dp, cp, lfn, path, p0);
    if !ok { return FrInvalidName, o; }
    ghost var fn0, x := dp.fn[..], lfn[..];
    if !dp.flags.dot { PreparedFacts(cp, bytes, x, fn0, dp.flags); }
    ghost var a, t1;
    res, a, t1 := DirRegister(fs, dp, lfn, Decode(cp, bytes));
    if !dp.flags.dot { PreparedEntries(cp, bytes, x, fn0, dp.flags); }
    if res != FrOk { return; }
    PreparedNamed(cp, bytes, x, fn0, dp.flags, dp.fn[..]);
    ghost var n := LongEntries(dp.flags, |bytes|);
    o := Obj(a, n, bytes, dp.fn[..], dp.flags.body, dp.flags.ext);
    OnSlotRange(fs, dp, a + n);
    RegisteredObject(cp, t, t1, Table(fs, dp), o);
  }

  lemma PreparedFacts(cp: CodePage, bytes: seq<byte>, lfn: seq<u16>, fn: seq<byte>, flags: NameFlags)
    requires Prepared(cp, bytes, lfn, fn, flags)
    ensures fn == SqueezedForm(cp, Decode(cp, bytes))
    ensures var name := Decode(cp, bytes);
      UsableShort(fn) && HoldsName(lfn, name) && 0xFFFF !in name && 0 < |name| <= MAX_LFN && |name| == |bytes|
  {
    hide Named, UsableShort, HoldsName;
  }

  lemma PreparedNamed(cp: CodePage, bytes: seq<byte>, lfn: seq<u16>, fn: seq<byte>, flags: NameFlags, fn1: seq<byte>)
    requires Prepared(cp, bytes, lfn, fn, flags) && UsableShort(fn1) && (!flags.loss ==> fn1 == fn)
    ensures Named(cp, bytes, LongEntries(flags, |bytes|), fn1, flags.body, flags.ext)
  {
    hide Named, UsableShort, HoldsName;
  }

  lemma PreparedEntries(cp: CodePage, bytes: seq<byte>, lfn: seq<u16>, fn: seq<byte>, flags: NameFlags)
    requires Prepared(cp, bytes, lfn, fn, flags)
    ensures LongEntries(flags, |bytes|) == if NeedsLong(cp, Decode(cp, bytes)) then (|bytes| + 12) / 13 else 0
  {
    hide UsableShort, HoldsName, NeedsLong;
    assert Named(cp, bytes, LongEntries(flags, |bytes|), fn, flags.body, flags.ext);
  }

  /** What dir_register did, in terms of objects. */
  lemma RegisteredObject(cp: CodePage, t: seq<Slot>, t1: seq<Slot>, t2: seq<Slot>, o: Obj)
    requires GrownBy(t, t1) && Reserved(t1, o.a, o.n) && OnlySlots(t1, t2, o.a, o.a + o.n)
    requires Named(cp, o.bytes, o.n, o.fn, o.body, o.ext) && 32 * (o.a + o.n) < MAX_DIR && |o.fn| == 11
    requires Registered(t2, o.a, o.n, Decode(cp, o.bytes), o.fn, o.body, o.ext) && (EndMarked(t) ==> EndMarked(t2))
    ensures Orderly(t) ==> IsObject(cp, t2, o) && Orderly(t2)
    ensures forall x: Obj :: IsObject(cp, t, x) ==> IsObject(cp, t2, x)
  {
    hide IsObject, Registered, GrownBy, Reserved, OnlySlots, NoOrphans;
    if Orderly(t) { NewObject(cp, t, t1, t2, o); }
    ShortNotLong(t2, o, Decode(cp, o.bytes));
    forall x: Obj | IsObject(cp, t, x)
      ensures IsObject(cp, t2, x)
    {
      ObjectKept(cp, t, t1, t2, o.a, o.n, x);
    }
  }

  lemma ShortNotLong(t: seq<Slot>, o: Obj, name: seq<u16>)
    requires UsableShort(o.fn) && Registered(t, o.a, o.n, name, o.fn, o.body, o.ext)
    ensures o.a + o.n < |t| && !LongInUse(t[o.a + o.n])
  {
    hide FileEntry, ShortFor;
    ShortIsFile(t[o.a + o.n], o.fn, o.body, o.ext);
    FileInUse(t[o.a + o.n]);
  }

  /** Create an object from a path segment and list the directory: in an orderly directory the new name is there - the
      segment without trailing dots and spaces -, and so are the names of all objects that were there before. */
  method CreateAndList(fs: Fatfs, dp: Dir, cp: CodePage, lfn: array<u16>, path: seq<byte>, p0: nat)
    returns (res: FResult, names: seq<seq<byte>>)
    requires Opened(fs, dp) && dp.fn.Length == 11 && dp.fn != fs.win && lfn.Length == 256 && Faithful(cp)
    requires p0 <= |path|
    modifies fs, fs.win, dp, dp.fn, lfn
    ensures !Acceptable(cp, Segment(path, p0)) || DotName(Segment(path, p0)) <==> res == FrInvalidName
    ensures res == FrOk || res == FrDenied || res == FrInvalidName || res == FrDiskErr
            || (res == FrIntErr && HasReserved(old(fs.fat)))
    ensures res == FrOk || res == FrDenied ==> Opened(fs, dp)
    ensures res == FrDenied ==> Refused(fs, dp, old(Table(fs, dp)), cp, NameOf(Segment(path, p0)))
    ensures res == FrOk && old(Orderly(Table(fs, dp))) ==> Orderly(Table(fs, dp)) && NameOf(Segment(path, p0)) in names
    ensures res == FrOk && old(Orderly(Table(fs, dp))) ==>
      forall o: Obj :: IsObject(cp, old(Table(fs, dp)), o) ==> IsObject(cp, Table(fs, dp), o) && o.bytes in names
    ensures res == FrDiskErr ==> Faulted(old(fs.medium), fs.medium)
    ensures Onward(old(fs.medium), fs.medium)
  {
    hide Fatfs.Valid, WinState.Logical, Slots, Geometry.WellFormed, Opened, OnSlot, Table, Orderly, Faithful,
         Acceptable, DotName, SegmentEnd, IsObject, Live, Listed, Refused, ShortChosen, HasReserved;
    names := [];
    ghost var o, places;
    res, o := Create(fs, dp, cp, lfn, path, p0);
    if res != FrOk { return; }
    OnSlotSize(fs, dp);
    ghost var t2 := Table(fs, dp);
    res, names, places := ListNames(fs, dp, cp, lfn);
    if Orderly(t2) { AllLive(cp, t2); }
  }

  lemma AllLive(cp: CodePage, t: seq<Slot>)
    requires Orderly(t)
    ensures forall o: Obj :: IsObject(cp, t, o) ==> Live(t, o.a + o.n)
  {
    hide IsObject, Live;
    forall o: Obj | IsObject(cp, t, o)
      ensures Live(t, o.a + o.n)
    {
      ObjectLive(cp, t, o);
    }
  }
}
