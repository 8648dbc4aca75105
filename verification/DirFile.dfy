/** Files in directories: f_open creating one, and what work on it means for the directory its entry is in. */
module DirFile {
  import opened Bytes
  import opened Arith
  import opened Volume
  import opened Window
  import opened Forest
  import opened Chains
  import opened FileBytes
  import opened FileSteps
  import opened FatFile
  import opened FileTruncate
  import opened FileSync
  import opened FileKeep
  import opened FileRun
  import opened Names
  import opened NameEntries
  import opened DirTable
  import opened DirSlots
  import opened DirWrite
  import opened DirRead
  import opened DirList

  // ---------- the entry of a file ----------

  /** The entry f_open makes of a fresh one: attribute, both times, no cluster, no bytes. */
  function CreatedEntry(g: Geometry, s: Slot, tm: u32): (r: Slot)
  {
    var a := StDword(s, 14, tm);
    var b := StDword(a, 22, tm);
    var c := StClust(g, b[11 := 0x20], 0, 0);
    StDword(c, 28, 0)
  }

  /** It is an empty file with the same name and case flags. */
  lemma CreatedBytes(g: Geometry, s: Slot, tm: u32)
    ensures var r := CreatedEntry(g, s, tm);
      && r[..11] == s[..11] && r[12] == s[12] && Attr(r) == 0x20 && LdClust(g, r, 0) == 0 && LdDword(r, 28) == 0
      && LdDword(r, 14) == tm && LdDword(r, 22) == tm
      && (s[0] != 0 && s[0] != DDEM && s[0] != DOT ==> FileEntry(r))
  {
    var a := StDword(s, 14, tm);
    var b := StDword(a, 22, tm);
    var c := StClust(g, b[11 := 0x20], 0, 0);
    DwordRoundTrip(s, 14, tm);
    DwordRoundTrip(a, 22, tm);
    ClustReadsBack(g, b[11 := 0x20], 0, 0);
    var r := StDword(c, 28, 0);
    DwordRoundTrip(c, 28, 0);
    SameBytesLoad(g, c, r, 0);
  }

  /** A fresh entry has no clusters f_open would have to remove. */
  lemma FreshNoClusters(g: Geometry, fn: seq<byte>, body: bool, ext: bool)
    requires |fn| == 11
    ensures LdClust(g, ShortEntry(fn, body, ext), 0) == 0
  {
  }

  /** f_sync's update of a file entry takes no object away from the directory and adds none, and none changes its
      name. */
  lemma SyncedObject(cp: CodePage, t: seq<Slot>, k: nat, g: Geometry, sclust: u32, size: u32, tm: u32)
    requires k < |t| && FileEntry(t[k])
    ensures var u := t[k := UpdatedEntry(g, t[k], 0, sclust, size, tm)];
      (forall o: Obj :: IsObject(cp, u, o) <==> IsObject(cp, t, o)) && (Orderly(u) <==> Orderly(t))
  {
    hide FileEntry, IsObject, Orderly, UpdatedEntry;
    var s := UpdatedEntry(g, t[k], 0, sclust, size, tm);
    UpdatedBytes(g, t[k], 0, sclust, size, tm);
    ArchivedFile(t[k], s);
    EntryEdited(cp, t, k, s);
  }

  lemma ArchivedFile(s: Slot, r: Slot)
    requires FileEntry(s) && r[0] == s[0] && (r[11] == s[11] || r[11] == WithArchive(s[11]))
    ensures FileEntry(r)
  {
  }

  // ---------- f_open ----------

  /** Slot `k` of the directory is the entry at (sect, o). */
  ghost predicate EntryAt(g: Geometry, ch: seq<nat>, k: nat, sect: u32, o: nat) {
    g.csize > 0 && k < NumSlots(g, ch) && sect as int == TableSect(g, ch, k / 16) && o == 32 * (k % 16)
  }

  lemma LoadedEntry(fs: Fatfs, dp: Dir, k: nat)
    requires Opened(fs, dp) && Loaded(fs, dp, k)
    ensures fs.winsect == dp.sect && EntryAt(fs.g, dp.ch, k, dp.sect, dp.dptr % 512)
    ensures 0 < dp.sect < |fs.disk| && Plain(fs.g, dp.sect)
  {
    hide TableSect, TableSize, Fatfs.Valid, WinState.Logical, Layout, DirLayout, GoodChain;
    OpenedBasics(fs, dp);
    SlotOffset(k);
    TableSectFacts(fs.g, |fs.disk|, dp.ch, k / 16);
  }

  /** The initial state of the entry under the cursor. */
  method InitEntry(fs: Fatfs, dp: Dir, tm: u32, ghost k: nat)
    requires Opened(fs, dp) && Loaded(fs, dp, k)
    modifies fs`wflag, fs.win
    ensures Opened(fs, dp) && Loaded(fs, dp, k) && k < |old(Table(fs, dp))| && fs.wflag
    ensures Table(fs, dp) == old(Table(fs, dp))[k := CreatedEntry(fs.g, old(Table(fs, dp)[k]), tm)]
  {
    hide FatOf, WinState.Logical, Slots, Geometry.WellFormed, Layout, DirLayout, GoodChain, IsChain, TableSect,
         WinState.Coherent, NumSlots, TableSize, TableOf, InSector, MirroredBut, WellLogged, CreatedEntry;
    OpenedBasics(fs, dp);
    LoadedSlot(fs, dp, k);
    ghost var a, t := fs.St(), Table(fs, dp);
    CoherentNow(fs);
    var o := dp.dptr % 512;
    var e := CreatedEntry(fs.g, fs.win[o..o + 32], tm);
    CopyInto(fs.win, o, e);
    fs.wflag := true;
    assert fs.win[o..o + 32] == e;
    StoreSlot(fs, dp, k, a, t);
  }

  /** f_open with a creating mode, for a name the directory does not have: create_name, dir_register, the entry's
      initial state, the file object. The new file is empty, and an object of the directory beside all others. */
  method CreateFile(fs: Fatfs, dp: Dir, cp: CodePage, lfn: array<u16>, path: seq<byte>, p0: nat, read: bool,
                    write: bool, tm: u32)
    returns (res: FResult, fp: Fil?, ghost o: Obj)
    requires Opened(fs, dp) && dp.fn.Length == 11 && dp.fn != fs.win && lfn.Length == 256 && Faithful(cp)
    requires p0 <= |path|
    modifies fs, fs.win, dp, dp.fn, lfn
    ensures !Acceptable(cp, Segment(path, p0)) || DotName(Segment(path, p0)) <==> res == FrInvalidName
    ensures res == FrOk || res == FrDenied || res == FrInvalidName || res == FrDiskErr
            || (res == FrIntErr && HasReserved(old(fs.fat)))
    ensures res == FrDenied ==> Opened(fs, dp)
    ensures res == FrDenied ==> Refused(fs, dp, old(Table(fs, dp)), cp, NameOf(Segment(path, p0)))
    ensures res == FrOk ==> ShortChosen(old(Table(fs, dp)), cp, o.bytes, o.fn)
    ensures res == FrOk ==> Opened(fs, dp) && o.bytes == NameOf(Segment(path, p0))
    ensures res == FrOk && old(Orderly(Table(fs, dp))) ==> Orderly(Table(fs, dp)) && IsObject(cp, Table(fs, dp), o)
    ensures res == FrOk ==> forall x: Obj :: IsObject(cp, old(Table(fs, dp)), x) ==> IsObject(cp, Table(fs, dp), x)
    ensures res == FrOk ==> var k := o.a + o.n;
      && k < |Table(fs, dp)| && FileEntry(Table(fs, dp)[k]) && Attr(Table(fs, dp)[k]) == 0x20
      && LdClust(fs.g, Table(fs, dp)[k], 0) == 0 && LdDword(Table(fs, dp)[k], 28) == 0
    ensures res == FrOk ==> fp != null && fresh(fp) && fresh(fp.buf) && fp.canRead == read && fp.canWrite == write
    ensures res == FrOk ==> EntryAt(fs.g, dp.ch, o.a + o.n, fp.dirSect, fp.dirOfs)
    ensures res == FrOk ==> fp.modified && fp.err == FrOk && fp.ch == [] && fp.sect == 0 && fp.fptr == 0
    ensures res == FrOk ==> Open(fs, fp) && AtRest(fs.g, fp.State()) && FileBytesOf(fs, fp) == []
    ensures res == FrOk ==> fs.wflag && fs.winsect == fp.dirSect
    ensures res == FrOk ==> Kept(old(fs.fat), old(fs.freeClst), fs.fat, fs.freeClst)
    ensures res == FrDiskErr ==> Faulted(old(fs.medium), fs.medium)
    ensures Onward(old(fs.medium), fs.medium)
  {
    hide Fatfs.Valid, WinState.Logical, Slots, Geometry.WellFormed, Opened, OnSlot, Table, Faithful, Acceptable,
         DotName, UsableShort, SegmentEnd, Kept, IsObject, Orderly, FreshShort, Loaded, CreatedEntry, FileEntry,
         Refused, ShortChosen, ShortEntry, EntryAt, Plain;
    fp := null;
    OnSlotSize(fs, dp);
    res, o := Create(fs, dp, cp, lfn, path, p0);
    if res != FrOk { return; }
    OnSlotSize(fs, dp);
    ghost var k, t := o.a + o.n, Table(fs, dp);
    LoadedSlot(fs, dp, k);
    FreshFacts(fs, dp, t, k, tm);
    assert LdClust(fs.g, t[k], 0) == 0;    // no old chain to remove
    InitEntry(fs, dp, tm, k);
    OnSlotSize(fs, dp);
    LoadedEntry(fs, dp, k);
    EntryEdited(cp, t, k, CreatedEntry(fs.g, t[k], tm));
    LoadedSlot(fs, dp, k);
    fp := new Fil(read, write, fs.winsect, dp.dptr % 512, 0, 0, []);
    fp.modified := true;
    EmptyFile(fs, dp, fp);
  }

  lemma FreshFacts(fs: Fatfs, dp: Dir, t: seq<Slot>, k: nat, tm: u32)
    requires FreshShort(t, k, dp) && UsableShort(dp.fn[..])
    ensures k < |t| && FileEntry(t[k]) && LdClust(fs.g, t[k], 0) == 0
    ensures var e := CreatedEntry(fs.g, t[k], tm);
      && FileEntry(e) && e[..11] == t[k][..11] && e[12] == t[k][12] && Attr(e) == 0x20
      && LdClust(fs.g, e, 0) == 0 && LdDword(e, 28) == 0
  {
    hide CreatedEntry, LdClust, LdDword;
    CreatedBytes(fs.g, t[k], tm);
    FreshIsShort(dp.fn[..], dp.flags.body, dp.flags.ext);
    ShortIsFile(t[k], dp.fn[..], dp.flags.body, dp.flags.ext);
    FreshNoClusters(fs.g, dp.fn[..], dp.flags.body, dp.flags.ext);
  }

  lemma EmptyFile(fs: Fatfs, dp: Dir, fp: Fil)
    requires Opened(fs, dp) && fp.buf.Length == 512 && fp.buf != fs.win
    requires fp.State() == FileState([], 0, 0, 0, fp.clust, 0, false, fp.buf[..])
    ensures Open(fs, fp) && AtRest(fs.g, fp.State()) && FileBytesOf(fs, fp) == []
  {
    OpenedBasics(fs, dp);
    NoSectors(fs.g, fs.winsect);
  }

  // ---------- the directory while its file is worked on ----------

  /** The directory has the clusters `ch`, none of them the file's. */
  ghost predicate DirOf(g: Geometry, b: Moment, sclust: nat, ch: seq<nat>) {
    && g.WellFormed(|b.st.disk|) && Layout(g) && DirLayout(g) && TableOf(g, b.fat, sclust, ch) && Disjoint(ch, b.f.ch)
  }

  /** The sectors of a directory are foreign to the file. */
  lemma TableForeign(g: Geometry, b: Moment, sclust: nat, ch: seq<nat>, i: nat)
    requires DirOf(g, b, sclust, ch) && i < TableSize(g, ch)
    ensures 0 < TableSect(g, ch, i) < |b.st.disk| < 0xFFFF_FFFF && Foreign(g, b, TableSect(g, ch, i))
  {
    hide Geometry.WellFormed, Layout, Sect, Idx, Off, Plain;
    if ch != [] { ChainIsGood(g, b.fat, ch); }
    TableSectFacts(g, |b.st.disk|, ch, i);
    if ch != [] {
      SectorIndex(g, |ch|, i);
      OffRange(g, i);
      var d, j := ch[Idx(g, i)], Off(g, i);
      ChainStep(b.fat, ch, Idx(g, i));
      assert 2 <= d < |b.fat| && b.fat[d] != 0 && d !in b.f.ch && 0 <= j < g.csize;
      assert Sect(g, d, j) == TableSect(g, ch, i);
    } else {
      RootAboveFat(g, |b.st.disk|, i);
    }
  }

  lemma RootAboveFat(g: Geometry, nsect: nat, i: nat)
    requires g.WellFormed(nsect) && DirLayout(g) && (g.fsType == Fat12 || g.fsType == Fat16) && i < g.nRootdir / 16
    ensures g.fatbase <= g.dirbase + i < g.database
  {
  }

  /** It stays a directory with the same clusters. */
  lemma DirStays(g: Geometry, sect: u32, o: nat, b: Moment, c: Moment, whole: bool, sclust: nat, ch: seq<nat>)
    requires DirOf(g, b, sclust, ch) && Spares(g, sect, o, b, c, whole)
    ensures DirOf(g, c, sclust, ch)
  {
    hide Geometry.WellFormed, Layout, Foreign, EntryOnly;
    if ch != [] {
      forall i | 0 <= i < |ch|
        ensures c.fat[ch[i]] == b.fat[ch[i]] && ch[i] !in c.f.ch
      {
        ChainStep(b.fat, ch, i);
        assert b.fat[ch[i]] != 0;
      }
      KeptChain(b.fat, c.fat, ch);
    }
  }

  /** One slot of `u` is perhaps different from `t`, but it is a file entry as before, with the same name. */
  ghost predicate SlotUpdated(t: seq<Slot>, u: seq<Slot>, k: nat) {
    && |u| == |t| && k < |t| && (forall j :: 0 <= j < |t| && j != k ==> u[j] == t[j])
    && u[k][..11] == t[k][..11] && u[k][12] == t[k][12] && (FileEntry(t[k]) ==> FileEntry(u[k]))
  }

  /** Work on a file, f_sync included, changes nothing of the directory but its entry, and there neither name nor case
      flags. */
  lemma TableSpared(g: Geometry, sect: u32, o: nat, b: Moment, c: Moment, sclust: nat, ch: seq<nat>, k: nat)
    requires DirOf(g, b, sclust, ch) && Spares(g, sect, o, b, c, true) && EntryAt(g, ch, k, sect, o)
    ensures SlotUpdated(Slots(g, b.st.Logical(), ch), Slots(g, c.st.Logical(), ch), k)
  {
    hide Geometry.WellFormed, Layout, Foreign, EntryOnly, TableSect, TableSize, WinState.Logical, FileEntry, DirOf;
    var t, u := Slots(g, b.st.Logical(), ch), Slots(g, c.st.Logical(), ch);
    forall j | 0 <= j < |t|
      ensures j != k ==> u[j] == t[j]
      ensures j == k ==> u[k][..11] == t[k][..11] && u[k][12] == t[k][12] && (FileEntry(t[k]) ==> FileEntry(u[k]))
    {
      TableForeign(g, b, sclust, ch, j / 16);
      var s: u32 := TableSect(g, ch, j / 16);
      assert Foreign(g, b, s);
      if s == sect {
        DirOneSector(g, b, sclust, ch, j, k);
        SlotInSector(b.st.Logical()[sect], c.st.Logical()[sect], k % 16, j % 16) by {
          EntryOnlySector(b.st, c.st, sect, k % 16);
        }
        if j % 16 == k % 16 {
          SameDivMod(j, k, 16);
          assert u[k][0] == u[k][..11][0] && t[k][0] == t[k][..11][0];
          if FileEntry(t[k]) { ArchivedFile(t[k], u[k]); }
        }
      } else {
        assert j != k;
      }
    }
  }

  lemma DirOneSector(g: Geometry, b: Moment, sclust: nat, ch: seq<nat>, j: nat, k: nat)
    requires DirOf(g, b, sclust, ch) && j < NumSlots(g, ch) && k < NumSlots(g, ch)
    requires TableSect(g, ch, j / 16) == TableSect(g, ch, k / 16)
    ensures j / 16 == k / 16
  {
    hide TableSect, Geometry.WellFormed, Layout;
    if ch != [] { ChainIsGood(g, b.fat, ch); }
    TableSectInjective(g, ch, j / 16, k / 16);
  }

  /** What EntryOnly says of two contents of the sector. */
  ghost predicate SectorUpdated(v: seq<byte>, w: seq<byte>, o: nat) {
    && |v| == |w| == 512 && o + 32 <= 512
    && (forall i :: 0 <= i < 512 && i != o + 11 && !(o + 13 <= i < o + 32) ==> w[i] == v[i])
    && (w[o + 11] == v[o + 11] || w[o + 11] == WithArchive(v[o + 11]))
  }

  lemma EntryOnlySector(a: WinState, b: WinState, sect: u32, i: nat)
    requires EntryOnly(a, b, sect, 32 * i) && i < 16
    ensures SectorUpdated(a.Logical()[sect], b.Logical()[sect], 32 * i)
  {
  }

  lemma SlotInSector(v: seq<byte>, w: seq<byte>, k: nat, j: nat)
    requires j < 16 && k < 16 && SectorUpdated(v, w, 32 * k)
    ensures var s, r := v[32 * j..32 * j + 32], w[32 * j..32 * j + 32];
      && (j != k ==> r == s)
      && (j == k ==> r[..11] == s[..11] && r[12] == s[12] && (r[11] == s[11] || r[11] == WithArchive(s[11])))
  {
    if j < k {
      assert 32 * j + 32 <= 32 * k;
    } else if j > k {
      assert 32 * k + 32 <= 32 * j;
    }
  }

  // ---------- create, work, list ----------

  /** For the new file everything the run needs is in place. */
  lemma CreatedReady(fs: Fatfs, dp: Dir, fp: Fil, k: nat, buff: array<byte>)
    requires Opened(fs, dp) && Open(fs, fp) && AtRest(fs.g, fp.State()) && fp.err == FrOk && fp.modified
    requires fp.ch == [] && fp.sect == 0 && EntryAt(fs.g, dp.ch, k, fp.dirSect, fp.dirOfs)
    requires fs.wflag && fs.winsect == fp.dirSect && CountKnown(fs.fat, fs.freeClst)
    requires buff != fs.win && buff != fp.buf
    ensures Ready(fs, fp, buff) && DirOf(fs.g, Snapshot(fs, fp), dp.sclust, dp.ch)
    ensures Table(fs, dp) == Slots(fs.g, fs.St().Logical(), dp.ch)
  {
    hide Fatfs.Valid, Geometry.WellFormed, Layout, DirLayout, TableOf, TableSect, TableSize, Core, AtRest, CountKnown,
         Slots, WinState.Logical, EntryHome;
    OpenedBasics(fs, dp);
    TableForeign(fs.g, Snapshot(fs, fp), dp.sclust, dp.ch, k / 16);
    HomePlace(fs.g, |fs.disk|, fs.fat, fp.ch, fp.dirSect, 0);
    HomeElsewhere(fs.g, |fs.disk|, fs.fat, fp.ch, fp.dirSect, fp.dirOfs);
    HomeNotBoot(fs.g, |fs.disk|, fs.fat, fp.ch, fp.dirSect, fp.dirOfs);
  }

  lemma HomeElsewhere(g: Geometry, nsect: nat, fat: seq<nat>, ch: seq<nat>, sect: u32, o: nat)
    requires EntryHome(g, nsect, fat, ch, sect, 0) && o + 32 <= 512
    ensures EntryHome(g, nsect, fat, ch, sect, o)
  {
  }

  /** Objects of a directory of which one file entry was updated. */
  lemma ObjectsKept(cp: CodePage, t: seq<Slot>, u: seq<Slot>, k: nat)
    requires SlotUpdated(t, u, k) && FileEntry(t[k])
    ensures (forall o: Obj :: IsObject(cp, u, o) <==> IsObject(cp, t, o)) && (Orderly(u) <==> Orderly(t))
  {
    hide IsObject, Orderly, FileEntry;
    assert u == t[k := u[k]];
    EntryEdited(cp, t, k, u[k]);
  }

  /** Do whatever you like with an open file of an orderly directory - write, read, seek, truncate, sync - and list the
      directory: it has the objects it had, and the names of all of them are listed. */
  method WorkAndList(fs: Fatfs, dp: Dir, cp: CodePage, lfn: array<u16>, fp: Fil, ops: seq<Op>, buff: array<byte>,
                     ghost k: nat)
    returns (res: FResult, names: seq<seq<byte>>, ghost views: seq<View>)
    requires Opened(fs, dp) && lfn.Length == 256 && Ready(fs, fp, buff)
    requires DirOf(fs.g, Snapshot(fs, fp), dp.sclust, dp.ch)
    requires EntryAt(fs.g, dp.ch, k, fp.dirSect, fp.dirOfs) && FileEntry(Table(fs, dp)[k])
    requires forall i :: 0 <= i < |ops| && ops[i].Write? ==> |ops[i].data| <= 0xFFFF_FFFF
    requires forall i :: 0 <= i < |ops| && ops[i].Read? ==> ops[i].n <= buff.Length
    modifies fs, fs.win, fp, fp.buf, dp`ch, dp`sect, dp`clust, dp`dptr, dp`blkOfs, lfn, buff
    // carried out to its end if the device does not fail
    ensures AllPermitted(ops, fp.canRead, fp.canWrite) && !HasReserved(old(fs.fat)) ==>
      res == FrOk || fs.medium.faults > old(fs.medium.faults)
    ensures res != FrInvalidName && (AllPermitted(ops, fp.canRead, fp.canWrite) ==> res != FrDenied)
    ensures res == FrOk ==> IsRun(ops, fp.canWrite, views) && views[0] == old(Now(fs, fp, []))
    ensures res == FrOk ==> Opened(fs, dp) && (Orderly(Table(fs, dp)) <==> old(Orderly(Table(fs, dp))))
    ensures res == FrOk ==> forall o: Obj :: IsObject(cp, Table(fs, dp), o) <==> IsObject(cp, old(Table(fs, dp)), o)
    ensures res == FrOk && old(Orderly(Table(fs, dp))) ==>
      forall o: Obj :: IsObject(cp, old(Table(fs, dp)), o) ==> o.bytes in names
    ensures res == FrDiskErr ==> Faulted(old(fs.medium), fs.medium)
    ensures Onward(old(fs.medium), fs.medium)
  {
    hide Fatfs.Valid, WinState.Logical, Slots, Geometry.WellFormed, Opened, OnSlot, Table, Orderly, IsObject, Live,
         Listed, Open, Ready, IsRun, Considerate, FileEntry, EntryAt, DirOf, SlotUpdated, Now;
    names, views := [], [];
    OnSlotSize(fs, dp);
    TableIs(fs, dp);
    ghost var t, b := Table(fs, dp), Snapshot(fs, fp);
    ReadyParts(fs, fp, buff);
    var done;
    res, done, views := RunOps(fs, fp, ops, buff);
    ConsiderateOnward(fs.g, fp.dirSect, fp.dirOfs, b, Snapshot(fs, fp), res, res == FrOk || !ops[done].Sync?);
    if res != FrOk { return; }
    assert ops[..done] == ops;
    WorkedTable(fs, dp, fp, b, k);
    OnSlotSize(fs, dp);
    ghost var u := Table(fs, dp);
    ObjectsKept(cp, t, u, k);
    ghost var places;
    res, names, places := ListNames(fs, dp, cp, lfn);
    if Orderly(u) { AllLive(cp, u); }
  }

  lemma TableIs(fs: Fatfs, dp: Dir)
    requires fs.g.csize > 0
    ensures Table(fs, dp) == Slots(fs.g, fs.St().Logical(), dp.ch)
  {
  }

  /** The same from the creation of the file on: the new name is listed too, and the run starts with an empty file. */
  method CreateWorkList(fs: Fatfs, dp: Dir, cp: CodePage, lfn: array<u16>, path: seq<byte>, p0: nat, read: bool,
                        write: bool, tm: u32, ops: seq<Op>, buff: array<byte>)
    returns (res: FResult, names: seq<seq<byte>>, fp: Fil?, ghost views: seq<View>)
    requires Opened(fs, dp) && dp.fn.Length == 11 && dp.fn != fs.win && lfn.Length == 256 && Faithful(cp)
    requires p0 <= |path| && CountKnown(fs.fat, fs.freeClst) && buff != fs.win && buff != dp.fn
    requires forall i :: 0 <= i < |ops| && ops[i].Write? ==> |ops[i].data| <= 0xFFFF_FFFF
    requires forall i :: 0 <= i < |ops| && ops[i].Read? ==> ops[i].n <= buff.Length
    modifies fs, fs.win, dp, dp.fn, lfn, buff
    // without a failure of the device only the name can be refused, or the place for it
    ensures fs.medium.faults == old(fs.medium.faults) && !HasReserved(old(fs.fat)) && AllPermitted(ops, read, write) ==>
      res == FrOk || res == FrDenied || res == FrInvalidName
    ensures !Acceptable(cp, Segment(path, p0)) || DotName(Segment(path, p0)) <==> res == FrInvalidName
    ensures AllPermitted(ops, read, write) && res == FrDenied ==>
      Opened(fs, dp) && Refused(fs, dp, old(Table(fs, dp)), cp, NameOf(Segment(path, p0)))
    ensures res == FrOk ==> fp != null && fresh(fp) && IsRun(ops, write, views) && views[0].c == [] && views[0].pos == 0
    ensures res == FrOk ==> Opened(fs, dp)
    ensures res == FrOk && old(Orderly(Table(fs, dp))) ==> Orderly(Table(fs, dp)) && NameOf(Segment(path, p0)) in names
    ensures res == FrOk && old(Orderly(Table(fs, dp))) ==>
      forall o: Obj :: IsObject(cp, old(Table(fs, dp)), o) ==> IsObject(cp, Table(fs, dp), o) && o.bytes in names
    ensures res == FrDiskErr ==> Faulted(old(fs.medium), fs.medium)
    ensures Onward(old(fs.medium), fs.medium)
  {
    hide Fatfs.Valid, WinState.Logical, Slots, Geometry.WellFormed, Opened, OnSlot, Table, Orderly, Faithful,
         Acceptable, DotName, SegmentEnd, IsObject, Open, AtRest, Ready, IsRun, FileEntry, Refused, ShortChosen,
         EntryAt, DirOf, Kept, CountKnown, HasReserved;
    names, views := [], [];
    ghost var o, free0, fat0 := Obj(0, 0, [], [], false, false), fs.freeClst, fs.fat;
    res, fp, o := CreateFile(fs, dp, cp, lfn, path, p0, read, write, tm);
    if res != FrOk { return; }
    StillKnown(fat0, free0, fs.fat, fs.freeClst);
    ghost var k := o.a + o.n;
    CreatedReady(fs, dp, fp, k, buff);
    OnSlotSize(fs, dp);
    res, names, views := WorkAndList(fs, dp, cp, lfn, fp, ops, buff, k);
  }

  lemma StillKnown(a: seq<nat>, freeA: u32, b: seq<nat>, freeB: u32)
    requires Kept(a, freeA, b, freeB) && CountKnown(a, freeA)
    ensures CountKnown(b, freeB) && (HasReserved(b) ==> HasReserved(a))
  {
  }

  /** The directory after the run. */
  lemma WorkedTable(fs: Fatfs, dp: Dir, fp: Fil, b: Moment, k: nat)
    requires fs.Valid() && DirOf(fs.g, b, dp.sclust, dp.ch) && EntryAt(fs.g, dp.ch, k, fp.dirSect, fp.dirOfs)
    requires Considerate(fs.g, fp.dirSect, fp.dirOfs, b, Snapshot(fs, fp), FrOk, true)
    ensures Opened(fs, dp) && SlotUpdated(Slots(fs.g, b.st.Logical(), dp.ch), Table(fs, dp), k)
  {
    hide Fatfs.Valid, Spares, KeepsStored, Rooted, StaysSafe, SlotUpdated, WinState.Logical, Slots, Geometry.WellFormed,
         Layout, DirLayout, TableOf;
    DirStays(fs.g, fp.dirSect, fp.dirOfs, b, Snapshot(fs, fp), true, dp.sclust, dp.ch);
    TableSpared(fs.g, fp.dirSect, fp.dirOfs, b, Snapshot(fs, fp), dp.sclust, dp.ch, k);
  }
}
