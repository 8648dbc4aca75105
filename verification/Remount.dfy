/** Across a power cycle: run, sync, power off, mount, open. */
module Remount {
  import opened Bytes
  import opened Volume
  import opened Window
  import opened Forest
  import opened Chains
  import opened FileBytes
  import opened FileSteps
  import opened FatFile
  import opened FileSync
  import opened FileKeep
  import opened FileRun
  import opened FreeSpace
  import opened Mount

  /** A file stored on a medium, opened through its directory entry on the freshly mounted volume, has the stored
      bytes. */
  lemma OpenedStored(g: Geometry, disk: seq<Sector>, st: WinState, sect: u32, o: nat, fat: seq<nat>, ch: seq<nat>,
                     bytes: seq<byte>, f: FileState)
    requires Stores(g, disk, sect, o, fat, ch, bytes) && g.csize > 0
    requires st.disk == disk && !st.wflag && !InFile(g, ch, st.winsect)
    requires f.ch == ch && f.sclust as nat == LdClust(g, disk[sect], o) && f.objsize == LdDword(disk[sect], o + 28)
    requires f.fptr == 0 && f.sect == 0 && !f.dirty && |f.buf| == 512
    ensures Core(g, fat, st, f) && AtRest(g, f) && Content(g, disk, f) == bytes
    ensures SavedAt(g, st, false, sect, o, f)
  {
    hide Idx, Off, SectorOf, Capacity, LdClust, LdDword, Entry, IsChain, ByteAt;
    forall p | 0 <= p < |bytes|
      ensures Content(g, disk, f)[p] == bytes[p]
    {
      ByteIndex(g, ch, p);
      ByteIs(g, disk, f, p);
    }
    assert Content(g, disk, f) == bytes;
  }

  /** The same geometry, but perhaps for the use of FSInfo. */
  predicate SameBut(g: Geometry, g2: Geometry) {
    g2 == g.(fsinfo := g2.fsinfo)
  }

  lemma FatSame(g: Geometry, g2: Geometry, disk: seq<Sector>, fat: seq<nat>)
    requires FatOf(g, disk, fat) && SameBut(g, g2) && g2.WellFormed(|disk|)
    ensures FatOf(g2, disk, fat)
  {
    forall c | 0 <= c < |fat|
      ensures Entry(g2, disk, c) == Entry(g, disk, c)
    {
    }
  }

  lemma PlacesSame(g: Geometry, g2: Geometry, ch: seq<nat>, k: nat)
    requires SameBut(g, g2)
    ensures g.csize > 0 ==> Idx(g2, k) == Idx(g, k) && (Idx(g, k) < |ch| ==> SectorOf(g2, ch, k) == SectorOf(g, ch, k))
    ensures Capacity(g2, ch) == Capacity(g, ch) && (GoodChain(g, ch) ==> GoodChain(g2, ch))
    ensures Layout(g) ==> Layout(g2)
  {
  }

  lemma EntrySame(g: Geometry, g2: Geometry, s: seq<byte>, o: nat)
    requires SameBut(g, g2) && o + 32 <= |s|
    ensures LdClust(g2, s, o) == LdClust(g, s, o)
  {
  }

  /** The use of FSInfo plays no part in what a medium stores. */
  lemma StoresSame(g: Geometry, g2: Geometry, disk: seq<Sector>, sect: u32, o: nat, fat: seq<nat>, ch: seq<nat>,
                   bytes: seq<byte>)
    requires Stores(g, disk, sect, o, fat, ch, bytes) && SameBut(g, g2) && g2.WellFormed(|disk|) && g.csize > 0
    ensures Stores(g2, disk, sect, o, fat, ch, bytes)
  {
    hide Idx, SectorOf, Capacity, GoodChain, Layout, LdClust, FatOf, IsChain, Geometry.WellFormed, LdDword;
    FatSame(g, g2, disk, fat);
    PlacesSame(g, g2, ch, 0);
    EntrySame(g, g2, disk[sect], o);
    forall p | 0 <= p < |bytes|
      ensures Idx(g2, p / 512) < |ch| && 0 <= SectorOf(g2, ch, p / 512) < |disk|
        && bytes[p] == disk[SectorOf(g2, ch, p / 512)][p % 512]
    {
      PlacesSame(g, g2, ch, p / 512);
    }
  }

  /** The window over the boot sector, FSInfo or nothing shows no sector of a file. */
  lemma WindowOutside(g: Geometry, nsect: nat, ch: seq<nat>, s: u32)
    requires g.WellFormed(nsect) && Layout(g) && GoodChain(g, ch)
    requires s as int == g.volbase || s as int == g.volbase + 1 || s == INVALID_SECTOR
    ensures !InFile(g, ch, s)
  {
    hide Idx, Off, Sect;
    forall k: nat | Idx(g, k) < |ch|
      ensures SectorOf(g, ch, k) != s as int
    {
      SectorOfRange(g, nsect, ch, k);
    }
  }

  /** What SyncAndMount leaves, if the medium stored the file. */
  lemma Reopened(fs2: Fatfs, fp2: Fil, g: Geometry, sect: u32, o: nat, ch: seq<nat>, bytes: seq<byte>)
    requires fs2.Valid() && !fs2.wflag && FatOf(fs2.g, fs2.disk, fs2.fat) && !fs2.medium.damaged
    requires fs2.g.fsType != ExFat
    requires fs2.winsect as int == g.volbase || fs2.winsect as int == g.volbase + 1 || fs2.winsect == INVALID_SECTOR
    requires SameBut(g, fs2.g) && g.csize > 0 && sect < |fs2.disk| && o + 32 <= 512
    requires exists fat :: Stores(g, fs2.disk, sect, o, fat, ch, bytes)
    requires fp2.buf.Length == 512 && fp2.buf != fs2.win && fp2.dirSect == sect && fp2.dirOfs == o && fp2.ch == ch
    requires fp2.sclust as nat == LdClust(fs2.g, fs2.disk[sect], o)
    requires fp2.objsize == LdDword(fs2.disk[sect], o + 28)
    requires fp2.fptr == 0 && fp2.sect == 0 && !fp2.dirty
    ensures Open(fs2, fp2) && AtRest(fs2.g, fp2.State()) && FileBytesOf(fs2, fp2) == bytes && Saved(fs2, fp2)
  {
    hide Fatfs.Valid, LdClust, LdDword, FatOf, Geometry.WellFormed, Stores, InFile, Core, AtRest, Content, SavedAt,
         GoodChain, Layout;
    ValidBasics(fs2);
    var fat :| Stores(g, fs2.disk, sect, o, fat, ch, bytes);
    StoresSame(g, fs2.g, fs2.disk, sect, o, fat, ch, bytes);
    StoredPlace(fs2.g, fs2.disk, sect, o, fat, ch, bytes);
    FatOfUnique(fs2.g, fs2.disk, fat, fs2.fat);
    WindowOutside(fs2.g, |fs2.disk|, ch, fs2.winsect);
    OpenedStored(fs2.g, fs2.disk, fs2.St(), sect, o, fat, ch, bytes, fp2.State());
    assert Unbuffered(fp2.State()) == fp2.State();
  }

  lemma StoredPlace(g: Geometry, disk: seq<Sector>, sect: u32, o: nat, fat: seq<nat>, ch: seq<nat>, bytes: seq<byte>)
    requires Stores(g, disk, sect, o, fat, ch, bytes)
    ensures g.WellFormed(|disk|) && Layout(g) && GoodChain(g, ch) && FatOf(g, disk, fat)
  {
    hide FatOf, LdClust, LdDword, Capacity, Idx, SectorOf, GoodChain, Layout, Geometry.WellFormed;
  }

  /** Mounted anew from a medium that shows the current FAT, the volume has this FAT. */
  lemma SameFatMounted(fs: Fatfs, fs2: Fatfs)
    requires fs.Valid() && fs.medium.at == |fs.log| - 1 && !fs.medium.damaged
    requires fs2.disk == fs.disk && SameBut(fs.g, fs2.g)
    requires fs2.g.WellFormed(|fs.disk|) && FatOf(fs2.g, fs.disk, fs2.fat)
    ensures fs2.fat == fs.fat
  {
    hide Fatfs.Valid, FatOf, Geometry.WellFormed;
    MediumNow(fs);
    FatSame(fs.g, fs2.g, fs.disk, fs.fat);
    FatOfUnique(fs2.g, fs.disk, fs.fat, fs2.fat);
  }

  /** Counts that are not marked as changed are in FSInfo, if it got what was sent to it. */
  lemma CountsStored(fs: Fatfs)
    requires fs.Valid() && fs.g.fsinfo && !fs.fsiDirty && fs.medium.sent
    ensures fs.g.volbase + 1 < |fs.disk| && InfoCounts(fs.disk[fs.g.volbase + 1]) == (fs.freeClst, fs.lastClst)
  {
    hide MirroredBut, WellLogged, FatOf, WinState.Coherent, WinState.Logical, InfoCounts;
  }

  /** Mounted with the same counts, or none if FSInfo cannot be read. What does it is that FSInfo was in use before and
      got what was sent to it; unless that fails, the device has failed. */
  ghost predicate CountsCarried(fs: Fatfs, fs2: Fatfs)
    reads fs, fs2
  {
    fs2.g.fsinfo ==> fs.g.fsinfo && fs.medium.sent
  }

  /** Power off at any moment, mount, open: if the medium stores the file, the application finds the bytes it had. If
      the medium shows the current FAT, the volume has it; counts not marked as changed are taken over. */
  method PowerCycle(fs: Fatfs, fp: Fil) returns (fs2: Fatfs, fp2: Fil)
    requires Storable(fs, fp) && EntryPlace(fs.g, |fs.disk|, fp.dirSect, fp.dirOfs)
    requires MountedFrom(fs.disk, fs.g.volbase, fs.g) && SoundFields(Fields(Boot(fs)), fs.g.volbase, |fs.disk|)
    ensures fresh(fs2) && fresh(fs2.win) && fresh(fp2) && fs2.disk == fs.disk && fs2.Valid() && SameBut(fs.g, fs2.g)
    ensures OnMedium(fs, fp) ==>
      Open(fs2, fp2) && AtRest(fs2.g, fp2.State()) && fp2.fptr == 0 && !fp2.modified && Saved(fs2, fp2)
      && FileBytesOf(fs2, fp2) == StorableBytes(fs, fp)
    ensures fs.medium.at == |fs.log| - 1 && !fs.medium.damaged ==> fs2.fat == fs.fat
    ensures (fs.g.fsinfo ==> !fs.fsiDirty) && CountsCarried(fs, fs2) ==>
      (fs2.freeClst, fs2.lastClst) == if fs2.g.fsinfo then (fs.freeClst, fs.lastClst) else (0xFFFF_FFFF, 0xFFFF_FFFF)
  {
    hide Fatfs.Valid, FatOf, Geometry.WellFormed, Core, WinState.Logical, Content, InFile, Stores, LdClust, LdDword,
         AtRest, Unbuffered, Fields, IsFatVolume, Accepted, SavedAt, Layout, GoodChain, Readable, Capacity, EntryPlace,
         FitsWords, Mirrored, OnMedium, StorableBytes;
    StorableChain(fs, fp);
    StorableValid(fs, fp);
    var bsect: u32 := fs.g.volbase;
    var r2, g2, mounted := MountVolume(fs.disk, bsect);
    SameVolume(fs.disk, fs.g, fs.disk, g2, bsect);
    fs2 := mounted;
    if fs.medium.at == |fs.log| - 1 && !fs.medium.damaged { SameFatMounted(fs, fs2); }
    if fs.g.fsinfo && !fs.fsiDirty && fs.medium.sent { CountsStored(fs); }
    EntryRead(fs, fp);
    var entry := fs.disk[fp.dirSect];
    ClustFits(g2, entry, fp.dirOfs);
    fp2 := new Fil(fp.canRead, fp.canWrite, fp.dirSect, fp.dirOfs, LdClust(g2, entry, fp.dirOfs),
                   LdDword(entry, fp.dirOfs + 28), fp.ch);
    if OnMedium(fs, fp) {
      OnMediumStores(fs, fp);
      Reopened(fs2, fp2, fs.g, fp.dirSect, fp.dirOfs, fp.ch, StorableBytes(fs, fp));
    }
  }

  /** f_sync, power off, mount, open: if the file was marked as changed or the medium stored it, the application finds
      the bytes it had, those a failed call has left included; if not, the medium does not store them. */
  method SyncAndMount(fs: Fatfs, fp: Fil, tm: u32) returns (res: FResult, fs2: Fatfs?, fp2: Fil?)
    requires Storable(fs, fp) && EntryApart(fs, fp) && fp.dirSect != fs.g.volbase
    requires MountedFrom(fs.disk, fs.g.volbase, fs.g) && SoundFields(Fields(Boot(fs)), fs.g.volbase, |fs.disk|)
    requires BootClean(fs)
    modifies fs`disk, fs`wflag, fs`medium, fs`winsect, fs`fsiDirty, fs.win, fp`dirty, fp`modified
    ensures res == FrOk || res == FrDiskErr
    ensures res == FrDiskErr ==> Faulted(old(fs.medium), fs.medium)
    ensures Onward(old(fs.medium), fs.medium) && fs.Valid()
    ensures res == FrOk ==> (OnMedium(fs, fp) <==> old(fp.modified || OnMedium(fs, fp)))
    ensures res == FrOk ==> fs2 != null && fp2 != null && fresh(fs2) && fresh(fp2) && fs2.disk == fs.disk
    ensures res == FrOk && old(fp.modified || OnMedium(fs, fp)) ==>
      Open(fs2, fp2) && AtRest(fs2.g, fp2.State()) && fp2.fptr == 0 && !fp2.modified && Saved(fs2, fp2)
      && FileBytesOf(fs2, fp2) == old(StorableBytes(fs, fp))
    // the volume starts with the FAT and the counts of the moment it was synced
    ensures res == FrOk ==> fresh(fs2.win) && fs2.Valid() && SameBut(fs.g, fs2.g)
    ensures res == FrOk && old(fp.modified) ==> fs2.fat == fs.fat
    ensures old(fp.modified && fs.g.fsinfo && (fs.fsiDirty || fs.medium.sent)) ==>
      res == FrOk && fs.medium.faults == old(fs.medium.faults) ==> CountsCarried(fs, fs2)
    ensures res == FrOk && old(fp.modified) && CountsCarried(fs, fs2) ==>
      (fs2.freeClst, fs2.lastClst) == if fs2.g.fsinfo then (fs.freeClst, fs.lastClst) else (0xFFFF_FFFF, 0xFFFF_FFFF)
  {
    hide Fatfs.Valid, Geometry.WellFormed, Core, Content, InFile, Stores, AtRest, Unbuffered, Fields, IsFatVolume,
         Accepted, SyncOnly, Layout, GoodChain, Readable, Capacity, EntryPlace, FitsWords, OnMedium, Saved, Storable,
         StorableBytes, LdClust, LdDword, WinState.Logical;
    fs2, fp2 := null, null;
    StorableChain(fs, fp);
    ghost var a := fs.St();
    res := FSync(fs, fp, tm);
    StorableValid(fs, fp);
    BootSynced(fs.g, fp.ch, fp.dirSect, a, fs.St());
    if res != FrOk { return; }
    StillMounted(a.disk, fs.disk, fs.g.volbase, fs.g);
    fs2, fp2 := PowerCycle(fs, fp);
  }

  lemma StorableValid(fs: Fatfs, fp: Fil)
    requires Storable(fs, fp)
    ensures fs.Valid()
  {
  }

  /** f_getfree after f_sync, power off and mount: right if the count was right before, carried over or scanned anew. */
  method CountAfterMount(fs: Fatfs, fp: Fil, tm: u32) returns (res: FResult, fs2: Fatfs?, nclst: u32)
    requires Storable(fs, fp) && EntryApart(fs, fp) && fp.dirSect != fs.g.volbase && fp.modified
    requires MountedFrom(fs.disk, fs.g.volbase, fs.g) && SoundFields(Fields(Boot(fs)), fs.g.volbase, |fs.disk|)
    requires BootClean(fs) && CountKnown(fs.fat, fs.freeClst) && HeadSet(fs.g, fs.fat)
    modifies fs`disk, fs`wflag, fs`medium, fs`winsect, fs`fsiDirty, fs.win, fp`dirty, fp`modified
    ensures fs.fat == old(fs.fat)
    ensures res == FrOk ==> fs2 != null && (CountsCarried(fs, fs2) ==> nclst as nat == FreeCount(fs.fat))
    ensures res == FrIntErr ==> fs.g.fsType == Fat12 && exists c :: 2 <= c < |fs.fat| && fs.fat[c] == 1
    ensures res == FrOk || res == FrIntErr || res == FrDiskErr
    ensures res == FrDiskErr ==>
      Faulted(old(fs.medium), fs.medium) || (fs2 != null && fs2.medium.faults > 0)
  {
    hide Fatfs.Valid, FatOf, Geometry.WellFormed, Core, WinState.Logical, Content, Stores, Fields, IsFatVolume,
         Accepted, Readable, Capacity, EntryPlace, FitsWords, Mirrored, OnMedium, Saved, FreeCount, StorableBytes;
    nclst := 0;
    var fp2;
    res, fs2, fp2 := SyncAndMount(fs, fp, tm);
    if res != FrOk { return; }
    ValidBasics(fs2);
    MediumBound(fs2.g, |fs2.disk|);
    assert TrueFree(fs2) == FreeCount(fs.fat) && HeadSet(fs2.g, fs2.fat);
    assert CountsCarried(fs, fs2) ==> FreeKnown(fs2);
    res, nclst := FGetFree(fs2);
  }

  lemma OnMediumStores(fs: Fatfs, fp: Fil)
    requires Storable(fs, fp) && OnMedium(fs, fp)
    ensures exists fat :: Stores(fs.g, fs.disk, fp.dirSect, fp.dirOfs, fat, fp.ch, StorableBytes(fs, fp))
    ensures fs.g.csize > 0
  {
    hide Fatfs.Valid, Stores, Core, Content, GoodChain, Layout;
    var f := Unbuffered(fp.State());
    var fat :| Stores(fs.g, fs.disk, fp.dirSect, fp.dirOfs, fat, f.ch, Content(fs.g, fs.disk, f));
    assert f.ch == fp.ch && Content(fs.g, fs.disk, f) == StorableBytes(fs, fp);
    assert Stores(fs.g, fs.disk, fp.dirSect, fp.dirOfs, fat, fp.ch, StorableBytes(fs, fp));
  }

  lemma ClustFits(g: Geometry, s: seq<byte>, o: nat)
    requires o + 32 <= |s|
    ensures LdClust(g, s, o) < 0x1_0000_0000
  {
  }

  lemma EntryRead(fs: Fatfs, fp: Fil)
    requires EntryPlace(fs.g, |fs.disk|, fp.dirSect, fp.dirOfs)
    ensures fp.dirSect < |fs.disk| && fp.dirOfs + 32 <= 512
  {
  }

  /** Any sequence of operations, then f_sync, power off, mount and open: the bytes are those at the end of the run of
      the plain byte sequence. */
  method RunAndMount(fs: Fatfs, fp: Fil, ops: seq<Op>, tm: u32, buff: array<byte>)
    returns (res: FResult, fs2: Fatfs?, fp2: Fil?, ghost views: seq<View>)
    requires Ready(fs, fp, buff)
    requires forall i :: 0 <= i < |ops| && ops[i].Write? ==> |ops[i].data| <= 0xFFFF_FFFF
    requires forall i :: 0 <= i < |ops| && ops[i].Read? ==> ops[i].n <= buff.Length
    requires MountedFrom(fs.disk, fs.g.volbase, fs.g) && SoundFields(Fields(Boot(fs)), fs.g.volbase, |fs.disk|)
    modifies fs, fs.win, fp, fp.buf, buff
    // a run the device does not interfere with is carried out to its end
    ensures AllPermitted(ops, fp.canRead, fp.canWrite) && !HasReserved(old(fs.fat)) ==>
      res == FrOk || fs.medium.faults > old(fs.medium.faults)
    ensures old(fs.medium.mirrored && !fs.medium.damaged) && fs.medium.faults == old(fs.medium.faults) ==>
      Mirrored(fs.g, fs.disk)
    ensures res == FrOk ==> fs2 != null && fp2 != null && fresh(fs2) && fresh(fp2) && fs2.disk == fs.disk
    ensures res == FrOk ==> IsRun(ops, fp.canWrite, views) && views[0] == old(Now(fs, fp, []))
    ensures res == FrOk ==> Open(fs2, fp2) && AtRest(fs2.g, fp2.State()) && fp2.fptr == 0 && Saved(fs2, fp2)
    ensures res == FrOk ==> FileBytesOf(fs2, fp2) == views[|ops|].c
  {
    hide Ready, Step, IsRun, Saved, Fields, IsFatVolume, Accepted, Geometry.WellFormed,
         FitsWords, Storable, StorableBytes, AtRest, EntryApart;
    fs2, fp2 := null, null;
    ghost var medium, m0, b := fs.disk, fs.medium, Snapshot(fs, fp);
    var done;
    res, done, views := RunOps(fs, fp, ops, buff);
    ConsiderateOnward(fs.g, fp.dirSect, fp.dirOfs, b, Snapshot(fs, fp), res, res == FrOk || !ops[done].Sync?);
    if res != FrOk {
      if m0.mirrored && !m0.damaged && fs.medium.faults == m0.faults { MirrorKept(fs, m0); }
      return;
    }
    assert ops[..done] == ops;
    ReadyParts(fs, fp, buff);
    OpenStorable(fs, fp);
    StillMounted(medium, fs.disk, fs.g.volbase, fs.g);
    MarkedOrStored(fs, fp);
    res, fs2, fp2 := SyncAndMount(fs, fp, tm);
  }

  lemma StillMounted(m1: seq<Sector>, m2: seq<Sector>, bsect: nat, g: Geometry)
    requires bsect < 0x1_0000_0000 && MountedFrom(m1, bsect, g) && |m2| == |m1| && m2[bsect] == m1[bsect]
    ensures MountedFrom(m2, bsect, g)
  {
    hide Fields, IsFatVolume, Accepted, Geometry.WellFormed;
  }

  lemma MarkedOrStored(fs: Fatfs, fp: Fil)
    requires fp.modified || Saved(fs, fp)
    ensures fp.modified || OnMedium(fs, fp)
  {
    hide StoredAt;
  }
}
