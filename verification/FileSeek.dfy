/** f_lseek on FAT12/16/32. */
module FileSeek {
  import opened Bytes
  import opened Arith
  import opened Volume
  import opened FatAccess
  import opened Forest
  import opened Chains
  import opened FileBytes
  import opened FileSteps
  import opened FatFile
  import opened FileRead

  /** Cluster size in bytes. */
  function Bcs(g: Geometry): nat {
    512 * g.csize
  }

  /** Byte offsets by cluster size agree with sector and cluster indices. */
  lemma BcsIndex(g: Geometry, i: nat, p: nat)
    requires g.csize > 0
    ensures Bcs(g) > 0 && p / Bcs(g) == Idx(g, p / 512)
    ensures Bcs(g) * i <= p < Bcs(g) * (i + 1) ==> Idx(g, p / 512) == i
  {
    SplitDigits(p, 512, g.csize);
    if Bcs(g) * i <= p < Bcs(g) * (i + 1) {
      assert Bcs(g) * (i + 1) == Bcs(g) * i + Bcs(g);
      DivModIs(p, Bcs(g), i, p - Bcs(g) * i);
    }
  }

  /** The start of cluster `i` of a file: a cluster boundary. */
  lemma ClusterStart(g: Geometry, i: nat)
    requires g.csize > 0
    ensures Bcs(g) * i % 512 == 0 && Idx(g, Bcs(g) * i / 512) == i && Off(g, Bcs(g) * i / 512) == 0
  {
    var k := g.csize * i;
    assert Bcs(g) * i == 512 * k;
    NonNegProduct(g.csize, i);
    DivModIs(512 * k, 512, k, 0);
    DivModIs(k, g.csize, i, 0);
  }

  /** Inside cluster `i`, `o` bytes from its start. */
  lemma ClusterInside(g: Geometry, i: nat, o: nat)
    requires g.csize > 0 && o < Bcs(g)
    ensures (Bcs(g) * i + o) % 512 == o % 512 && Idx(g, (Bcs(g) * i + o) / 512) == i
    ensures Off(g, (Bcs(g) * i + o) / 512) == o / 512
  {
    var k := g.csize * i;
    assert Bcs(g) * i == 512 * k;
    NonNegProduct(g.csize, i);
    DivModIs(512 * k + o, 512, k + o / 512, o % 512);
    DivModIs(k + o / 512, g.csize, i, o / 512);
  }

  lemma CapacityIs(g: Geometry, ch: seq<nat>, n: nat)
    requires n <= |ch|
    ensures Capacity(g, ch) == Bcs(g) * |ch| && Bcs(g) * n <= Capacity(g, ch)
  {
    assert g.csize * |ch| * 512 == Bcs(g) * |ch|;
    NonNegProduct(g.csize, 512);
    MulMono(Bcs(g), n, |ch|);
  }

  /** Pointer, size and current cluster play no part in the sectors. */
  lemma SameBuffer(g: Geometry, d0: seq<Sector>, f0: FileState, d1: seq<Sector>, f1: FileState, f2: FileState)
    requires SameSectors(g, d0, f0, d1, f1)
    requires f2.ch == f1.ch && f2.sect == f1.sect && f2.dirty == f1.dirty && f2.buf == f1.buf
    ensures SameSectors(g, d0, f0, d1, f2)
  {
    hide Idx, Off, SectorOf, Geometry.WellFormed, GoodChain, Layout;
    forall k: nat | Idx(g, k) < |f0.ch|
      ensures 0 <= SectorOf(g, f0.ch, k) < |d0| && 0 <= SectorOf(g, f2.ch, k) < |d1|
        && SectorData(g, d1, f2, k) == SectorData(g, d0, f0, k)
    {
    }
  }

  lemma SamePrefix(g: Geometry, d0: seq<Sector>, f0: FileState, d1: seq<Sector>, f1: FileState)
    requires SameSectors(g, d0, f0, d1, f1) && f0.objsize <= Capacity(g, f0.ch)
    requires f0.objsize <= f1.objsize <= Capacity(g, f1.ch)
    ensures Readable(g, d0, f0) && Readable(g, d1, f1) && Content(g, d1, f1)[..f0.objsize] == Content(g, d0, f0)
  {
    hide Capacity, SameSectors, ByteAt, Content;
    SameReadable(g, d0, f0, d1, f1);
    forall p | 0 <= p < f0.objsize
      ensures Content(g, d1, f1)[p] == Content(g, d0, f0)[p]
    {
      SameSectorsByte(g, d0, f0, d1, f1, p);
    }
  }

  /** Core under a new pointer, size and current cluster. */
  lemma CoreCursor(g: Geometry, fat: seq<nat>, st: WinState, f: FileState, p: nat, size: nat, c: u32)
    requires Core(g, fat, st, f) && p <= size <= Capacity(g, f.ch) && size <= 0xFFFF_FFFF
    ensures Core(g, fat, st, f.(fptr := p, objsize := size, clust := c))
  {
    hide Idx, Off, SectorOf, Geometry.WellFormed, Capacity, GoodChain, Layout, InFile, IsChain;
  }

  /** What f_lseek may change of the file's place on the volume. */
  datatype Extent = Extent(ch: seq<nat>, sclust: u32, log: seq<LogEntry>, medium: Medium)

  ghost function ExtentOf(fs: Fatfs, fp: Fil): Extent
    reads fs`log, fs`medium, fp`ch, fp`sclust
  {
    Extent(fp.ch, fp.sclust, fs.log, fs.medium)
  }

  /** The chain grew, or nothing happened to the FAT. */
  ghost predicate GrewOrIdle(a: Extent, b: Extent) {
    a.ch <= b.ch && (b.ch == a.ch ==> b.sclust == a.sclust && NoPut(a.log, a.medium, b.log, b.medium))
  }

  lemma IdleSelf(a: Extent)
    ensures GrewOrIdle(a, a)
  {
  }

  lemma IdleStep(a: Extent, b: Extent)
    requires b.ch == a.ch && b.sclust == a.sclust && NoPut(a.log, a.medium, b.log, b.medium)
    ensures GrewOrIdle(a, b)
  {
  }

  lemma GrewOrIdleTrans(a: Extent, b: Extent, c: Extent)
    requires GrewOrIdle(a, b) && GrewOrIdle(b, c)
    ensures GrewOrIdle(a, c)
  {
  }

  /** get_fat in the cluster-following loop of a file that is not open for writing. */
  method FollowChain(fs: Fatfs, fp: Fil, ghost i: nat) returns (clst: u32)
    requires Open(fs, fp) && i + 1 < |fp.ch| && fp.clust as nat == fp.ch[i]
    modifies fs`disk, fs`wflag, fs`medium, fs`winsect, fs.win
    ensures fs.Valid() && OwnOnly(fs.g, fp.ch, old(fs.St()), fs.fat, fs.St(), fs.fat)
    ensures Open(fs, fp) && SameSectors(fs.g, old(fs.disk), fp.State(), fs.disk, fp.State())
    ensures clst == DISK_ERROR || (clst as nat == fp.ch[i + 1] && 2 <= clst < fs.g.nFatent)
    ensures clst == DISK_ERROR ==> Faulted(old(fs.medium), fs.medium)
    ensures clst != DISK_ERROR ==> Refreshed(old(fs.medium), fs.medium, |fs.log|)
    ensures Onward(old(fs.medium), fs.medium)
  {
    hide Fatfs.Valid, Idx, Off, Sect, SectorOf, Geometry.WellFormed, Capacity, IsChain, GoodChain, Layout,
         SameSectors, WinState.Logical, OwnOnly, InFile, FatOnly;
    ghost var a := fs.St();
    FatOnlyOwnSelf(fs, fp);
    ChainStep(fs.fat, fp.ch, i);
    clst := GetFat(fs, fp.clust);
    FatOnlyOwn(fs.g, fp.ch, a, fs.fat, fs.St(), fs.fat);
    FatStep(fs.g, fs.fat, a, fs.fat, fs.St(), fp.State());
  }

  /** The file with its pointer at the start of the next cluster. */
  lemma RoundSetup(g: Geometry, fat: seq<nat>, st: WinState, f: FileState, i: nat, grow: bool) returns (f1: FileState)
    requires Core(g, fat, st, f) && i < |f.ch| && f.clust as nat == f.ch[i] && f.fptr == Bcs(g) * i
    requires Bcs(g) * (i + 1) <= 0xFFFF_FFFF && (grow || Bcs(g) * (i + 1) < f.objsize)
    ensures var next := Bcs(g) * (i + 1);
      && next == f.fptr + Bcs(g) && next % 512 == 0 && g.csize > 0
      && Off(g, next / 512) == 0 && Idx(g, next / 512) == i + 1
      && f1 == f.(fptr := next, objsize := if next > f.objsize then next else f.objsize)
      && (!grow ==> i + 1 < |f.ch|)
    ensures Core(g, fat, st, f1) && AtRest(g, f1) && SameSectors(g, st.disk, f, st.disk, f1)
  {
    hide Idx, Off, SectorOf, Geometry.WellFormed, Capacity, GoodChain, Layout, InFile, IsChain, Bcs, SameSectors;
    var next := Bcs(g) * (i + 1);
    NextBase(g, i);
    CapacityIs(g, f.ch, i + 1);
    ClusterStart(g, i + 1);
    BcsIndex(g, i, 0);
    BcsIndex(g, i, next - 1);
    f1 := f.(fptr := next, objsize := if next > f.objsize then next else f.objsize);
    CoreCursor(g, fat, st, f, next, f1.objsize, f.clust);
    SameSectorsSelf(g, st.disk, f);
    SameBuffer(g, st.disk, f, st.disk, f, f1);
    if !grow { ByteIndex(g, f.ch, next); }
  }

  /** One round of the cluster-following loop: from the start of cluster `i` to the start of the next. */
  method SeekRound(fs: Fatfs, fp: Fil, ghost i: nat) returns (r: Round)
    requires Open(fs, fp) && i < |fp.ch| && fp.clust as nat == fp.ch[i] && fp.fptr == Bcs(fs.g) * i
    requires Bcs(fs.g) * (i + 1) <= 0xFFFF_FFFF && (fp.canWrite || Bcs(fs.g) * (i + 1) < fp.objsize)
    modifies fs, fs.win, fp`clust, fp`sclust, fp`ch, fp`fptr, fp`objsize, fp`modified
    ensures fs.Valid() && OwnOnly(fs.g, fp.ch, old(fs.St()), old(fs.fat), fs.St(), fs.fat)
    ensures Grew(old(fs.fat), old(fp.ch), fp.ch)
    ensures r.Failed? ==> r.code == FrDiskErr || (r.code == FrIntErr && HasReserved(old(fs.fat)))
    ensures r == Failed(FrDiskErr) ==> Faulted(old(fs.medium), fs.medium)
    ensures !r.Failed? || LastWhole(fs.g, fp.ch) ==>
      Open(fs, fp) && SameSectors(fs.g, old(fs.disk), old(fp.State()), fs.disk, fp.State())
    ensures fp.fptr == Bcs(fs.g) * (i + 1)
    ensures fp.objsize == (if fp.fptr > old(fp.objsize) then fp.fptr else old(fp.objsize))
    ensures fp.modified == (old(fp.modified) || fp.objsize > old(fp.objsize))
    ensures !r.Failed? ==> Kept(old(fs.fat), old(fs.freeClst), fs.fat, fs.freeClst)
    ensures !r.Failed? ==> GrewOrIdle(old(ExtentOf(fs, fp)), ExtentOf(fs, fp))
    ensures r.Going? && fp.ch != old(fp.ch) ==> fp.fptr >= fp.objsize
    ensures r.Going? ==> i + 1 < |fp.ch| && fp.clust as nat == fp.ch[i + 1]
    ensures r.NoSpace? ==> fp.canWrite && i + 1 == |fp.ch| && (CountKnown(fs.fat, fs.freeClst) ==> Full(fs.fat))
    ensures r.NoSpace? ==> AtRest(fs.g, fp.State())
    ensures StaysSafe(old(fs.log), fs.log, r != Failed(FrDiskErr))
    ensures Traced(old(fp.ch), old(fs.fat), old(fs.log), fp.ch, fs.fat, fs.log, !r.Failed?)
    ensures Onward(old(fs.medium), fs.medium)
  {
    hide Fatfs.Valid, Idx, Off, Sect, SectorOf, Geometry.WellFormed, Capacity, IsChain, GoodChain, Layout,
         SameSectors, WinState.Logical, OwnOnly, Grew, InFile, Full, CountKnown, IsForest, CrashSafe, Core, Bcs,
         LastWhole, Traced;
    ghost var a, f := fs.St(), fp.State();
    GrewSelf(fs.fat, fp.ch);
    TracedSelf(fp.ch, fs.fat, fs.log, true);
    TracedSelf(fp.ch, fs.fat, fs.log, false);
    OpenBasics(fs, fp);
    ghost var next := Bcs(fs.g) * (i + 1);
    CapacityIs(fs.g, fp.ch, |fp.ch|);
    ghost var fat0 := fs.fat;
    ghost var f1 := RoundSetup(fs.g, fs.fat, a, f, i, fp.canWrite);
    fp.fptr := fp.fptr + 512 * fs.g.csize;
    assert fp.fptr == next by { BcsIs(fs.g); }
    if fp.canWrite {
      if fp.fptr > fp.objsize {
        fp.objsize := fp.fptr;
        fp.modified := true;
      }
      var clst := WriteCluster(fs, fp);
      GrewPrefix(fat0, f.ch, fp.ch);
      if (clst != 1 && clst != DISK_ERROR) || LastWhole(fs.g, fp.ch) {
        SameSectorsTrans(fs.g, a.disk, f, a.disk, f1, fs.disk, fp.State());
      }
      r := if clst == DISK_ERROR then Failed(FrDiskErr) else if clst == 1 then Failed(FrIntErr)
           else if clst == 0 then NoSpace else Going;
    } else {
      var clst := FollowChain(fs, fp, i);
      SameSectorsTrans(fs.g, a.disk, f, a.disk, f1, fs.disk, fp.State());
      if clst == DISK_ERROR {
        r := Failed(FrDiskErr);
      } else {
        ClustOnly(fs.g, fs.fat, fs.St(), a.disk, f, fp.State(), clst);
        fp.clust := clst;
        r := Going;
      }
    }
  }

  lemma BcsIs(g: Geometry)
    ensures Bcs(g) == 512 * g.csize
  {
  }

  lemma NextBase(g: Geometry, i: nat)
    ensures Bcs(g) * (i + 1) == Bcs(g) * i + Bcs(g) >= 0 && Bcs(g) * i >= 0
  {
    NonNegProduct(Bcs(g), i);
  }

  lemma OpenBasics(fs: Fatfs, fp: Fil)
    requires Open(fs, fp)
    ensures Core(fs.g, fs.fat, fs.St(), fp.State()) && Readable(fs.g, fs.disk, fp.State()) && fs.g.csize > 0
    ensures fp.fptr <= fp.objsize <= Capacity(fs.g, fp.ch) && fp.objsize <= 0xFFFF_FFFF
    ensures |fs.fat| == fs.g.nFatent
  {
  }

  /** The cluster-following loop. Afterwards `o` bytes remain inside cluster `i`, or the disk was full and fptr is at
      the end of the chain. */
  method SeekLoop(fs: Fatfs, fp: Fil, ofs: nat, ghost i0: nat) returns (r: Round, o: nat, ghost i: nat)
    requires Open(fs, fp) && i0 < |fp.ch| && fp.clust as nat == fp.ch[i0] && fp.fptr == Bcs(fs.g) * i0 && ofs > 0
    requires fp.fptr + ofs <= 0xFFFF_FFFF && (fp.canWrite || fp.fptr + ofs <= fp.objsize)
    modifies fs, fs.win, fp`clust, fp`sclust, fp`ch, fp`fptr, fp`objsize, fp`modified
    ensures fs.Valid() && OwnOnly(fs.g, fp.ch, old(fs.St()), old(fs.fat), fs.St(), fs.fat)
    ensures Grew(old(fs.fat), old(fp.ch), fp.ch)
    ensures r.Failed? ==> r.code == FrDiskErr || (r.code == FrIntErr && HasReserved(old(fs.fat)))
    ensures r == Failed(FrDiskErr) ==> Faulted(old(fs.medium), fs.medium)
    ensures !r.Failed? || LastWhole(fs.g, fp.ch) ==>
      Open(fs, fp) && SameSectors(fs.g, old(fs.disk), old(fp.State()), fs.disk, fp.State())
    ensures fp.objsize == (if fp.fptr > old(fp.objsize) then fp.fptr else old(fp.objsize))
    ensures fp.modified == (old(fp.modified) || fp.objsize > old(fp.objsize))
    ensures !r.Failed? ==> Kept(old(fs.fat), old(fs.freeClst), fs.fat, fs.freeClst)
    ensures !r.Failed? ==> GrewOrIdle(old(ExtentOf(fs, fp)), ExtentOf(fs, fp))
    ensures r.Going? && fp.ch != old(fp.ch) ==> fp.fptr >= fp.objsize
    ensures r.NoSpace? && fp.ch != old(fp.ch) ==> fp.objsize > old(fp.objsize)
    ensures r.NoSpace? ==> fp.fptr > old(fp.fptr)
    ensures r.Going? ==> i < |fp.ch| && fp.clust as nat == fp.ch[i] && fp.fptr == Bcs(fs.g) * i
    ensures r.Going? ==> 0 < o <= Bcs(fs.g) && fp.fptr + o == old(fp.fptr) + ofs
    ensures r.NoSpace? ==> fp.canWrite && o == 0 && fp.fptr < old(fp.fptr) + ofs && fp.fptr == Bcs(fs.g) * |fp.ch|
    ensures r.NoSpace? ==> AtRest(fs.g, fp.State()) && (CountKnown(fs.fat, fs.freeClst) ==> Full(fs.fat))
    ensures StaysSafe(old(fs.log), fs.log, r != Failed(FrDiskErr))
    ensures Traced(old(fp.ch), old(fs.fat), old(fs.log), fp.ch, fs.fat, fs.log, !r.Failed?)
    ensures Onward(old(fs.medium), fs.medium)
  {
    hide Fatfs.Valid, Idx, Off, Sect, SectorOf, Geometry.WellFormed, Capacity, IsChain, GoodChain, Layout,
         SameSectors, WinState.Logical, OwnOnly, Grew, InFile, Full, CountKnown, IsForest, CrashSafe, Core, Bcs,
         Fil.State, AtRest, LastWhole, GrewOrIdle, Traced;
    ghost var a, f, fat0 := fs.St(), fp.State(), fs.fat;
    OwnOnlySelf(fs.g, fp.ch, a, fat0);
    GrewSelf(fs.fat, fp.ch);
    TracedSelf(fp.ch, fs.fat, fs.log, true);
    OpenBasics(fs, fp);
    SameSectorsSelf(fs.g, a.disk, f);
    r, o, i := Going, ofs, i0;
    ghost var e0 := ExtentOf(fs, fp);
    IdleSelf(e0);
    var bcs := Bcs(fs.g);
    BcsIndex(fs.g, 0, 0);
    while o > bcs
      invariant r.Going? && Open(fs, fp) && i < |fp.ch| && fp.clust as nat == fp.ch[i] && fp.fptr == Bcs(fs.g) * i
      invariant 0 < o && fp.fptr + o == old(fp.fptr) + ofs && (fp.canWrite || fp.fptr + o <= fp.objsize)
      invariant SameSectors(fs.g, a.disk, f, fs.disk, fp.State())
      invariant fp.objsize == (if fp.fptr > old(fp.objsize) then fp.fptr else old(fp.objsize))
      invariant fp.modified == (old(fp.modified) || fp.objsize > old(fp.objsize))
      invariant Kept(fat0, old(fs.freeClst), fs.fat, fs.freeClst)
      invariant OwnOnly(fs.g, fp.ch, a, fat0, fs.St(), fs.fat) && Grew(old(fs.fat), old(fp.ch), fp.ch)
      invariant GrewOrIdle(e0, ExtentOf(fs, fp)) && fp.fptr >= old(fp.fptr)
      invariant fp.ch != old(fp.ch) ==> fp.fptr >= fp.objsize
      invariant StaysSafe(old(fs.log), fs.log, true)
      invariant Traced(old(fp.ch), fat0, old(fs.log), fp.ch, fs.fat, fs.log, true)
      invariant Onward(old(fs.medium), fs.medium)
      decreases o
    {
      ghost var b, fatb, f1 := fs.St(), fs.fat, fp.State();
      ghost var ch1, e1 := fp.ch, ExtentOf(fs, fp);
      ghost var log1 := fs.log;
      NextBase(fs.g, i);
      o := o - bcs;
      r := SeekRound(fs, fp, i);
      GrewPrefix(fatb, ch1, fp.ch);
      TracedTrans(fs.g, old(fp.ch), a, fat0, old(fs.log), ch1, b, fatb, log1, fp.ch, fs.fat, fs.log, !r.Failed?);
      OwnOnlyTrans(fs.g, ch1, fp.ch, a, fat0, b, fatb, fs.St(), fs.fat);
      GrewTrans(fs.g, fat0, old(fp.ch), a, ch1, b, fatb, fp.ch);
      if !r.Failed? || LastWhole(fs.g, fp.ch) {
        SameSectorsTrans(fs.g, a.disk, f, b.disk, f1, fs.disk, fp.State());
      }
      if r.Failed? { return; }
      GrewOrIdleTrans(e0, e1, ExtentOf(fs, fp));
      if r.NoSpace? { o := 0; return; }
      i := i + 1;
    }
  }

  lemma LandingIndex(g: Geometry, i: nat, o: nat)
    requires g.csize > 0 && 0 < o <= Bcs(g)
    ensures var p := Bcs(g) * i + o; p > 0 && Idx(g, (p - 1) / 512) == i && p % 512 == o % 512
    ensures o % 512 != 0 ==> var p := Bcs(g) * i + o; p >= 0 && Idx(g, p / 512) == i && Off(g, p / 512) == o / 512
  {
    hide Idx, Off, Bcs;
    NextBase(g, i);
    BcsIs(g);
    ClusterInside(g, i, o - 1);
    if o < Bcs(g) {
      ClusterInside(g, i, o);
    } else {
      ClusterStart(g, i + 1);
    }
  }

  /** Where the pointer comes to rest inside cluster `i`, and the sector it is in. */
  lemma Landing(g: Geometry, fat: seq<nat>, st: WinState, f: FileState, i: nat, o: nat)
    requires Core(g, fat, st, f) && i < |f.ch| && f.clust as nat == f.ch[i] && f.fptr == Bcs(g) * i
    requires g.csize > 0 && 0 < o <= Bcs(g) && f.fptr + o <= 0xFFFF_FFFF
    ensures Core(g, fat, st, Advanced(f, o))
    ensures Idx(g, (f.fptr + o - 1) / 512) == i && (f.fptr + o) % 512 == o % 512
    ensures o % 512 != 0 ==> Idx(g, (f.fptr + o) / 512) == i && Off(g, (f.fptr + o) / 512) == o / 512
    ensures o % 512 == 0 ==> AtRest(g, Advanced(f, o))
  {
    hide Idx, Off, SectorOf, Capacity, Bcs, Core;
    NextBase(g, i);
    CapacityIs(g, f.ch, i + 1);
    LandingIndex(g, i, o);
    AdvanceCore(g, fat, st, f, o);
  }

  /** No byte of the file is lost. */
  ghost predicate Extends(c0: seq<byte>, c1: seq<byte>) {
    |c0| <= |c1| && c1[..|c0|] == c0
  }

  /** The file with its pointer settled `o` bytes behind the start of cluster `i`. */
  lemma SettledFile(fs: Fatfs, fp: Fil, i: nat, o: nat)
    requires Open(fs, fp) && i < |fp.ch| && fp.clust as nat == fp.ch[i] && fp.fptr == Bcs(fs.g) * i
    requires 0 < o <= Bcs(fs.g) && fp.fptr + o <= 0xFFFF_FFFF
    ensures var f1 := Advanced(fp.State(), o);
      && Core(fs.g, fs.fat, fs.St(), f1) && f1.objsize <= Capacity(fs.g, fp.ch) && Readable(fs.g, fs.disk, f1)
      && Content(fs.g, fs.disk, f1)[..fp.objsize] == FileBytesOf(fs, fp)
      && (o % 512 == 0 ==> AtRest(fs.g, f1))
      && Idx(fs.g, (f1.fptr - 1) / 512) == i && f1.fptr % 512 == o % 512
      && (o % 512 != 0 ==> Idx(fs.g, f1.fptr / 512) == i && Off(fs.g, f1.fptr / 512) == o / 512)
  {
    hide Fatfs.Valid, Idx, Off, Sect, SectorOf, Geometry.WellFormed, Capacity, IsChain, GoodChain, Layout,
         SameSectors, WinState.Logical, InFile, Content, Core, Bcs, AtRest;
    var f := fp.State();
    OpenBasics(fs, fp);
    SameSectorsSelf(fs.g, fs.disk, f);
    Landing(fs.g, fs.fat, fs.St(), f, i, o);
    SameBuffer(fs.g, fs.disk, f, fs.disk, f, Advanced(f, o));
    OpenAdvanced(fs, fp, o);
    SamePrefix(fs.g, fs.disk, f, fs.disk, Advanced(f, o));
  }

  /** The end of f_lseek: settle the pointer, extend the size, make the buffer show a mid-sector position. */
  method Settle(fs: Fatfs, fp: Fil, o: nat, ghost i: nat) returns (r: Round)
    requires Open(fs, fp) && i < |fp.ch| && fp.clust as nat == fp.ch[i] && fp.fptr == Bcs(fs.g) * i
    requires 0 < o <= Bcs(fs.g) && fp.fptr + o <= 0xFFFF_FFFF
    modifies fs`disk, fs`medium, fp`fptr, fp`objsize, fp`modified, fp`dirty, fp`sect, fp.buf
    ensures Onward(old(fs.medium), fs.medium) && Refreshed(old(fs.medium), fs.medium, |fs.log|)
    ensures r.Failed? ==> Faulted(old(fs.medium), fs.medium)
    ensures fs.Valid() && OwnOnly(fs.g, fp.ch, old(fs.St()), fs.fat, fs.St(), fs.fat)
    ensures r.Going? || r == Failed(FrDiskErr)
    ensures r.Going? ==> Open(fs, fp) && AtRest(fs.g, fp.State()) && fp.fptr == old(fp.fptr) + o
    ensures fp.objsize == (if fp.fptr > old(fp.objsize) then fp.fptr else old(fp.objsize))
    ensures fp.modified == (old(fp.modified) || fp.objsize > old(fp.objsize))
    ensures r.Going? ==> FileBytesOf(fs, fp)[..old(fp.objsize)] == old(FileBytesOf(fs, fp))
    ensures r.Going? ==> BufferMoved(fs.g, fp.ch, old(fp.sect), fp.sect)
    ensures fp.dirty ==> old(fp.dirty)
    ensures r.Failed? ==> Storable(fs, fp) && Extends(old(FileBytesOf(fs, fp)), StorableBytes(fs, fp))
  {
    hide Fatfs.Valid, Idx, Off, Sect, SectorOf, Geometry.WellFormed, Capacity, IsChain, GoodChain, Layout,
         SameSectors, WinState.Logical, OwnOnly, InFile, Content, Core, Bcs, ClstToSect, Unbuffered, Readable;
    ghost var a, f := fs.St(), fp.State();
    OwnOnlySelf(fs.g, fp.ch, a, fs.fat);
    OpenBasics(fs, fp);
    SettledFile(fs, fp, i, o);
    var nsect := 0;
    if o % 512 != 0 {
      nsect := ClstToSect(fs.g, fp.clust);
      ClstToSectIs(fs.g, |fs.disk|, fp.ch, fp.clust, (fp.fptr + o) / 512);
      if nsect == 0 { r := Failed(FrIntErr); return; }
      nsect := nsect + o / 512;
    }
    fp.fptr := fp.fptr + o;
    if fp.fptr > fp.objsize {
      fp.objsize := fp.fptr;
      fp.modified := true;
    }
    r := Going;
    if fp.fptr % 512 != 0 {
      var ok := FillForRead(fs, fp, nsect);
      SectorInFile(fs.g, fp.ch, fp.fptr / 512);
      if !ok { r := Failed(FrDiskErr); }
    }
  }

  lemma OpenAdvanced(fs: Fatfs, fp: Fil, o: nat)
    requires Open(fs, fp) && Core(fs.g, fs.fat, fs.St(), Advanced(fp.State(), o))
    ensures Advanced(fp.State(), o).objsize <= Capacity(fs.g, fp.ch)
  {
  }

  /** The offset f_lseek goes for: below 4 GiB, and inside the file unless it may be extended. */
  function Target(ofs: nat, objsize: nat, canWrite: bool): nat {
    var o := if ofs >= 0x1_0000_0000 then 0xFFFF_FFFF else ofs;
    if o > objsize && !canWrite then objsize else o
  }

  /** The choice of the starting cluster: the current one for a seek forward, else the first, which may have to be
      created. Afterwards fptr is at the start of cluster `i`. */
  method SeekStart(fs: Fatfs, fp: Fil, ofs: nat) returns (r: Round, ghost i: nat)
    requires Open(fs, fp) && AtRest(fs.g, fp.State()) && 0 < ofs <= 0xFFFF_FFFF && (fp.canWrite || ofs <= fp.objsize)
    modifies fs, fs.win, fp`clust, fp`sclust, fp`ch, fp`fptr
    ensures fs.Valid() && OwnOnly(fs.g, fp.ch, old(fs.St()), old(fs.fat), fs.St(), fs.fat)
    ensures Grew(old(fs.fat), old(fp.ch), fp.ch)
    ensures r.Failed? ==> r.code == FrDiskErr || (r.code == FrIntErr && HasReserved(old(fs.fat)))
    ensures r == Failed(FrDiskErr) ==> Faulted(old(fs.medium), fs.medium)
    ensures !r.Failed? || LastWhole(fs.g, fp.ch) ==> Open(fs, fp) && FileBytesOf(fs, fp) == old(FileBytesOf(fs, fp))
    ensures !r.Failed? ==> Kept(old(fs.fat), old(fs.freeClst), fs.fat, fs.freeClst)
    ensures !r.Failed? ==> GrewOrIdle(old(ExtentOf(fs, fp)), ExtentOf(fs, fp))
    ensures r.Going? && fp.ch != old(fp.ch) ==> fp.fptr >= fp.objsize
    ensures r.NoSpace? ==> fp.ch == old(fp.ch)
    ensures r.Going? ==> i < |fp.ch| && fp.clust as nat == fp.ch[i] && fp.fptr == Bcs(fs.g) * i && fp.fptr < ofs
    ensures r.NoSpace? ==> |fp.ch| == 0 && fp.fptr == 0 && (CountKnown(fs.fat, fs.freeClst) ==> Full(fs.fat))
    ensures StaysSafe(old(fs.log), fs.log, r != Failed(FrDiskErr))
    ensures Traced(old(fp.ch), old(fs.fat), old(fs.log), fp.ch, fs.fat, fs.log, !r.Failed?)
    ensures Onward(old(fs.medium), fs.medium)
  {
    hide Fatfs.Valid, Idx, Off, Sect, SectorOf, Geometry.WellFormed, Capacity, IsChain, GoodChain, Layout,
         SameSectors, WinState.Logical, OwnOnly, Grew, InFile, Full, CountKnown, IsForest, CrashSafe, Core, Content,
         LastWhole, Traced;
    ghost var a, f := fs.St(), fp.State();
    OwnOnlySelf(fs.g, fp.ch, a, fs.fat);
    GrewSelf(fs.fat, fp.ch);
    TracedSelf(fp.ch, fs.fat, fs.log, true);
    OpenBasics(fs, fp);
    SameSectorsSelf(fs.g, a.disk, f);
    r, i := Going, 0;
    var bcs := 512 * fs.g.csize;
    var ifptr := fp.fptr;
    BcsIndex(fs.g, 0, 0);
    IdleSelf(ExtentOf(fs, fp));
    CapacityIs(fs.g, fp.ch, |fp.ch|);
    if ifptr > 0 && (ofs - 1) / bcs >= (ifptr - 1) / bcs {
      i := Idx(fs.g, (ifptr - 1) / 512);
      BcsIndex(fs.g, 0, ifptr - 1);
      DivMod(ifptr - 1, bcs);
      DivMod(ofs - 1, bcs);
      MulMono(bcs, (ifptr - 1) / bcs, (ofs - 1) / bcs);
      fp.fptr := (ifptr - 1) - (ifptr - 1) % bcs;
      CoreCursor(fs.g, fs.fat, a, f, fp.fptr, f.objsize, f.clust);
      SameBuffer(fs.g, a.disk, f, a.disk, f, fp.State());
      SameContent(fs.g, a.disk, f, fs.disk, fp.State());
    } else {
      fp.fptr := 0;
      ghost var f1 := fp.State();
      CoreCursor(fs.g, fs.fat, a, f, 0, f.objsize, f.clust);
      SameBuffer(fs.g, a.disk, f, a.disk, f, f1);
      FirstIndex(fs.g);
      var clst := WriteCluster(fs, fp);
      if (clst != 1 && clst != DISK_ERROR) || LastWhole(fs.g, fp.ch) {
        SameSectorsTrans(fs.g, a.disk, f, a.disk, f1, fs.disk, fp.State());
        SameContent(fs.g, a.disk, f, fs.disk, fp.State());
      }
      if clst == 1 { return Failed(FrIntErr), 0; }
      if clst == DISK_ERROR { return Failed(FrDiskErr), 0; }
      if clst == 0 { r := NoSpace; }
    }
  }

  /** The loop and the end of f_lseek, `ofs` bytes from the start of cluster `i0`. */
  method SeekFrom(fs: Fatfs, fp: Fil, ofs: nat, ghost i0: nat) returns (r: Round)
    requires Open(fs, fp) && i0 < |fp.ch| && fp.clust as nat == fp.ch[i0] && fp.fptr == Bcs(fs.g) * i0 && ofs > 0
    requires fp.fptr + ofs <= 0xFFFF_FFFF && (fp.canWrite || fp.fptr + ofs <= fp.objsize)
    modifies fs, fs.win, fp, fp.buf
    ensures fs.Valid() && OwnOnly(fs.g, fp.ch, old(fs.St()), old(fs.fat), fs.St(), fs.fat)
    ensures Grew(old(fs.fat), old(fp.ch), fp.ch)
    ensures fp.err == old(fp.err)
    ensures r.Failed? ==> r.code == FrDiskErr || (r.code == FrIntErr && HasReserved(old(fs.fat)))
    ensures r == Failed(FrDiskErr) ==> Faulted(old(fs.medium), fs.medium)
    ensures !r.Failed? ==> Open(fs, fp) && AtRest(fs.g, fp.State())
    ensures fp.objsize >= old(fp.objsize)
    ensures !r.Failed? ==> fp.objsize == (if fp.fptr > old(fp.objsize) then fp.fptr else old(fp.objsize))
    ensures fp.modified == (old(fp.modified) || fp.objsize > old(fp.objsize))
    ensures !r.Failed? ==> FileBytesOf(fs, fp)[..old(fp.objsize)] == old(FileBytesOf(fs, fp))
    ensures !r.Failed? ==> GrewOrIdle(old(ExtentOf(fs, fp)), ExtentOf(fs, fp))
    ensures !r.Failed? && (fp.ch != old(fp.ch) || old(fp.fptr) >= old(fp.objsize)) ==> fp.objsize > old(fp.objsize)
    ensures !r.Failed? ==> BufferMoved(fs.g, fp.ch, old(fp.sect), fp.sect)
    ensures fp.dirty ==> old(fp.dirty)
    ensures r.Failed? && LastWhole(fs.g, fp.ch) ==>
      Storable(fs, fp) && Extends(old(FileBytesOf(fs, fp)), StorableBytes(fs, fp))
    ensures r.Going? ==> fp.fptr == old(fp.fptr) + ofs
    ensures r.NoSpace? ==> fp.fptr < old(fp.fptr) + ofs && fp.fptr == Bcs(fs.g) * |fp.ch|
    ensures r.NoSpace? ==> CountKnown(fs.fat, fs.freeClst) ==> Full(fs.fat)
    ensures !r.Failed? ==> Kept(old(fs.fat), old(fs.freeClst), fs.fat, fs.freeClst)
    ensures StaysSafe(old(fs.log), fs.log, r != Failed(FrDiskErr))
    ensures Traced(old(fp.ch), old(fs.fat), old(fs.log), fp.ch, fs.fat, fs.log, !r.Failed?)
    ensures Onward(old(fs.medium), fs.medium)
  {
    hide Fatfs.Valid, Core, Content, AtRest, OwnOnly, Grew, Full, CountKnown, IsForest, CrashSafe, Bcs, LastWhole,
         Unbuffered, SameSectors, Capacity, BufferMoved, GrewOrIdle, Traced, Refreshed, Onward, Faulted;
    ghost var a, f, fat0, m0 := fs.St(), fp.State(), fs.fat, fs.medium;
    OpenBasics(fs, fp);
    var o: nat;
    ghost var i: nat;
    r, o, i := SeekLoop(fs, fp, ofs, i0);
    if !r.Failed? { TracedAnyway(f.ch, fat0, old(fs.log), fp.ch, fs.fat, fs.log); }
    if !r.Failed? || LastWhole(fs.g, fp.ch) {
      PrefixOf(fs, fp, a.disk, f);
      OpenStorable(fs, fp);
    }
    BufferMovedSelf(fs.g, fp.ch, fp.sect);
    if !r.Going? { return; }
    ghost var c, fatc, size, e1 := fs.St(), fs.fat, fp.objsize, ExtentOf(fs, fp);
    ghost var mid := FileBytesOf(fs, fp);
    ghost var m1 := fs.medium;
    r := Settle(fs, fp, o, i);
    OnwardTrans(m0, m1, fs.medium);
    IdleStep(e1, ExtentOf(fs, fp));
    GrewOrIdleTrans(old(ExtentOf(fs, fp)), e1, ExtentOf(fs, fp));
    OwnOnlyTrans(fs.g, fp.ch, fp.ch, a, fat0, c, fatc, fs.St(), fs.fat);
    if r.Going? {
      assert FileBytesOf(fs, fp)[..f.objsize] == FileBytesOf(fs, fp)[..size][..f.objsize];
    } else {
      assert StorableBytes(fs, fp)[..f.objsize] == StorableBytes(fs, fp)[..size][..f.objsize];
    }
  }

  lemma PrefixOf(fs: Fatfs, fp: Fil, d0: seq<Sector>, f0: FileState)
    requires Open(fs, fp) && SameSectors(fs.g, d0, f0, fs.disk, fp.State())
    requires f0.objsize <= Capacity(fs.g, f0.ch) && f0.objsize <= fp.objsize
    ensures Readable(fs.g, d0, f0) && |FileBytesOf(fs, fp)| == fp.objsize
    ensures FileBytesOf(fs, fp)[..f0.objsize] == Content(fs.g, d0, f0)
  {
    hide SameSectors, Capacity, Content;
    SamePrefix(fs.g, d0, f0, fs.disk, fp.State());
  }

  /** f_lseek to a position inside the file area, one that is not the start. */
  method SeekTo(fs: Fatfs, fp: Fil, ofs: nat) returns (r: Round)
    requires Open(fs, fp) && AtRest(fs.g, fp.State()) && 0 < ofs <= 0xFFFF_FFFF && (fp.canWrite || ofs <= fp.objsize)
    modifies fs, fs.win, fp, fp.buf
    ensures fs.Valid() && OwnOnly(fs.g, fp.ch, old(fs.St()), old(fs.fat), fs.St(), fs.fat)
    ensures Grew(old(fs.fat), old(fp.ch), fp.ch)
    ensures fp.err == old(fp.err)
    ensures r.Failed? ==> r.code == FrDiskErr || (r.code == FrIntErr && HasReserved(old(fs.fat)))
    ensures r == Failed(FrDiskErr) ==> Faulted(old(fs.medium), fs.medium)
    ensures !r.Failed? ==> Open(fs, fp) && AtRest(fs.g, fp.State())
    ensures fp.objsize >= old(fp.objsize)
    ensures !r.Failed? ==> fp.objsize == (if fp.fptr > old(fp.objsize) then fp.fptr else old(fp.objsize))
    ensures fp.modified == (old(fp.modified) || fp.objsize > old(fp.objsize))
    ensures !r.Failed? ==> FileBytesOf(fs, fp)[..old(fp.objsize)] == old(FileBytesOf(fs, fp))
    ensures !r.Failed? ==> GrewOrIdle(old(ExtentOf(fs, fp)), ExtentOf(fs, fp))
    ensures !r.Failed? && fp.ch != old(fp.ch) ==> fp.objsize > old(fp.objsize)
    ensures !r.Failed? ==> BufferMoved(fs.g, fp.ch, old(fp.sect), fp.sect)
    ensures fp.dirty ==> old(fp.dirty)
    ensures r.Failed? && LastWhole(fs.g, fp.ch) ==>
      Storable(fs, fp) && Extends(old(FileBytesOf(fs, fp)), StorableBytes(fs, fp))
    ensures r.Going? ==> fp.fptr == ofs
    ensures r.NoSpace? ==> fp.fptr < ofs && fp.fptr == Bcs(fs.g) * |fp.ch|
    ensures r.NoSpace? ==> CountKnown(fs.fat, fs.freeClst) ==> Full(fs.fat)
    ensures !r.Failed? ==> Kept(old(fs.fat), old(fs.freeClst), fs.fat, fs.freeClst)
    ensures StaysSafe(old(fs.log), fs.log, r != Failed(FrDiskErr))
    ensures Traced(old(fp.ch), old(fs.fat), old(fs.log), fp.ch, fs.fat, fs.log, !r.Failed?)
    ensures Onward(old(fs.medium), fs.medium)
  {
    hide Fatfs.Valid, Core, Content, AtRest, OwnOnly, Grew, Full, CountKnown, IsForest, CrashSafe, Bcs, LastWhole,
         Unbuffered, GrewOrIdle, BufferMoved, Traced;
    ghost var a, fat0 := fs.St(), fs.fat;
    CoreSize(fs, fp);
    ghost var i: nat;
    r, i := SeekStart(fs, fp, ofs);
    if r.Failed? {
      if LastWhole(fs.g, fp.ch) { OpenStorable(fs, fp); }
      return;
    }
    BufferMovedSelf(fs.g, fp.ch, fp.sect);
    if r.NoSpace? {
      ClustFree(fs, fp, 0);
      fp.clust := 0;
      EmptyRest(fs, fp);
      return;
    }
    ghost var b, fatb, chb, e1 := fs.St(), fs.fat, fp.ch, ExtentOf(fs, fp);
    ghost var logb := fs.log;
    r := SeekFrom(fs, fp, ofs - fp.fptr, i);
    if !r.Failed? { GrewOrIdleTrans(old(ExtentOf(fs, fp)), e1, ExtentOf(fs, fp)); }
    GrewPrefix(fatb, chb, fp.ch);
    TracedTrans(fs.g, old(fp.ch), a, fat0, old(fs.log), chb, b, fatb, logb, fp.ch, fs.fat, fs.log, !r.Failed?);
    OwnOnlyTrans(fs.g, chb, fp.ch, a, fat0, b, fatb, fs.St(), fs.fat);
    GrewTrans(fs.g, fat0, old(fp.ch), a, chb, b, fatb, fp.ch);
  }

  lemma ClustFree(fs: Fatfs, fp: Fil, c: u32)
    requires Open(fs, fp)
    ensures var f1 := fp.State().(clust := c);
      Core(fs.g, fs.fat, fs.St(), f1) && Content(fs.g, fs.disk, f1) == FileBytesOf(fs, fp)
  {
    hide SameSectors, Core;
    OpenBasics(fs, fp);
    SameSectorsSelf(fs.g, fs.disk, fp.State());
    ClustOnly(fs.g, fs.fat, fs.St(), fs.disk, fp.State(), fp.State(), c);
    SameContent(fs.g, fs.disk, fp.State(), fs.disk, fp.State().(clust := c));
  }

  /** An empty file for which no cluster could be created. */
  lemma EmptyRest(fs: Fatfs, fp: Fil)
    requires Open(fs, fp) && |fp.ch| == 0 && fp.fptr == 0
    ensures AtRest(fs.g, fp.State()) && fp.objsize == 0 && Bcs(fs.g) * |fp.ch| == 0 && FileBytesOf(fs, fp) == []
  {
  }

  /** f_lseek. On FR_OK fptr is the requested offset, or the end of the allocated chain if the disk got full; the
      file was extended exactly as far as that, and no byte it had has changed - nor when it fails, unless the link
      behind the last cluster may have been torn. */
  method FSeek(fs: Fatfs, fp: Fil, ofs: nat) returns (res: FResult)
    requires fs.g.fsType != ExFat
    requires fp.err == FrOk ==> Open(fs, fp) && AtRest(fs.g, fp.State())
    modifies fs, fs.win, fp, fp.buf
    ensures old(fp.err) != FrOk ==> res == old(fp.err)
    ensures old(fp.err) == FrOk ==> res == FrOk || res == FrDiskErr || (res == FrIntErr && HasReserved(old(fs.fat)))
    ensures old(fp.err) == FrOk && res == FrDiskErr ==> Faulted(old(fs.medium), fs.medium)
    ensures old(fp.err) == FrOk ==>
      fs.Valid() && OwnOnly(fs.g, fp.ch, old(fs.St()), old(fs.fat), fs.St(), fs.fat) && fp.err == res
      && Grew(old(fs.fat), old(fp.ch), fp.ch)
    ensures res == FrOk ==> Open(fs, fp) && AtRest(fs.g, fp.State())
    ensures res == FrOk ==> fp.objsize == (if fp.fptr > old(fp.objsize) then fp.fptr else old(fp.objsize))
    ensures fp.modified == (old(fp.modified) || fp.objsize > old(fp.objsize))
    ensures res == FrOk ==> FileBytesOf(fs, fp)[..old(fp.objsize)] == old(FileBytesOf(fs, fp))
    ensures res == FrOk ==> fp.fptr <= Target(ofs, old(fp.objsize), fp.canWrite)
    ensures (res == FrOk && fp.fptr != Target(ofs, old(fp.objsize), fp.canWrite)) ==>
      AtCapacity(fs.g, fp.State()) && (CountKnown(fs.fat, fs.freeClst) ==> Full(fs.fat))
    ensures res == FrOk ==> Kept(old(fs.fat), old(fs.freeClst), fs.fat, fs.freeClst)
    // a seek that leaves the file as long as it was did nothing to the FAT
    ensures res == FrOk && fp.objsize == old(fp.objsize) ==>
      fp.ch == old(fp.ch) && fp.sclust == old(fp.sclust)
      && NoPut(old(fs.log), old(fs.medium), fs.log, fs.medium)
    ensures res == FrOk ==> BufferMoved(fs.g, fp.ch, old(fp.sect), fp.sect)
    ensures fp.dirty ==> old(fp.dirty)
    ensures old(fp.err) == FrOk && fp.err != FrOk && LastWhole(fs.g, fp.ch) ==>
      Storable(fs, fp) && Extends(old(FileBytesOf(fs, fp)), StorableBytes(fs, fp))
    ensures StaysSafe(old(fs.log), fs.log, res != FrDiskErr || old(fp.err) != FrOk)
    ensures Traced(old(fp.ch), old(fs.fat), old(fs.log), fp.ch, fs.fat, fs.log, res == FrOk)
    ensures old(fp.err) == FrOk ==> Onward(old(fs.medium), fs.medium)
  {
    hide Fatfs.Valid, Core, Content, AtRest, OwnOnly, Grew, Full, CountKnown, IsForest, CrashSafe, Bcs, LastWhole,
         Unbuffered, AtCapacity, Traced;
    TracedSelf(fp.ch, fs.fat, fs.log, true);
    TracedSelf(fp.ch, fs.fat, fs.log, false);
    if fp.err != FrOk { return fp.err; }
    OwnOnlySelf(fs.g, fp.ch, fs.St(), fs.fat);
    GrewSelf(fs.fat, fp.ch);
    OpenBasics(fs, fp);
    var o := Target(ofs, fp.objsize, fp.canWrite);
    if o > 0 {
      var r := SeekTo(fs, fp, o);
      if r.Failed? {
        fp.err := r.code;
        return r.code;
      }
      if r.NoSpace? { ChainEnd(fs, fp); }
    } else {
      RewindCore(fs, fp);
      fp.fptr := 0;
    }
    res := FrOk;
  }

  /** Where f_lseek ends up. */
  lemma SeekPlace(ofs: nat, size0: nat, canWrite: bool, p: nat, size1: nat)
    requires p <= Target(ofs, size0, canWrite) && size1 == (if p > size0 then p else size0) && size0 <= 0xFFFF_FFFF
    requires p != Target(ofs, size0, canWrite) ==> p == size1
    ensures ofs <= size0 ==> p == ofs
    ensures ofs > size0 && !canWrite ==> p == size0
    ensures ofs > size0 && canWrite && p != size1 ==> p == if ofs <= 0xFFFF_FFFF then ofs else 0xFFFF_FFFF
  {
  }

  lemma ChainEnd(fs: Fatfs, fp: Fil)
    requires Open(fs, fp) && fp.fptr == Bcs(fs.g) * |fp.ch|
    ensures AtCapacity(fs.g, fp.State())
  {
    hide Bcs, Capacity, Core;
    OpenBasics(fs, fp);
    CapacityIs(fs.g, fp.ch, |fp.ch|);
  }

  lemma RewindCore(fs: Fatfs, fp: Fil)
    requires Open(fs, fp)
    ensures var f1 := fp.State().(fptr := 0);
      Core(fs.g, fs.fat, fs.St(), f1) && AtRest(fs.g, f1) && Content(fs.g, fs.disk, f1) == FileBytesOf(fs, fp)
    ensures FileBytesOf(fs, fp)[..fp.objsize] == FileBytesOf(fs, fp)
  {
    hide SameSectors, Core;
    OpenBasics(fs, fp);
    SameSectorsSelf(fs.g, fs.disk, fp.State());
    CoreCursor(fs.g, fs.fat, fs.St(), fp.State(), 0, fp.objsize, fp.clust);
    SameBuffer(fs.g, fs.disk, fp.State(), fs.disk, fp.State(), fp.State().(fptr := 0));
    SameContent(fs.g, fs.disk, fp.State(), fs.disk, fp.State().(fptr := 0));
  }
}
