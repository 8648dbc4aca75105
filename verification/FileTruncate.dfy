/** f_truncate on FAT12/16/32. */
module FileTruncate {
  import opened Bytes
  import opened Volume
  import opened Window
  import opened FatAccess
  import opened Forest
  import opened Chains
  import opened FileBytes
  import opened FileSteps
  import opened FatFile
  import opened FileSeek

  /** Number of clusters the first `p` bytes occupy. */
  function ClustersFor(g: Geometry, p: nat): nat
    requires g.csize > 0
  {
    if p == 0 then 0 else Idx(g, (p - 1) / 512) + 1
  }

  /** Cutting behind element `m - 1` and freeing the rest leaves the first `m` clusters as the chain. */
  lemma CutAndFree(g: Geometry, fat: seq<nat>, ch: seq<nat>, m: nat)
    requires IsChain(fat, ch) && 0 < m < |ch| && g.MaxEntry() >= |fat|
    ensures var cut := CutAt(g, fat, ch[m - 1]);
      && IsChain(cut, ch[m..]) && ch[m..][0] == ch[m]
      && IsChain(Freed(cut, ch[m..]), ch[..m])
  {
    hide Freed, Geometry.MaxEntry;
    var p := ch[m - 1];
    var cut := CutAt(g, fat, p);
    ChainSuffix(fat, ch, m);
    forall j | m <= j < |ch|
      ensures ch[j] != p
    {
      ChainDistinct(fat, ch, m - 1, j);
    }
    ChainFrame(fat, ch[m..], p, g.MaxEntry());
    ChainCut(fat, ch, m - 1, g.MaxEntry());
    assert ch[..m - 1 + 1] == ch[..m];
    var f := Freed(cut, ch[m..]);
    forall i | 0 <= i < m
      ensures f[ch[i]] == cut[ch[i]]
    {
      forall j | m <= j < |ch|
        ensures ch[j] != ch[i]
      {
        ChainDistinct(fat, ch, i, j);
      }
    }
    KeptChain(cut, f, ch[..m]);
  }

  lemma KeptChain(a: seq<nat>, b: seq<nat>, ch: seq<nat>)
    requires IsChain(a, ch) && |b| == |a|
    requires forall i :: 0 <= i < |ch| ==> b[ch[i]] == a[ch[i]]
    ensures IsChain(b, ch)
  {
    forall i | 0 <= i < |ch| - 1
      ensures b[ch[i]] == ch[i + 1]
    {
      ChainNext(a, ch, i);
    }
  }

  /** What the history tells of a truncation: see Traced. */
  ghost predicate Pruned(ch0: seq<nat>, fat0: seq<nat>, log0: seq<LogEntry>, ch1: seq<nat>, fat1: seq<nat>,
                         log1: seq<LogEntry>, ok: bool) {
    LogApart(ch0, fat0, log0, log1) && (ok && Rooted(fat0, ch0) ==> Rooted(fat1, ch1))
  }

  lemma PrunedSelf(ch: seq<nat>, fat: seq<nat>, log: seq<LogEntry>, ok: bool)
    ensures Pruned(ch, fat, log, ch, fat, log, ok)
  {
    hide Rooted;
    ApartSelf(ch, fat, log);
  }

  lemma RemovedApart(ch: seq<nat>, m: nat, p: nat, fat: seq<nat>, log0: seq<LogEntry>, log1: seq<LogEntry>)
    requires m <= |ch| && (p in ch || p < 2) && LogApart(ch[m..] + [p], fat, log0, log1)
    ensures LogApart(ch, fat, log0, log1)
  {
    hide EntryIs;
    forall i, d | |log0| <= i < |log1| && 2 <= d < |fat| && fat[d] != 0 && d !in ch
      ensures EntryIs(log1[i], d, fat[d])
    {
      assert d !in ch[m..] + [p];
    }
  }

  /** The first cluster stays one nothing links to. */
  lemma RootedCut(g: Geometry, fat: seq<nat>, fat1: seq<nat>, ch: seq<nat>, m: nat, p: nat)
    requires Rooted(fat, ch) && IsForest(fat1) && CutOrFreed(g, fat, fat1, p) && m <= |ch|
    requires |ch| > 0 ==> IsChain(fat, ch)
    requires g.MaxEntry() >= |fat|
    ensures Rooted(fat1, ch[..m])
  {
    hide IsForest, Geometry.MaxEntry;
    if m > 0 {
      ChainStep(fat, ch, 0);
      forall a | 2 <= a < |fat1|
        ensures fat1[a] != ch[..m][0]
      {
        assert fat1[a] == 0 || fat1[a] == CutAt(g, fat, p)[a];
      }
    }
  }

  /** The clusters of the chain from element `m` on are free. */
  ghost predicate Released(fat: seq<nat>, ch: seq<nat>, m: nat) {
    forall i :: m <= i < |ch| ==> ch[i] < |fat| && fat[ch[i]] == 0
  }

  lemma FreedReleased(fat: seq<nat>, ch: seq<nat>, m: nat)
    requires m <= |ch| && forall c :: c in ch ==> c < |fat|
    ensures Released(Freed(fat, ch[m..]), ch, m)
    ensures m == |ch| ==> Released(fat, ch, m)
  {
    forall i | m <= i < |ch|
      ensures ch[i] < |fat| && Freed(fat, ch[m..])[ch[i]] == 0
    {
      assert ch[m..][i - m] == ch[i] && ch[i] in ch;
    }
  }

  lemma ChainBelow(fat: seq<nat>, ch: seq<nat>)
    requires |ch| > 0 && IsChain(fat, ch)
    ensures forall c :: c in ch ==> c < |fat|
  {
  }

  /** f_truncate at position 0: the whole chain goes. */
  method CutAll(fs: Fatfs, sclust: u32, ghost ch: seq<nat>) returns (res: FResult)
    requires fs.Valid() && fs.g.fsType != ExFat && |ch| > 0 && IsChain(fs.fat, ch) && sclust as nat == ch[0]
    modifies fs, fs.win
    ensures res == FrOk || res == FrDiskErr
    ensures res == FrDiskErr ==> Faulted(old(fs.medium), fs.medium)
    ensures fs.Valid() && FatOnly(fs.g, old(fs.St()), fs.St()) && |fs.fat| == old(|fs.fat|)
    ensures forall d :: 2 <= d < |fs.fat| && old(fs.fat)[d] != 0 && d !in ch ==> fs.fat[d] == old(fs.fat)[d]
    ensures res == FrOk && HasReserved(fs.fat) ==> HasReserved(old(fs.fat))
    ensures res == FrOk && CountKnown(old(fs.fat), old(fs.freeClst)) ==> CountKnown(fs.fat, fs.freeClst)
    ensures res == FrOk ==> Released(fs.fat, ch, 0)
    ensures NoPredecessor(old(fs.fat), ch[0]) ==> StaysSafe(old(fs.log), fs.log, res != FrDiskErr)
    ensures NoPredecessor(old(fs.fat), ch[0]) && res == FrOk ==>
      Kept(old(fs.fat), old(fs.freeClst), fs.fat, fs.freeClst)
    ensures Pruned(ch, old(fs.fat), old(fs.log), [], fs.fat, fs.log, res == FrOk)
    ensures Onward(old(fs.medium), fs.medium)
  {
    hide Fatfs.Valid, FatOnly, IsForest, CountKnown, NoPredecessor, CrashSafe, Freed, Geometry.MaxEntry, IsChain,
         LogApart;
    ChainStep(fs.fat, ch, 0);
    assert CutAt(fs.g, fs.fat, 0) == fs.fat;
    assert ch[0..] == ch;
    ChainBelow(fs.fat, ch);
    FreedReleased(fs.fat, ch, 0);
    res := RemoveChain(fs, sclust, 0, ch);
    RemovedApart(ch, 0, 0, old(fs.fat), old(fs.log), fs.log);
  }

  /** f_truncate further on: clusters `m..` of the chain go, `clust` is element `m - 1`. */
  method CutTail(fs: Fatfs, clust: u32, ghost ch: seq<nat>, ghost m: nat) returns (res: FResult)
    requires fs.Valid() && fs.g.fsType != ExFat && IsChain(fs.fat, ch) && 0 < m <= |ch| && clust as nat == ch[m - 1]
    modifies fs, fs.win
    ensures res == FrOk || res == FrDiskErr
    ensures res == FrDiskErr ==> Faulted(old(fs.medium), fs.medium)
    ensures fs.Valid() && FatOnly(fs.g, old(fs.St()), fs.St()) && |fs.fat| == old(|fs.fat|)
    ensures forall d :: 2 <= d < |fs.fat| && old(fs.fat)[d] != 0 && d !in ch ==> fs.fat[d] == old(fs.fat)[d]
    ensures res == FrOk ==> IsChain(fs.fat, ch[..m]) && Released(fs.fat, ch, m)
    ensures res == FrOk && HasReserved(fs.fat) ==> HasReserved(old(fs.fat))
    ensures res == FrOk && CountKnown(old(fs.fat), old(fs.freeClst)) ==> CountKnown(fs.fat, fs.freeClst)
    ensures StaysSafe(old(fs.log), fs.log, res != FrDiskErr)
    ensures res == FrOk ==> Kept(old(fs.fat), old(fs.freeClst), fs.fat, fs.freeClst)
    ensures Pruned(ch, old(fs.fat), old(fs.log), ch[..m], fs.fat, fs.log, res == FrOk)
    ensures Onward(old(fs.medium), fs.medium)
  {
    hide Fatfs.Valid, FatOnly, IsForest, CountKnown, NoPredecessor, CrashSafe, Freed, Geometry.MaxEntry, IsChain,
         Geometry.WellFormed, WinState.Logical, LogApart, CutOrFreed, Released;
    ApartSelf(ch, fs.fat, fs.log);
    ghost var a := fs.St();
    ValidBasics(fs);
    MaxAbove(fs.g, |fs.disk|);
    ChainStep(fs.fat, ch, m - 1);
    ChainBelow(fs.fat, ch);
    assert clust as nat in ch;
    var ncl := GetFat(fs, clust);
    res := FrOk;
    if ncl == DISK_ERROR { res := FrDiskErr; }
    if ncl == 1 { res := FrIntErr; }
    if res == FrOk {
      if ncl < fs.g.nFatent {
        ghost var b := fs.St();
        CutAndFree(fs.g, fs.fat, ch, m);
        FreedReleased(CutAt(fs.g, fs.fat, clust), ch, m);
        res := RemoveChain(fs, ncl, clust, ch[m..]);
        FatOnlyTrans(fs.g, a, b, fs.St());
        RemovedApart(ch, m, clust, old(fs.fat), old(fs.log), fs.log);
        if res == FrOk && Rooted(old(fs.fat), ch) { RootedCut(fs.g, old(fs.fat), fs.fat, ch, m, clust); }
      } else {
        assert ch[..m] == ch;
        FreedReleased(fs.fat, ch, m);
      }
    }
  }

  // ---------- the file after the cut ----------

  /** The truncated file: first `m` clusters, size at the pointer. */
  function Shortened(f: FileState, m: nat): FileState
    requires m <= |f.ch|
  {
    f.(ch := f.ch[..m], sclust := if m == 0 then 0 else f.sclust, objsize := f.fptr, dirty := false)
  }

  lemma PrefixSectors(g: Geometry, ch: seq<nat>, m: nat, k: nat)
    requires g.csize > 0 && m <= |ch| && Idx(g, k) < m
    ensures SectorOf(g, ch[..m], k) == SectorOf(g, ch, k)
  {
  }

  /** Chain cut on the FAT and the buffer written out: what remains is the file up to the pointer. */
  lemma TruncateStep(g: Geometry, fat0: seq<nat>, st0: WinState, f: FileState, fat1: seq<nat>, st1: WinState,
                     st2: WinState, m: nat)
    requires Core(g, fat0, st0, f) && FatOnly(g, st0, st1) && |fat1| == |fat0|
    requires m <= |f.ch| && (m > 0 ==> IsChain(fat1, f.ch[..m])) && f.fptr <= Capacity(g, f.ch[..m])
    requires st2 == st1.(disk := st2.disk) && |st2.disk| == |st1.disk|
    requires forall s :: 0 <= s < |st1.disk| && !(f.dirty && s == f.sect) ==> st2.disk[s] == st1.disk[s]
    requires f.dirty ==> f.sect < |st2.disk| && st2.disk[f.sect] == f.buf
    ensures Core(g, fat1, st2, Shortened(f, m)) && |st2.disk| == |st0.disk|
    ensures forall k: nat {:trigger SectorOf(g, f.ch, k)} :: Idx(g, k) < m ==>
      0 <= SectorOf(g, f.ch, k) < |st0.disk| && SectorOf(g, f.ch[..m], k) == SectorOf(g, f.ch, k)
      && SectorData(g, st2.disk, Shortened(f, m), k) == SectorData(g, st0.disk, f, k)
  {
    hide Idx, Off, Sect, SectorOf, Geometry.WellFormed, Capacity, WinState.Logical, IsChain, Layout;
    var f2 := Shortened(f, m);
    FileSectorFacts(g, st0.disk, f);
    assert GoodChain(g, f2.ch);
    hide GoodChain;
    if f.sect != 0 {
      NotInFats(g, |st0.disk|, f.sect);
    }
    BelowInvalid(g, |st0.disk|);
    forall k: nat | Idx(g, k) < m
      ensures 0 <= SectorOf(g, f.ch, k) < |st0.disk| && SectorOf(g, f.ch[..m], k) == SectorOf(g, f.ch, k)
      ensures SectorData(g, st2.disk, f2, k) == SectorData(g, st0.disk, f, k)
    {
      PrefixSectors(g, f.ch, m, k);
      assert InFile(g, f.ch, SectorOf(g, f.ch, k));
    }
  }

  lemma TruncateContent(g: Geometry, d0: seq<Sector>, f: FileState, d2: seq<Sector>, m: nat)
    requires m <= |f.ch| && Readable(g, d0, f) && Readable(g, d2, Shortened(f, m))
    requires f.fptr <= f.objsize <= Capacity(g, f.ch) && f.fptr <= Capacity(g, f.ch[..m])
    requires forall k: nat {:trigger SectorOf(g, f.ch, k)} :: Idx(g, k) < m ==>
      0 <= SectorOf(g, f.ch, k) < |d0| && SectorOf(g, f.ch[..m], k) == SectorOf(g, f.ch, k) < |d2|
      && SectorData(g, d2, Shortened(f, m), k) == SectorData(g, d0, f, k)
    ensures Content(g, d2, Shortened(f, m)) == Content(g, d0, f)[..f.fptr]
  {
    hide Idx, Off, SectorOf, Geometry.WellFormed, Capacity, GoodChain, Layout, ByteAt, Content, SectorData;
    var c2, c0 := Content(g, d2, Shortened(f, m)), Content(g, d0, f);
    forall p | 0 <= p < f.fptr
      ensures c2[p] == c0[p]
    {
      ByteIs(g, d2, Shortened(f, m), p);
      ByteIs(g, d0, f, p);
    }
  }

  /** The write-back at the end of f_truncate: the buffered sector may belong to a cluster just freed. */
  method WriteOut(fs: Fatfs, fp: Fil, ghost ch: seq<nat>) returns (ok: bool)
    requires fs.Valid() && fp.buf.Length == 512 && fp.dirty && InFile(fs.g, ch, fp.sect)
    requires fs.g.database <= fp.sect < fs.g.dataEnd && fs.winsect != fp.sect
    modifies fs`disk, fs`medium, fp`dirty
    ensures fs.medium == old(fs.medium).Written(ok)
    ensures fs.Valid() && OwnOnly(fs.g, ch, old(fs.St()), fs.fat, fs.St(), fs.fat)
    ensures |fs.disk| == old(|fs.disk|) && fp.dirty == !ok
    ensures forall s :: 0 <= s < |fs.disk| && s != fp.sect ==> fs.disk[s] == old(fs.disk)[s]
    ensures ok ==> fp.sect < |fs.disk| && fs.disk[fp.sect] == fp.buf[..]
  {
    hide Fatfs.Valid, InFile;
    ok := WriteSectors(fs, fp.buf[..], fp.sect, 1);
    if ok {
      assert Slice(fp.buf[..], 0) == fp.buf[..];
      fp.dirty := false;
    }
  }

  /** The same if the buffer is dirty. */
  method WriteOutDirty(fs: Fatfs, fp: Fil, ghost f: FileState) returns (ok: bool)
    requires fs.Valid() && fp.buf.Length == 512 && fp.dirty == f.dirty && fp.sect == f.sect && fp.buf[..] == f.buf
    requires f.dirty ==> InFile(fs.g, f.ch, f.sect) && fs.g.database <= f.sect < fs.g.dataEnd && fs.winsect != f.sect
    modifies fs`disk, fs`medium, fp`dirty
    ensures fs.medium == if f.dirty then old(fs.medium).Written(ok) else old(fs.medium)
    ensures !ok ==> f.dirty && fp.dirty
    ensures fs.Valid() && OwnOnly(fs.g, f.ch, old(fs.St()), fs.fat, fs.St(), fs.fat)
    ensures |fs.disk| == old(|fs.disk|) && (ok ==> !fp.dirty)
    ensures ok ==> forall s :: 0 <= s < |fs.disk| && !(f.dirty && s == f.sect) ==> fs.disk[s] == old(fs.disk)[s]
    ensures ok && f.dirty ==> f.sect < |fs.disk| && fs.disk[f.sect] == f.buf
  {
    hide Fatfs.Valid, InFile, OwnOnly;
    ok := true;
    OwnOnlySelf(fs.g, f.ch, fs.St(), fs.fat);
    if fp.dirty { ok := WriteOut(fs, fp, f.ch); }
  }

  lemma ClustersBound(g: Geometry, ch: seq<nat>, p: nat)
    requires g.csize > 0 && p <= Capacity(g, ch)
    ensures ClustersFor(g, p) <= |ch| && p <= Capacity(g, ch[..ClustersFor(g, p)])
    ensures p > 0 ==> Idx(g, (p - 1) / 512) == ClustersFor(g, p) - 1
  {
    hide Idx, Capacity;
    if p > 0 {
      ByteIndex(g, ch, p - 1);
      ByteIndex(g, ch[..ClustersFor(g, p)], p - 1);
    }
  }

  /** What f_truncate needs to know about the file it is given. */
  lemma TruncateFacts(fs: Fatfs, fp: Fil)
    requires Open(fs, fp) && AtRest(fs.g, fp.State()) && fp.fptr < fp.objsize
    ensures fs.g.csize > 0 && 0 < |fp.ch| && IsChain(fs.fat, fp.ch) && fp.sclust as nat == fp.ch[0]
    ensures var m := ClustersFor(fs.g, fp.fptr); m <= |fp.ch| && fp.fptr <= Capacity(fs.g, fp.ch[..m])
    ensures fp.fptr > 0 ==> ClustersFor(fs.g, fp.fptr) > 0 && fp.clust as nat == fp.ch[ClustersFor(fs.g, fp.fptr) - 1]
    ensures fp.dirty ==>
      InFile(fs.g, fp.ch, fp.sect) && fs.g.database <= fp.sect < fs.g.dataEnd && fs.winsect != fp.sect
    ensures fp.dirty ==> !fs.g.InFats(fp.sect) && fp.sect < |fs.disk| && fp.sect != INVALID_SECTOR
    ensures Readable(fs.g, fs.disk, fp.State()) && fp.fptr <= fp.objsize <= Capacity(fs.g, fp.ch)
  {
    hide Idx, Capacity;
    ClustersBound(fs.g, fp.ch, fp.fptr);
    assert |fp.ch| > 0 by { if |fp.ch| == 0 { CapacityIs(fs.g, fp.ch, 0); } }
    if fp.dirty { DirtySector(fs, fp); }
  }

  lemma DirtySector(fs: Fatfs, fp: Fil)
    requires Open(fs, fp) && fp.dirty
    ensures InFile(fs.g, fp.ch, fp.sect) && fs.g.database <= fp.sect < fs.g.dataEnd && fs.winsect != fp.sect
    ensures !fs.g.InFats(fp.sect) && fp.sect < |fs.disk| && fp.sect != INVALID_SECTOR
  {
    FileSectorFacts(fs.g, fs.disk, fp.State());
  }

  /** The pointer of the shortened file is still at rest. */
  lemma ShortenedRest(g: Geometry, f: FileState, m: nat)
    requires AtRest(g, f) && m == ClustersFor(g, f.fptr) <= |f.ch|
    ensures AtRest(g, Shortened(f, m))
  {
    hide Idx, Off, Sect;
    if f.fptr % 512 != 0 {
      SamePrevSector(f.fptr);
      PrefixSectors(g, f.ch, m, f.fptr / 512);
    }
  }

  lemma TruncateDone(g: Geometry, fat0: seq<nat>, a: WinState, f: FileState, fat1: seq<nat>, b: WinState, c: WinState,
                     m: nat)
    requires Core(g, fat0, a, f) && AtRest(g, f) && FatOnly(g, a, b) && |fat1| == |fat0|
    requires m == ClustersFor(g, f.fptr) <= |f.ch| && (m > 0 ==> IsChain(fat1, f.ch[..m]))
    requires f.fptr <= Capacity(g, f.ch[..m])
    requires c == b.(disk := c.disk) && |c.disk| == |b.disk|
    requires forall s :: 0 <= s < |b.disk| && !(f.dirty && s == f.sect) ==> c.disk[s] == b.disk[s]
    requires f.dirty ==> f.sect < |c.disk| && c.disk[f.sect] == f.buf
    ensures var f2 := Shortened(f, m);
      && Core(g, fat1, c, f2) && AtRest(g, f2) && Readable(g, a.disk, f) && f.fptr <= f.objsize <= Capacity(g, f.ch)
      && Readable(g, c.disk, f2) && Content(g, c.disk, f2) == Content(g, a.disk, f)[..f.fptr]
  {
    hide Idx, Off, Sect, SectorOf, Geometry.WellFormed, Capacity, WinState.Logical, IsChain, Layout, GoodChain,
         InFile, Content, ClustersFor, SectorData, FatOnly, AtRest;
    TruncateStep(g, fat0, a, f, fat1, b, c, m);
    ShortenedRest(g, f, m);
    TruncateContent(g, a.disk, f, c.disk, m);
  }

  /** The chain part of f_truncate: of the clusters of the file the first `m` stay. */
  method CutChain(fs: Fatfs, fp: Fil, ghost m: nat) returns (res: FResult)
    requires fs.Valid() && fs.g.fsType != ExFat && 0 < |fp.ch| && IsChain(fs.fat, fp.ch) && fp.sclust as nat == fp.ch[0]
    requires if fp.fptr == 0 then m == 0 else 0 < m <= |fp.ch| && fp.clust as nat == fp.ch[m - 1]
    modifies fs, fs.win, fp`sclust
    ensures res == FrOk || res == FrDiskErr
    ensures res == FrDiskErr ==> Faulted(old(fs.medium), fs.medium)
    ensures fs.Valid() && FatOnly(fs.g, old(fs.St()), fs.St()) && |fs.fat| == old(|fs.fat|)
    ensures OwnOnly(fs.g, fp.ch, old(fs.St()), old(fs.fat), fs.St(), fs.fat)
    ensures fp.sclust == if fp.fptr == 0 then 0 else old(fp.sclust)
    ensures res == FrOk && m > 0 ==> IsChain(fs.fat, fp.ch[..m])
    ensures res == FrOk ==> Released(fs.fat, fp.ch, m)
    ensures res == FrOk && HasReserved(fs.fat) ==> HasReserved(old(fs.fat))
    ensures res == FrOk && CountKnown(old(fs.fat), old(fs.freeClst)) ==> CountKnown(fs.fat, fs.freeClst)
    ensures (fp.fptr > 0 || NoPredecessor(old(fs.fat), fp.ch[0])) ==>
      StaysSafe(old(fs.log), fs.log, res != FrDiskErr)
      && (res == FrOk ==> Kept(old(fs.fat), old(fs.freeClst), fs.fat, fs.freeClst))
    ensures Pruned(fp.ch, old(fs.fat), old(fs.log), fp.ch[..m], fs.fat, fs.log, res == FrOk)
    ensures Onward(old(fs.medium), fs.medium)
  {
    hide Fatfs.Valid, FatOnly, IsForest, CountKnown, NoPredecessor, CrashSafe, IsChain, Kept, OwnOnly, Pruned;
    ghost var a, fat0 := fs.St(), fs.fat;
    if fp.fptr == 0 {
      res := CutAll(fs, fp.sclust, fp.ch);
      fp.sclust := 0;
    } else {
      res := CutTail(fs, fp.clust, fp.ch, m);
    }
    FatOnlyOwn(fs.g, fp.ch, a, fat0, fs.St(), fs.fat);
  }

  /** Chain and buffer part of f_truncate; `b` is the state between the two. */
  method CutAndWrite(fs: Fatfs, fp: Fil, ghost f: FileState, ghost m: nat) returns (res: FResult, ghost b: WinState)
    requires fs.Valid() && fs.g.fsType != ExFat && 0 < |fp.ch| && IsChain(fs.fat, fp.ch) && fp.sclust as nat == fp.ch[0]
    requires if fp.fptr == 0 then m == 0 else 0 < m <= |fp.ch| && fp.clust as nat == fp.ch[m - 1]
    requires f == fp.State() && fp.buf.Length == 512 && fp.buf != fs.win
    requires f.dirty ==> InFile(fs.g, f.ch, f.sect) && fs.g.database <= f.sect < fs.g.dataEnd && fs.winsect != f.sect
    requires f.dirty ==> !fs.g.InFats(f.sect) && f.sect != INVALID_SECTOR
    modifies fs, fs.win, fp`sclust, fp`objsize, fp`modified, fp`dirty
    ensures res == FrOk || res == FrDiskErr
    ensures res == FrDiskErr ==> Faulted(old(fs.medium), fs.medium)
    ensures fs.Valid() && fp.modified && fp.objsize == fp.fptr && |fs.fat| == old(|fs.fat|)
    ensures OwnOnly(fs.g, fp.ch, old(fs.St()), old(fs.fat), fs.St(), fs.fat)
    ensures fp.sclust == if fp.fptr == 0 then 0 else old(fp.sclust)
    ensures res == FrOk ==> FatOnly(fs.g, old(fs.St()), b) && !fp.dirty && (m > 0 ==> IsChain(fs.fat, fp.ch[..m]))
    ensures res == FrOk ==> Released(fs.fat, fp.ch, m)
    ensures res != FrOk ==> fp.dirty == old(fp.dirty)
    ensures res == FrOk ==> fs.St() == b.(disk := fs.disk) && |fs.disk| == |b.disk|
    ensures res == FrOk ==> forall s :: 0 <= s < |b.disk| && !(f.dirty && s == f.sect) ==> fs.disk[s] == b.disk[s]
    ensures res == FrOk && f.dirty ==> f.sect < |fs.disk| && fs.disk[f.sect] == f.buf
    ensures res == FrOk && HasReserved(fs.fat) ==> HasReserved(old(fs.fat))
    ensures res == FrOk && CountKnown(old(fs.fat), old(fs.freeClst)) ==> CountKnown(fs.fat, fs.freeClst)
    ensures (fp.fptr > 0 || NoPredecessor(old(fs.fat), fp.ch[0])) ==>
      StaysSafe(old(fs.log), fs.log, res != FrDiskErr)
      && (res == FrOk ==> Kept(old(fs.fat), old(fs.freeClst), fs.fat, fs.freeClst))
    ensures Pruned(fp.ch, old(fs.fat), old(fs.log), fp.ch[..m], fs.fat, fs.log, res == FrOk)
    ensures Onward(old(fs.medium), fs.medium)
  {
    hide Fatfs.Valid, OwnOnly, InFile, Kept, CountKnown, NoPredecessor, CrashSafe, FatOnly, IsForest, IsChain,
         HasReserved, WinState.Logical, Rooted, LogApart;
    ghost var a, fat0 := fs.St(), fs.fat;
    res := CutChain(fs, fp, m);
    fp.objsize := fp.fptr;
    fp.modified := true;
    b := fs.St();
    ghost var fatb := fs.fat;
    if res != FrOk { return; }
    if f.dirty { WindowAway(fs.g, a, b, f.sect); }
    var ok := WriteOutDirty(fs, fp, f);
    OwnOnlyTrans(fs.g, f.ch, f.ch, a, fat0, b, fatb, fs.St(), fs.fat);
    if !ok { res := FrDiskErr; }
  }

  /** f_truncate of a file that has bytes behind fptr. */
  method TruncateHere(fs: Fatfs, fp: Fil) returns (res: FResult)
    requires Open(fs, fp) && AtRest(fs.g, fp.State()) && fp.fptr < fp.objsize
    modifies fs, fs.win, fp`sclust, fp`objsize, fp`modified, fp`dirty, fp`ch
    ensures res == FrOk || res == FrDiskErr
    ensures res == FrDiskErr ==> Faulted(old(fs.medium), fs.medium)
    ensures fp.modified
    ensures fs.Valid() && OwnOnly(fs.g, old(fp.ch), old(fs.St()), old(fs.fat), fs.St(), fs.fat)
    ensures fp.ch <= old(fp.ch)
    ensures res == FrOk ==> Open(fs, fp) && AtRest(fs.g, fp.State()) && fp.objsize == fp.fptr
    ensures res == FrOk ==> FileBytesOf(fs, fp) == old(FileBytesOf(fs, fp))[..fp.fptr]
    ensures res == FrOk ==> fs.g.csize > 0 && |fp.ch| == ClustersFor(fs.g, fp.fptr) && fp.modified && !fp.dirty
    ensures res == FrOk ==> Released(fs.fat, old(fp.ch), |fp.ch|)
    ensures res == FrOk && HasReserved(fs.fat) ==> HasReserved(old(fs.fat))
    ensures res == FrOk && CountKnown(old(fs.fat), old(fs.freeClst)) ==> CountKnown(fs.fat, fs.freeClst)
    ensures (fp.fptr > 0 || old(fp.ch) == [] || NoPredecessor(old(fs.fat), old(fp.ch[0]))) ==>
      StaysSafe(old(fs.log), fs.log, res != FrDiskErr)
      && (res == FrOk ==> Kept(old(fs.fat), old(fs.freeClst), fs.fat, fs.freeClst))
    ensures Pruned(old(fp.ch), old(fs.fat), old(fs.log), fp.ch, fs.fat, fs.log, res == FrOk)
    ensures Onward(old(fs.medium), fs.medium)
  {
    hide Fatfs.Valid, Idx, Off, Sect, SectorOf, Geometry.WellFormed, Capacity, IsChain, GoodChain, Layout,
         SectorData, WinState.Logical, OwnOnly, InFile, Content, Kept, CountKnown, NoPredecessor, CrashSafe,
         FatOnly, Core, AtRest, Readable, ClustersFor, IsForest, WinState.Coherent, HasReserved, Rooted, LogApart;
    ghost var a, f, fat0 := fs.St(), fp.State(), fs.fat;
    assert Core(fs.g, fat0, a, f);
    TruncateFacts(fs, fp);
    ghost var m := ClustersFor(fs.g, fp.fptr);
    ZeroClusters(fs.g);
    ghost var b;
    res, b := CutAndWrite(fs, fp, f, m);
    if res != FrOk { return; }
    TruncateDone(fs.g, fat0, a, f, fs.fat, b, fs.St(), m);
    fp.ch := fp.ch[..m];
    assert fp.State() == Shortened(f, m);
  }

  lemma ZeroClusters(g: Geometry)
    requires g.csize > 0
    ensures ClustersFor(g, 0) == 0
  {
  }

  lemma WindowAway(g: Geometry, a: WinState, b: WinState, s: u32)
    requires FatOnly(g, a, b) && !g.InFats(s) && s != INVALID_SECTOR && a.winsect != s
    ensures b.winsect != s
  {
  }

  /** f_truncate. On FR_OK the file ends at fptr; the bytes before it are as they were. */
  method FTruncate(fs: Fatfs, fp: Fil) returns (res: FResult)
    requires fs.g.fsType != ExFat
    requires fp.err == FrOk ==> Open(fs, fp) && AtRest(fs.g, fp.State())
    modifies fs, fs.win, fp
    ensures old(fp.err) != FrOk ==> res == old(fp.err)
    ensures old(fp.err) == FrOk && !fp.canWrite ==> res == FrDenied && fp.err == FrOk
    ensures old(fp.err) == FrOk && fp.canWrite ==> fp.err == res && (res == FrOk || res == FrDiskErr)
    ensures old(fp.err) == FrOk && res == FrDiskErr ==> Faulted(old(fs.medium), fs.medium)
    ensures old(fp.err) == FrOk ==> fs.Valid() && OwnOnly(fs.g, old(fp.ch), old(fs.St()), old(fs.fat), fs.St(), fs.fat)
    ensures fp.ch <= old(fp.ch)
    ensures res == FrOk ==> Open(fs, fp) && AtRest(fs.g, fp.State())
    ensures res == FrOk ==>
      fp.fptr == old(fp.fptr) == fp.objsize && FileBytesOf(fs, fp) == old(FileBytesOf(fs, fp))[..fp.fptr]
    // exactly the clusters the remaining bytes need are kept and the others are free, if anything was cut
    ensures res == FrOk && old(fp.fptr) < old(fp.objsize) ==> Released(fs.fat, old(fp.ch), |fp.ch|)
    ensures (res == FrOk && old(fp.fptr) < old(fp.objsize)) ==>
      fs.g.csize > 0 && |fp.ch| == ClustersFor(fs.g, fp.fptr) && fp.modified && !fp.dirty
    ensures old(fp.err) == FrOk && fp.canWrite ==> fp.modified == (old(fp.modified) || old(fp.fptr) < old(fp.objsize))
    ensures old(fp.fptr) >= old(fp.objsize) ==>
      fs.St() == old(fs.St()) && fs.log == old(fs.log) && fs.medium == old(fs.medium) && fp.State() == old(fp.State())
    ensures fp.sect == old(fp.sect)
    ensures res == FrOk && HasReserved(fs.fat) ==> HasReserved(old(fs.fat))
    ensures res == FrOk && CountKnown(old(fs.fat), old(fs.freeClst)) ==> CountKnown(fs.fat, fs.freeClst)
    ensures (old(fp.err) == FrOk && (fp.fptr > 0 || old(fp.ch) == [] || NoPredecessor(old(fs.fat), old(fp.ch[0])))) ==>
      StaysSafe(old(fs.log), fs.log, res != FrDiskErr)
      && (res == FrOk ==> Kept(old(fs.fat), old(fs.freeClst), fs.fat, fs.freeClst))
    ensures Pruned(old(fp.ch), old(fs.fat), old(fs.log), fp.ch, fs.fat, fs.log, res == FrOk)
    ensures old(fp.err) == FrOk ==> Onward(old(fs.medium), fs.medium)
  {
    hide Fatfs.Valid, Idx, Off, Sect, SectorOf, Geometry.WellFormed, Capacity, IsChain, GoodChain, Layout,
         SectorData, WinState.Logical, OwnOnly, InFile, Content, CountKnown, NoPredecessor, CrashSafe, FatOnly,
         IsForest, Pruned;
    PrunedSelf(fp.ch, fs.fat, fs.log, true);
    PrunedSelf(fp.ch, fs.fat, fs.log, false);
    if fp.err != FrOk { return fp.err; }
    FatOnlyOwnSelf(fs, fp);
    if !fp.canWrite { return FrDenied; }
    if fp.fptr < fp.objsize {
      TruncateFacts(fs, fp);
      res := TruncateHere(fs, fp);
      if res != FrOk { fp.err := res; }
    } else {
      CoreSize(fs, fp);
      res := FrOk;
    }
  }
}
