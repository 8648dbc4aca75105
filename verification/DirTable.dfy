/** Directory tables on FAT12/16/32 as sequences of 32-byte slots, and the cursor over them (dir_sdi, dir_next). */
module DirTable {
  import opened Bytes
  import opened Arith
  import opened Volume
  import opened Window
  import opened FatAccess
  import opened Forest
  import opened Chains
  import opened FileBytes
  import opened FatFile
  import opened FileSeek
  import opened Names
  import opened NameEntries

  const SZDIRE: nat := 32
  const MAX_DIR: nat := 0x200000

  /** The static root directory of FAT12/16 lies between the FATs and the data; on FAT32 `dirbase` is a cluster. */
  ghost predicate DirLayout(g: Geometry) {
    && g.csize > 0 && g.fsType != ExFat
    && (g.fsType == Fat12 || g.fsType == Fat16 ==>
          && g.fatbase + (if g.nFats == 2 then g.fsize + g.fsize else g.fsize) <= g.dirbase
          && g.dirbase + g.nRootdir / 16 <= g.database && g.nRootdir % 16 == 0 && g.nRootdir > 0)
  }

  /** Number of sectors of the table with the clusters `ch`; no clusters: the static root directory. */
  function TableSize(g: Geometry, ch: seq<nat>): nat {
    if ch == [] then g.nRootdir / 16 else g.csize * |ch|
  }

  /** The `i`-th sector of the table. */
  function TableSect(g: Geometry, ch: seq<nat>, i: nat): int
    requires g.csize > 0 && i < TableSize(g, ch)
  {
    SectorIndex(g, |ch|, i);
    if ch == [] then g.dirbase + i else SectorOf(g, ch, i)
  }

  /** The clusters of the directory with start cluster `sclust` (0: the root). */
  ghost predicate TableOf(g: Geometry, fat: seq<nat>, sclust: nat, ch: seq<nat>) {
    if ch == [] then sclust == 0 && (g.fsType == Fat12 || g.fsType == Fat16)
    else
      && IsChain(fat, ch) && |fat| == g.nFatent
      && ch[0] == if sclust == 0 && g.fsType == Fat32 then g.dirbase else sclust
  }

  lemma ChainIsGood(g: Geometry, fat: seq<nat>, ch: seq<nat>)
    requires IsChain(fat, ch) && |fat| == g.nFatent && g.csize > 0
    ensures GoodChain(g, ch)
  {
    forall i, j | 0 <= i < j < |ch|
      ensures ch[i] != ch[j]
    {
      ChainDistinct(fat, ch, i, j);
    }
  }

  /** The table's sectors are sectors of the volume that nothing else uses, each occurring once. */
  lemma TableSectFacts(g: Geometry, nsect: nat, ch: seq<nat>, i: nat)
    requires g.WellFormed(nsect) && Layout(g) && DirLayout(g) && (ch == [] ==> g.fsType != Fat32) && GoodChain(g, ch)
    requires i < TableSize(g, ch)
    ensures 0 < TableSect(g, ch, i) < nsect < 0xFFFF_FFFF && Plain(g, TableSect(g, ch, i))
    ensures !g.InFats(TableSect(g, ch, i))
  {
    if ch != [] {
      SectorIndex(g, |ch|, i);
      SectorOfRange(g, nsect, ch, i);
    }
  }

  lemma TableSectInjective(g: Geometry, ch: seq<nat>, i: nat, j: nat)
    requires GoodChain(g, ch) && i < TableSize(g, ch) && j < TableSize(g, ch)
    requires TableSect(g, ch, i) == TableSect(g, ch, j)
    ensures i == j
  {
    if ch != [] {
      SectorIndex(g, |ch|, i);
      SectorIndex(g, |ch|, j);
      SectorOfInjective(g, ch, i, j);
    }
  }

  // ---------- slots ----------

  function NumSlots(g: Geometry, ch: seq<nat>): nat {
    16 * TableSize(g, ch)
  }

  /** Slot `k` of the table in a sector image. */
  function SlotAt(g: Geometry, img: seq<Sector>, ch: seq<nat>, k: nat): Slot
    requires g.csize > 0 && k < NumSlots(g, ch)
  {
    var s := TableSect(g, ch, k / 16);
    var z: Slot := seq<byte>(32, _ => 0);
    if 0 <= s < |img| then img[s][32 * (k % 16)..32 * (k % 16) + 32] else z
  }

  ghost function Slots(g: Geometry, img: seq<Sector>, ch: seq<nat>): (r: seq<Slot>)
    requires g.csize > 0
    ensures |r| == NumSlots(g, ch) && forall k :: 0 <= k < |r| ==> r[k] == SlotAt(g, img, ch, k)
  {
    seq<Slot>(NumSlots(g, ch), k requires 0 <= k < NumSlots(g, ch) => SlotAt(g, img, ch, k))
  }

  /** Slots do not depend on the FAT. */
  lemma SlotsFrame(g: Geometry, a: seq<Sector>, b: seq<Sector>, ch: seq<nat>)
    requires g.WellFormed(|a|) && Layout(g) && DirLayout(g) && (ch == [] ==> g.fsType != Fat32) && GoodChain(g, ch)
    requires |b| == |a| && forall s :: 0 <= s < |a| && !g.InFats(s) ==> b[s] == a[s]
    ensures Slots(g, b, ch) == Slots(g, a, ch)
  {
    hide Geometry.WellFormed, Layout, GoodChain, TableSect, TableSize;
    forall k | 0 <= k < NumSlots(g, ch)
      ensures SlotAt(g, b, ch, k) == SlotAt(g, a, ch, k)
    {
      TableSectFacts(g, |a|, ch, k / 16);
    }
  }

  /** Rewriting the 32 bytes of slot `k`. */
  lemma SlotEdited(g: Geometry, a: seq<Sector>, b: seq<Sector>, ch: seq<nat>, k: nat, w: Sector)
    requires g.WellFormed(|a|) && Layout(g) && DirLayout(g) && (ch == [] ==> g.fsType != Fat32) && GoodChain(g, ch)
    requires k < NumSlots(g, ch)
    requires var s := TableSect(g, ch, k / 16); 0 <= s < |a| && b == a[s := w]
    requires var w0 := a[TableSect(g, ch, k / 16)];
      forall i :: 0 <= i < 512 && !(32 * (k % 16) <= i < 32 * (k % 16) + 32) ==> w[i] == w0[i]
    ensures Slots(g, b, ch) == Slots(g, a, ch)[k := w[32 * (k % 16)..32 * (k % 16) + 32]]
  {
    hide Geometry.WellFormed, Layout, GoodChain, TableSect, TableSize;
    forall j | 0 <= j < NumSlots(g, ch)
      ensures SlotAt(g, b, ch, j) == if j == k then w[32 * (k % 16)..32 * (k % 16) + 32] else SlotAt(g, a, ch, j)
    {
      TableSectFacts(g, |a|, ch, j / 16);
      if j / 16 == k / 16 {
        if j % 16 == k % 16 { SameDivMod(j, k, 16); }
        OtherSlot(a[TableSect(g, ch, k / 16)], w, j % 16, k % 16);
      } else if TableSect(g, ch, j / 16) == TableSect(g, ch, k / 16) {
        TableSectInjective(g, ch, j / 16, k / 16);
      }
    }
  }

  lemma OtherSlot(w0: Sector, w: Sector, i: nat, k: nat)
    requires i < 16 && k < 16
    requires forall b :: 0 <= b < 512 && !(32 * k <= b < 32 * k + 32) ==> w[b] == w0[b]
    ensures i != k ==> w[32 * i..32 * i + 32] == w0[32 * i..32 * i + 32]
  {
    if i < k {
      assert 32 * i + 32 <= 32 * k;
    } else if i > k {
      assert 32 * k + 32 <= 32 * i;
    }
  }

  // ---------- the cursor ----------

  /** DIR. The pointer `dir` into the window is `dptr % 512`. */
  class Dir {
    var sclust: u32
    var clust: u32
    var sect: u32          // 0: the read pointer has passed the end
    var dptr: u32
    var blkOfs: u32
    const fn: array<byte>  // the short name; its flag byte is `flags`
    var flags: NameFlags

    /** The clusters of the table; none for a static root directory. */
    ghost var ch: seq<nat>
  }

  /** A directory of the volume. */
  ghost predicate Opened(fs: Fatfs, dp: Dir)
    reads fs, fs.win, dp`sclust, dp`ch
  {
    && fs.Valid() && Layout(fs.g) && DirLayout(fs.g)
    && TableOf(fs.g, fs.fat, dp.sclust, dp.ch)
  }

  /** The slots of the directory as the file system sees them. */
  ghost function Table(fs: Fatfs, dp: Dir): seq<Slot>
    requires fs.g.csize > 0
    reads fs, fs.win, dp`ch
  {
    Slots(fs.g, fs.St().Logical(), dp.ch)
  }

  /** The cursor's sector and cluster are those of the table's sector `i`. */
  ghost predicate InSector(g: Geometry, dp: Dir, i: nat)
    requires g.csize > 0
    reads dp`sect, dp`clust, dp`ch
  {
    && i < TableSize(g, dp.ch) && dp.sect == TableSect(g, dp.ch, i) && dp.sect != 0
    && (if dp.ch == [] then dp.clust == 0 else Idx(g, i) < |dp.ch| && dp.clust as nat == dp.ch[Idx(g, i)])
  }

  /** The cursor is on slot `k`. */
  ghost predicate OnSlot(g: Geometry, dp: Dir, k: nat)
    requires g.csize > 0
    reads dp`sect, dp`clust, dp`ch, dp`dptr
  {
    k < NumSlots(g, dp.ch) && dp.dptr == 32 * k < MAX_DIR && InSector(g, dp, k / 16)
  }

  lemma OpenedBasics(fs: Fatfs, dp: Dir)
    requires Opened(fs, dp)
    ensures fs.g.WellFormed(|fs.disk|) && |fs.fat| == fs.g.nFatent && fs.win.Length == 512 && fs.g.csize > 0
    ensures fs.g.fsType != ExFat
    ensures 2 < fs.g.nFatent <= 0x7FFF_FFFF && Layout(fs.g) && DirLayout(fs.g) && GoodChain(fs.g, dp.ch) && fs.Valid()
    ensures dp.ch == [] ==> fs.g.fsType != Fat32 && dp.sclust == 0
    ensures dp.ch != [] ==> IsChain(fs.fat, dp.ch)
  {
    ValidBasics(fs);
    if dp.ch != [] { ChainIsGood(fs.g, fs.fat, dp.ch); }
  }

  /** Steps that only read keep the directory and its slots. */
  lemma TableKept(fs: Fatfs, dp: Dir, a: WinState, ch: seq<nat>)
    requires a.Coherent(fs.g) && Layout(fs.g) && DirLayout(fs.g) && (ch == [] ==> fs.g.fsType != Fat32)
    requires GoodChain(fs.g, ch)
    requires FatOnly(fs.g, a, fs.St()) && dp.ch == ch
    ensures fs.g.csize > 0 && Table(fs, dp) == Slots(fs.g, a.Logical(), ch)
  {
    hide WinState.Logical, Slots;
    SlotsFrame(fs.g, a.Logical(), fs.St().Logical(), ch);
  }

  lemma CoherentNow(fs: Fatfs)
    requires fs.Valid()
    ensures fs.St().Coherent(fs.g) && fs.g.WellFormed(|fs.disk|)
  {
  }

  /** The capacity of a table of clusters in bytes. */
  lemma TableBytes(g: Geometry, ch: seq<nat>)
    requires g.csize > 0 && ch != []
    ensures 32 * NumSlots(g, ch) == Bcs(g) * |ch|
  {
    assert Bcs(g) * |ch| == 512 * (g.csize * |ch|);
  }

  /** The cluster-following loop of dir_sdi: cluster and offset in it of byte `ofs` of the table. */
  method FollowTable(fs: Fatfs, dp: Dir, clst0: u32, ofs: u32)
    returns (res: FResult, clst: u32, rest: u32, ghost i: nat)
    requires Opened(fs, dp) && dp.ch != [] && clst0 as nat == dp.ch[0]
    modifies fs`disk, fs`wflag, fs`medium, fs`winsect, fs.win
    ensures fs.Valid() && FatOnly(fs.g, old(fs.St()), fs.St()) && Onward(old(fs.medium), fs.medium)
    ensures res == FrOk || res == FrIntErr || res == FrDiskErr
    ensures res == FrOk ==>
      i < |dp.ch| && clst as nat == dp.ch[i] && ofs as int == Bcs(fs.g) * i + rest && rest < Bcs(fs.g)
    ensures res == FrIntErr ==> Bcs(fs.g) * |dp.ch| <= ofs
    ensures res == FrDiskErr ==> Faulted(old(fs.medium), fs.medium)
  {
    hide Fatfs.Valid, FatOnly, WinState.Logical, Geometry.WellFormed, Layout, DirLayout, GoodChain, IsChain,
         WinState.Coherent, Bcs;
    OpenedBasics(fs, dp);
    FatOnlySelf(fs.g, fs.St());
    BcsIndex(fs.g, 0, 0);
    ghost var a := fs.St();
    clst, rest, i := clst0, ofs, 0;
    ChainStep(fs.fat, dp.ch, 0);
    assert Bcs(fs.g) * 0 == 0;
    while rest >= Bcs(fs.g)
      invariant fs.Valid() && FatOnly(fs.g, a, fs.St()) && Onward(old(fs.medium), fs.medium)
      invariant i < |dp.ch| && clst as nat == dp.ch[i] && ofs as int == Bcs(fs.g) * i + rest
      decreases rest
    {
      ghost var b := fs.St();
      ChainStep(fs.fat, dp.ch, i);
      assert Bcs(fs.g) * (i + 1) == Bcs(fs.g) * i + Bcs(fs.g);
      clst := GetFat(fs, clst);
      FatOnlyTrans(fs.g, a, b, fs.St());
      if clst == DISK_ERROR { return FrDiskErr, clst, rest, i; }
      if clst < 2 || clst >= fs.g.nFatent { return FrIntErr, clst, rest, i; }
      rest, i := rest - Bcs(fs.g), i + 1;
    }
    res := FrOk;
  }

  lemma StaticSlots(g: Geometry, nsect: nat, ofs: nat)
    requires g.WellFormed(nsect) && DirLayout(g) && (g.fsType == Fat12 || g.fsType == Fat16) && ofs % 32 == 0
    ensures NumSlots(g, []) == g.nRootdir && 0 < g.dirbase < 0xFFFF_FFFF
    ensures ofs / 32 < g.nRootdir ==>
      ofs / 32 / 16 < TableSize(g, []) && TableSect(g, [], ofs / 32 / 16) == g.dirbase + ofs / 512 < 0xFFFF_FFFF
  {
    assert ofs / 32 / 16 == ofs / 512;
  }

  lemma ClusterSlot(g: Geometry, nsect: nat, ch: seq<nat>, i: nat, ofs: nat, rest: nat, clst: u32)
    requires g.WellFormed(nsect) && Layout(g) && GoodChain(g, ch)
    requires i < |ch| && clst as nat == ch[i] && ofs == Bcs(g) * i + rest && rest < Bcs(g) && ofs % 32 == 0
    ensures ofs / 32 < NumSlots(g, ch) && ofs / 32 / 16 < TableSize(g, ch) && Idx(g, ofs / 32 / 16) == i
    ensures ClstToSect(g, clst) != 0 && ClstToSect(g, clst) + rest / 512 == TableSect(g, ch, ofs / 32 / 16)
    ensures 0 < ClstToSect(g, clst) && 0 < TableSect(g, ch, ofs / 32 / 16) < 0xFFFF_FFFF
  {
    hide Geometry.WellFormed, Layout, GoodChain, Bcs, SectorOf;
    CsizeOf(g, ch);
    assert ofs / 32 / 16 == ofs / 512;
    ClusterInside(g, i, rest);
    SectorIndex(g, |ch|, ofs / 512);
    ClstToSectIs(g, nsect, ch, clst, ofs / 512);
  }

  lemma CsizeOf(g: Geometry, ch: seq<nat>)
    requires GoodChain(g, ch)
    ensures g.csize > 0
  {
  }

  /** The table's first cluster; 0 only for a static root directory. */
  lemma StartCluster(fs: Fatfs, dp: Dir)
    requires Opened(fs, dp)
    ensures fs.g.fsType == Fat32 && dp.sclust == 0 ==> dp.ch != [] && 2 <= dp.ch[0] == fs.g.dirbase < 0x7FFF_FFFF
    ensures !(fs.g.fsType == Fat32 && dp.sclust == 0) ==>
      if dp.sclust == 0 then dp.ch == [] else dp.ch != [] && dp.ch[0] == dp.sclust as nat
    ensures dp.ch == [] ==> fs.g.fsType == Fat12 || fs.g.fsType == Fat16
  {
    ValidBasics(fs);
    if dp.ch != [] { ChainStep(fs.fat, dp.ch, 0); }
  }

  /** No table is empty. */
  lemma SomeSlot(fs: Fatfs, dp: Dir)
    requires Opened(fs, dp)
    ensures NumSlots(fs.g, dp.ch) > 0
  {
    hide Fatfs.Valid, GoodChain, Layout, IsChain, WinState.Logical;
    StartCluster(fs, dp);
    if dp.ch != [] { assert fs.g.csize * |dp.ch| > 0; }
  }

  /** dir_sdi: on FR_OK the cursor is on slot `ofs / 32`; FR_INT_ERR means that there is no such slot. */
  method DirSdi(fs: Fatfs, dp: Dir, ofs: u32) returns (res: FResult)
    requires Opened(fs, dp)
    modifies fs`disk, fs`wflag, fs`medium, fs`winsect, fs.win, dp`dptr, dp`clust, dp`sect
    ensures Opened(fs, dp) && Table(fs, dp) == old(Table(fs, dp))
    ensures res == FrOk || res == FrIntErr || res == FrDiskErr
    ensures res == FrOk ==> ofs % 32 == 0 && OnSlot(fs.g, dp, ofs / 32)
    ensures res == FrIntErr ==> ofs >= 0x20_0000 || ofs % 32 != 0 || ofs / 32 >= NumSlots(fs.g, dp.ch)
    ensures Onward(old(fs.medium), fs.medium)
    ensures res == FrDiskErr ==> Faulted(old(fs.medium), fs.medium)
  {
    hide Fatfs.Valid, FatOnly, WinState.Logical, Slots, Geometry.WellFormed, Layout, DirLayout, GoodChain, IsChain,
         TableSect, NumSlots, WinState.Coherent, Bcs, Idx, TableOf, ClstToSect, TableSize, SectorOf;
    OpenedBasics(fs, dp);
    if ofs >= MAX_DIR || ofs % SZDIRE != 0 { return FrIntErr; }
    dp.dptr := ofs;
    var clst := dp.sclust;
    StartCluster(fs, dp);
    if clst == 0 && fs.g.fsType == Fat32 { clst := fs.g.dirbase; }
    var rest := ofs;
    if clst == 0 {
      StaticSlots(fs.g, |fs.disk|, ofs);
      if ofs / SZDIRE >= fs.g.nRootdir { return FrIntErr; }
      dp.sect := fs.g.dirbase;
    } else {
      ghost var a := fs.St();
      CoherentNow(fs);
      ghost var i;
      res, clst, rest, i := FollowTable(fs, dp, clst, ofs);
      OpenedBasics(fs, dp);
      TableKept(fs, dp, a, dp.ch);
      TableBytes(fs.g, dp.ch);
      if res != FrOk { return; }
      ClusterSlot(fs.g, |fs.disk|, dp.ch, i, ofs, rest, clst);
      dp.sect := ClstToSect(fs.g, clst);
    }
    dp.clust := clst;
    if dp.sect == 0 { return FrIntErr; }
    dp.sect := dp.sect + rest / 512;
    res := FrOk;
  }
}
