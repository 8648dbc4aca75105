/** dir_clear and dir_next on FAT12/16/32: stepping through a directory table, and stretching it. */
module DirStep {
  import opened Bytes
  import opened Arith
  import opened Volume
  import opened Window
  import opened FatAccess
  import opened Forest
  import opened Chains
  import opened FileBytes
  import opened FileSteps
  import opened FatFile
  import opened NameEntries
  import opened DirTable

  // ---------- dir_clear ----------

  /** Data sectors replaced while the window shows one of them, clean. */
  lemma ClearStep(g: Geometry, a: WinState, b: WinState, fat: seq<nat>, onMedium: seq<nat>)
    requires a.Coherent(g) && !a.wflag && FatOf(g, a.Logical(), fat)
    requires |b.disk| == |a.disk| && !b.wflag && |b.win| == 512 && b.winsect < |b.disk| && b.disk[b.winsect] == b.win
    requires forall s :: 0 <= s < |a.disk| && !(g.database <= s < g.dataEnd) ==> b.disk[s] == a.disk[s]
    ensures b.Coherent(g) && FatOf(g, b.Logical(), fat) && a.Logical() == a.disk && b.Logical() == b.disk
    ensures forall x :: MirroredBut(g, a.disk, x) ==> MirroredBut(g, b.disk, x)
    ensures FatOf(g, a.disk, onMedium) ==> FatOf(g, b.disk, onMedium)
    ensures g.fsinfo ==> b.disk[g.volbase + 1] == a.disk[g.volbase + 1]
  {
    FatOfFrame(g, a.disk, b.disk, fat);
    if FatOf(g, a.disk, onMedium) { FatOfFrame(g, a.disk, b.disk, onMedium); }
  }

  function ZeroSector(): (s: Sector)
    ensures forall i :: 0 <= i < 512 ==> s[i] == 0
  {
    seq<byte>(512, _ => 0)
  }

  /** The sectors of a cluster. */
  lemma ClusterRange(g: Geometry, nsect: nat, c: u32)
    requires g.WellFormed(nsect) && Layout(g) && g.csize > 0 && 2 <= c < g.nFatent
    ensures ClstToSect(g, c) == Sect(g, c, 0) && g.database <= Sect(g, c, 0)
    ensures Sect(g, c, 0) + g.csize <= g.dataEnd <= nsect < 0xFFFF_FFFF
    ensures Sect(g, c, 0) > 0 && forall j :: 0 <= j < g.csize ==> Sect(g, c, j) == Sect(g, c, 0) + j
    ensures forall s :: g.database <= s < g.dataEnd ==> Plain(g, s)
  {
    assert Sub32(c, 2) == c - 2;
    SectRange(g, nsect, c, g.csize - 1);
    SectRange(g, nsect, c, 0);
  }

  /** The loop of dir_clear: the window, all zeros, goes to `n` sectors from `sect` on. */
  method WriteZeros(fs: Fatfs, sect: u32, n: nat) returns (ok: bool)
    requires fs.win.Length == 512 && fs.win[..] == ZeroSector() && sect + n <= |fs.disk| && n > 0
    modifies fs`disk, fs`medium
    ensures |fs.disk| == old(|fs.disk|) && fs.medium == old(fs.medium).Written(ok)
    ensures forall s :: 0 <= s < |fs.disk| && !(sect <= s < sect + n) ==> fs.disk[s] == old(fs.disk)[s]
    ensures ok ==> forall s :: sect <= s < sect + n ==> fs.disk[s] == ZeroSector()
  {
    var i := 0;
    while i < n
      invariant 0 <= i <= n && |fs.disk| == old(|fs.disk|)
      invariant fs.medium == if i == 0 then old(fs.medium) else old(fs.medium).Written(true)
      invariant forall s :: sect <= s < sect + i ==> fs.disk[s] == ZeroSector()
      invariant forall s :: 0 <= s < |fs.disk| && !(sect <= s < sect + i) ==> fs.disk[s] == old(fs.disk)[s]
    {
      ok := DiskWrite(fs, fs.win[..], sect + i);
      if !ok { return; }
      i := i + 1;
    }
    ok := true;
  }

  /** dir_clear: on FR_OK every sector of the cluster is zero. The window is set to its first sector before that sector
      is written: if that write fails, and only then, the window shows zeros the medium need not hold, and the volume
      object is no longer valid. */
  method DirClear(fs: Fatfs, clst: u32) returns (res: FResult)
    requires fs.Valid() && Layout(fs.g) && fs.g.csize > 0 && 2 <= clst < fs.g.nFatent
    modifies fs`disk, fs`wflag, fs`medium, fs`winsect, fs.win
    ensures res == FrOk || res == FrDiskErr
    ensures res == FrDiskErr ==> Faulted(old(fs.medium), fs.medium)
    ensures |fs.disk| == old(|fs.disk|)
    ensures res == FrOk ==> fs.Valid() && Cleared(fs.g, old(fs.St().Logical()), fs.St().Logical(), clst)
    ensures fs.Valid() || (res != FrOk && fs.winsect as int == Sect(fs.g, clst, 0) && fs.winsect < |fs.disk|
                           && fs.disk[fs.winsect] != ZeroSector())
    ensures Onward(old(fs.medium), fs.medium)
  {
    hide FatOf, Flushed, MirroredBut, WellLogged, Geometry.WellFormed, WinState.Logical, WinState.Coherent, Layout,
         ClstToSect, Sect, InfoCounts;
    ghost var a := fs.St();
    CoherentNow(fs);
    ClusterRange(fs.g, |fs.disk|, clst);
    res := SyncWindow(fs);
    FlushedLength(fs.g, a, fs.St());
    if res != FrOk { return FrDiskErr; }
    ghost var b := fs.St();
    var sect: u32 := ClstToSect(fs.g, clst);
    fs.winsect := sect;
    forall i | 0 <= i < 512 { fs.win[i] := 0; }
    assert fs.win[..] == ZeroSector();
    var ok := WriteZeros(fs, sect, fs.g.csize);
    if fs.disk[sect] == ZeroSector() { ClearStep(fs.g, b, fs.St(), fs.fat, fs.log[fs.medium.at].fat); }
    if !ok { return FrDiskErr; }
    ClearedNow(fs.g, a, b, fs.St(), clst);
  }

  /** The image `y` is `x` with the cluster zeroed, the second FAT aside. */
  ghost predicate Cleared(g: Geometry, x: seq<Sector>, y: seq<Sector>, c: nat) {
    && |y| == |x|
    && (forall s :: Sect(g, c, 0) <= s < Sect(g, c, 0) + g.csize && 0 <= s < |y| ==> y[s] == ZeroSector())
    && (forall s :: 0 <= s < |x| && !g.InFats(s) && !(Sect(g, c, 0) <= s < Sect(g, c, 0) + g.csize) ==> y[s] == x[s])
  }

  lemma FlushedLength(g: Geometry, a: WinState, b: WinState)
    requires Flushed(g, a, b)
    ensures |b.disk| == |a.disk|
  {
  }

  lemma ClearedNow(g: Geometry, a: WinState, b: WinState, c: WinState, clst: nat)
    requires Flushed(g, a, b) && b.Logical() == b.disk && c.Logical() == c.disk && |c.disk| == |b.disk|
    requires forall s :: Sect(g, clst, 0) <= s < Sect(g, clst, 0) + g.csize ==>
                           0 <= s < |c.disk| && c.disk[s] == ZeroSector()
    requires forall s :: 0 <= s < |b.disk| && !(Sect(g, clst, 0) <= s < Sect(g, clst, 0) + g.csize) ==>
                           c.disk[s] == b.disk[s]
    ensures Cleared(g, a.Logical(), c.Logical(), clst)
  {
    hide WinState.Logical;
    forall s | 0 <= s < |a.disk| && !g.InFats(s) && !(Sect(g, clst, 0) <= s < Sect(g, clst, 0) + g.csize)
      ensures c.Logical()[s] == a.Logical()[s]
    {
      assert b.Logical()[s] == a.Logical()[s];
    }
  }

  // ---------- dir_next ----------

  function ZeroSlots(n: nat): (r: seq<Slot>)
    ensures |r| == n && forall k :: 0 <= k < n ==> r[k] == ZeroSector()[..32]
  {
    seq<Slot>(n, _ => ZeroSector()[..32])
  }

  /** Where the slot behind slot `k` is. */
  lemma AdvanceFacts(g: Geometry, ch: seq<nat>, k: nat)
    requires g.csize > 0 && k < NumSlots(g, ch) && (ch == [] ==> g.nRootdir % 16 == 0)
    ensures 32 * (k + 1) % 512 == 0 <==> (k + 1) % 16 == 0
    ensures 32 * (k + 1) / 512 == (k + 1) / 16 && k / 16 < TableSize(g, ch)
    ensures (k + 1) % 16 != 0 ==> (k + 1) / 16 == k / 16 && k + 1 < NumSlots(g, ch)
    ensures (k + 1) % 16 == 0 ==>
      (k + 1) / 16 == k / 16 + 1 && (k + 1 < NumSlots(g, ch) <==> (k + 1) / 16 < TableSize(g, ch))
    ensures ch == [] ==> NumSlots(g, ch) == g.nRootdir
  {
  }

  lemma AdvanceCluster(g: Geometry, ch: seq<nat>, i: nat)
    requires g.csize > 0 && ch != [] && i < TableSize(g, ch)
    ensures Idx(g, i) < |ch| && TableSect(g, ch, i) == SectorOf(g, ch, i)
    ensures Off(g, i + 1) != 0 ==>
      i + 1 < TableSize(g, ch) && Idx(g, i + 1) == Idx(g, i) && TableSect(g, ch, i + 1) == TableSect(g, ch, i) + 1
    ensures Off(g, i + 1) == 0 ==>
      Idx(g, i + 1) == Idx(g, i) + 1 && (i + 1 < TableSize(g, ch) <==> Idx(g, i) + 1 < |ch|)
  {
    SectorIndex(g, |ch|, i);
    SectorIndex(g, |ch|, i + 1);
    NextCluster(g, i + 1);
    if Off(g, i + 1) != 0 {
      DivMod(i, g.csize);
      DivMod(i + 1, g.csize);
      assert g.csize * (Idx(g, i)) + Off(g, i) + 1 == g.csize * (Idx(g, i + 1)) + Off(g, i + 1);
      SectorOfNext(g, ch, i, 1);
    }
  }

  /** The table with one zeroed cluster behind it. */
  lemma StretchedSlots(g: Geometry, x: seq<Sector>, y: seq<Sector>, ch: seq<nat>, c: u32)
    requires g.WellFormed(|x|) && Layout(g) && DirLayout(g) && ch != [] && GoodChain(g, ch + [c as int])
    requires Cleared(g, x, y, c)
    ensures NumSlots(g, ch + [c as int]) == NumSlots(g, ch) + 16 * g.csize
    ensures Slots(g, y, ch + [c as int]) == Slots(g, x, ch) + ZeroSlots(16 * g.csize)
  {
    hide Geometry.WellFormed, Layout, GoodChain, Sect, Cleared, Slots;
    var ch2 := ch + [c as int];
    StretchedSize(g, ch, c);
    forall k | 0 <= k < NumSlots(g, ch2)
      ensures SlotAt(g, y, ch2, k) == if k < NumSlots(g, ch) then SlotAt(g, x, ch, k) else ZeroSector()[..32]
    {
      hide TableSect;
      StretchedSector(g, x, y, ch, c, k / 16);
    }
    SlotsAre(g, x, ch);
    SlotsAre(g, y, ch2);
    assert forall k :: 0 <= k < NumSlots(g, ch2) ==>
      Slots(g, y, ch2)[k] == (Slots(g, x, ch) + ZeroSlots(16 * g.csize))[k];
  }

  lemma SlotsAre(g: Geometry, img: seq<Sector>, ch: seq<nat>)
    requires g.csize > 0
    ensures |Slots(g, img, ch)| == NumSlots(g, ch) && forall k :: 0 <= k < NumSlots(g, ch) ==>
      Slots(g, img, ch)[k] == SlotAt(g, img, ch, k)
  {
  }

  lemma StretchedSize(g: Geometry, ch: seq<nat>, c: nat)
    requires ch != []
    ensures TableSize(g, ch + [c]) == TableSize(g, ch) + g.csize
  {
    assert g.csize * (|ch| + 1) == g.csize * |ch| + g.csize;
  }

  lemma StretchedSector(g: Geometry, x: seq<Sector>, y: seq<Sector>, ch: seq<nat>, c: u32, i: nat)
    requires g.WellFormed(|x|) && Layout(g) && DirLayout(g) && ch != [] && GoodChain(g, ch + [c as int])
    requires Cleared(g, x, y, c)
    requires i < TableSize(g, ch + [c as int])
    ensures var s := TableSect(g, ch + [c as int], i);
      && 0 <= s < |y| == |x|
      && (i < TableSize(g, ch) ==> s == TableSect(g, ch, i) && y[s] == x[s])
      && (i >= TableSize(g, ch) ==> y[s] == ZeroSector())
  {
    hide Geometry.WellFormed, Layout, Sect, Cleared, Off, Idx;
    var ch2 := ch + [c as int];
    assert ch2[|ch|] == c as int;
    TableSectFacts(g, |x|, ch2, i);
    SectorIndex(g, |ch2|, i);
    SectorIndex(g, |ch|, i);
    ClusterRange(g, |x|, c);
    var s := TableSect(g, ch2, i);
    if i < TableSize(g, ch) {
      assert ch2[Idx(g, i)] == ch[Idx(g, i)];
      OtherCluster(g, ch2[Idx(g, i)], Off(g, i), c);
    } else {
      assert Idx(g, i) == |ch|;
    }
    ClearedAt(g, x, y, c, s);
  }

  lemma OtherCluster(g: Geometry, d: nat, j: nat, c: nat)
    requires 2 <= c && 2 <= d && c != d && j < g.csize
    requires forall i :: 0 <= i < g.csize ==> Sect(g, c, i) == Sect(g, c, 0) + i
    ensures !(Sect(g, c, 0) <= Sect(g, d, j) < Sect(g, c, 0) + g.csize)
  {
    hide Sect;
    if Sect(g, c, 0) <= Sect(g, d, j) < Sect(g, c, 0) + g.csize {
      SectInjective(g, d, j, c, Sect(g, d, j) - Sect(g, c, 0));
    }
  }

  lemma ClearedAt(g: Geometry, x: seq<Sector>, y: seq<Sector>, c: nat, s: int)
    requires Cleared(g, x, y, c) && 0 <= s < |x| && !g.InFats(s)
    ensures |y| == |x| && y[s] == if Sect(g, c, 0) <= s < Sect(g, c, 0) + g.csize then ZeroSector() else x[s]
  {
  }

  /** Nothing happened to the allocation. */
  predicate SameFat(fat: seq<nat>, log: seq<LogEntry>, free: u32, fat0: seq<nat>, log0: seq<LogEntry>, free0: u32) {
    fat == fat0 && log == log0 && free == free0
  }

  /** No FAT entry in use outside the table's clusters changed, and none of those clusters joined the table. */
  ghost predicate OnlyTable(fat0: seq<nat>, ch0: seq<nat>, fat1: seq<nat>, ch1: seq<nat>) {
    |fat1| == |fat0| && forall d :: 2 <= d < |fat0| && fat0[d] != 0 && d !in ch0 ==> fat1[d] == fat0[d] && d !in ch1
  }

  /** The parts of a volume object that say what is allocated. */
  datatype Allocation = Allocation(fat: seq<nat>, log: seq<LogEntry>, freeClst: u32, medium: Medium)

  ghost function Alloc(fs: Fatfs): Allocation
    reads fs`fat, fs`log, fs`freeClst, fs`medium
  {
    Allocation(fs.fat, fs.log, fs.freeClst, fs.medium)
  }

  /** What a step of the cursor that ends with `res` does to the allocation: nothing unless it may stretch the table;
      else the table alone grows, which is refused only when no cluster is free. */
  ghost predicate Stepped(stretch: bool, res: FResult, a: Allocation, ch0: seq<nat>, b: Allocation, ch1: seq<nat>) {
    && (res == FrOk || res == FrNoFile || res == FrDenied || res == FrIntErr || res == FrDiskErr)
    && (!stretch ==> res == FrOk || res == FrNoFile || res == FrDiskErr)
    && (res == FrDiskErr ==> Faulted(a.medium, b.medium)) && (res == FrIntErr ==> HasReserved(a.fat))
    && (!stretch ==> SameFat(b.fat, b.log, b.freeClst, a.fat, a.log, a.freeClst))
    && (res == FrDenied ==> (CountKnown(b.fat, b.freeClst) ==> Full(b.fat)))
    && (res == FrOk || res == FrNoFile || res == FrDenied ==> Kept(a.fat, a.freeClst, b.fat, b.freeClst))
    && OnlyTable(a.fat, ch0, b.fat, ch1)
    && StaysSafe(a.log, b.log, res != FrDiskErr)
    && Onward(a.medium, b.medium)
  }

  lemma SteppedSelf(stretch: bool, res: FResult, a: Allocation, ch: seq<nat>)
    requires res == FrOk || res == FrNoFile
    ensures Stepped(stretch, res, a, ch, a, ch)
  {
  }

  lemma SteppedTrans(res: FResult, a: Allocation, ch0: seq<nat>, b: Allocation, ch1: seq<nat>, c: Allocation,
                     ch2: seq<nat>)
    requires Stepped(true, FrOk, a, ch0, b, ch1) && Stepped(true, res, b, ch1, c, ch2)
    ensures Stepped(true, res, a, ch0, c, ch2)
  {
    hide CrashSafe, Unbroken;
    OnlyTableTrans(a.fat, ch0, b.fat, ch1, c.fat, ch2);
  }

  /** Writing the window changes the medium only. */
  lemma SteppedQuiet(a: Allocation, ch0: seq<nat>, b: Allocation, ch1: seq<nat>, c: Allocation, res: FResult)
    requires Stepped(true, FrOk, a, ch0, b, ch1) && c == b.(medium := c.medium) && Onward(b.medium, c.medium)
    requires res == FrOk || (res == FrDiskErr && Faulted(b.medium, c.medium))
    ensures Stepped(true, FrOk, a, ch0, c, ch1) && Stepped(true, res, a, ch0, c, ch1)
  {
    hide CrashSafe, Unbroken, OnlyTable, Kept;
  }

  lemma SteppedParts(a: Allocation, ch0: seq<nat>, b: Allocation, ch1: seq<nat>, res: FResult)
    requires Stepped(true, res, a, ch0, b, ch1)
    ensures res == FrOk || res == FrNoFile || res == FrDenied || (res == FrIntErr && HasReserved(a.fat))
            || (res == FrDiskErr && Faulted(a.medium, b.medium))
    ensures OnlyTable(a.fat, ch0, b.fat, ch1) && StaysSafe(a.log, b.log, res != FrDiskErr) && Onward(a.medium, b.medium)
    ensures res == FrOk || res == FrNoFile || res == FrDenied ==> Kept(a.fat, a.freeClst, b.fat, b.freeClst)
    ensures res == FrDenied ==> (CountKnown(b.fat, b.freeClst) ==> Full(b.fat))
  {
    hide CrashSafe, Unbroken, OnlyTable, Kept, CountKnown, Full;
  }

  lemma OnlyTableSelf(fat: seq<nat>, ch: seq<nat>)
    ensures OnlyTable(fat, ch, fat, ch)
  {
  }

  lemma OnlyTableTrans(fat0: seq<nat>, ch0: seq<nat>, fat1: seq<nat>, ch1: seq<nat>, fat2: seq<nat>, ch2: seq<nat>)
    requires OnlyTable(fat0, ch0, fat1, ch1) && OnlyTable(fat1, ch1, fat2, ch2)
    ensures OnlyTable(fat0, ch0, fat2, ch2)
  {
    forall d | 2 <= d < |fat0| && fat0[d] != 0 && d !in ch0
      ensures fat2[d] == fat0[d] && d !in ch2
    {
      assert fat1[d] == fat0[d];
    }
  }

  /** The part of dir_next that stretches a table of clusters: allocate behind the last cluster, and clear. */
  method Stretch(fs: Fatfs, dp: Dir) returns (res: FResult, clst: u32)
    requires Opened(fs, dp) && dp.ch != [] && dp.clust as nat == dp.ch[|dp.ch| - 1]
    modifies fs, fs.win, dp`ch
    ensures res == FrOk || res == FrDenied || (res == FrIntErr && HasReserved(old(fs.fat))) || res == FrDiskErr
    ensures res == FrDiskErr ==> Faulted(old(fs.medium), fs.medium)
    ensures res == FrOk ==> Opened(fs, dp) && 2 <= clst < fs.g.nFatent && dp.ch == old(dp.ch) + [clst as int]
    ensures res == FrOk ==>
      Table(fs, dp) == old(Table(fs, dp)) + ZeroSlots(16 * fs.g.csize) && NumSlots(fs.g, dp.ch) == |Table(fs, dp)|
    ensures res == FrOk || res == FrNoFile || res == FrDenied ==>
      Kept(old(fs.fat), old(fs.freeClst), fs.fat, fs.freeClst)
    ensures res != FrOk ==> dp.ch == old(dp.ch)
    ensures res == FrDenied ==> Opened(fs, dp) && Table(fs, dp) == old(Table(fs, dp)) && fs.fat == old(fs.fat)
                                && (CountKnown(fs.fat, fs.freeClst) ==> Full(fs.fat))
    ensures OnlyTable(old(fs.fat), old(dp.ch), fs.fat, dp.ch)
    ensures StaysSafe(old(fs.log), fs.log, res != FrDiskErr)
    ensures Onward(old(fs.medium), fs.medium)
  {
    hide Fatfs.Valid, FatOnly, WinState.Logical, Slots, Geometry.WellFormed, Layout, DirLayout, GoodChain, IsChain,
         TableSect, NumSlots, WinState.Coherent, Full, CountKnown, IsForest, CrashSafe, Cleared, ClstToSect;
    OpenedBasics(fs, dp);
    CoherentNow(fs);
    ghost var a, fat0, free0 := fs.St(), fs.fat, fs.freeClst;
    ChainStep(fs.fat, dp.ch, |dp.ch| - 1);
    clst := CreateChain(fs, dp.clust);
    TableKept(fs, dp, a, dp.ch);
    if clst == 0 { return FrDenied, clst; }
    if clst == 1 { return FrIntErr, clst; }
    if clst == DISK_ERROR { return FrDiskErr, clst; }
    ghost var b, c := fs.St(), clst as int;
    res := DirClear(fs, clst);
    if res != FrOk { return FrDiskErr, clst; }
    StretchDone(fs.g, a, b, fs.St(), fat0, fs.fat, dp.ch, clst);
    dp.ch := dp.ch + [c];
  }

  lemma StretchDone(g: Geometry, a: WinState, b: WinState, d: WinState, fat0: seq<nat>, fat1: seq<nat>, ch: seq<nat>,
                    c: u32)
    requires g.WellFormed(|a.disk|) && Layout(g) && DirLayout(g) && ch != [] && GoodChain(g, ch) && IsChain(fat0, ch)
    requires |fat0| == g.nFatent && Appended(g, fat0, fat1, ch[|ch| - 1], c)
    requires FatOnly(g, a, b) && Cleared(g, b.Logical(), d.Logical(), c)
    ensures IsChain(fat1, ch + [c as int]) && |fat1| == |fat0|
    ensures NumSlots(g, ch + [c as int]) == NumSlots(g, ch) + 16 * g.csize
    ensures Slots(g, d.Logical(), ch + [c as int]) == Slots(g, a.Logical(), ch) + ZeroSlots(16 * g.csize)
  {
    hide WinState.Logical, Layout, GoodChain, IsChain, Cleared, Slots;
    MaxAbove(g, |a.disk|);
    GrownChain(g, fat0, fat1, ch, c);
    StretchedSlots(g, b.Logical(), d.Logical(), ch, c);
    SlotsFrame(g, a.Logical(), b.Logical(), ch);
  }

  /** dir_next at the boundary between two clusters of the table: the next cluster, followed or appended. */
  method NextTableCluster(fs: Fatfs, dp: Dir, stretch: bool, ghost i: nat) returns (res: FResult, clst: u32)
    requires Opened(fs, dp) && i < |dp.ch| && dp.clust as nat == dp.ch[i]
    modifies fs, fs.win, dp`ch, dp`sect
    ensures Stepped(stretch, res, old(Alloc(fs)), old(dp.ch), Alloc(fs), dp.ch)
    ensures res == FrOk ==> Opened(fs, dp) && i + 1 < |dp.ch| && clst as nat == dp.ch[i + 1] && dp.sect == old(dp.sect)
    ensures i + 1 < |old(dp.ch)| || res == FrNoFile || res == FrDenied ==> dp.ch == old(dp.ch) && fs.fat == old(fs.fat)
    ensures i + 1 < |old(dp.ch)| || res == FrNoFile || res == FrDenied ==>
      Opened(fs, dp) && Table(fs, dp) == old(Table(fs, dp))
    ensures i + 1 < |old(dp.ch)| ==> res == FrOk || res == FrDiskErr
    ensures i + 1 == |old(dp.ch)| && res == FrOk ==>
      stretch && Table(fs, dp) == old(Table(fs, dp)) + ZeroSlots(16 * fs.g.csize)
      && NumSlots(fs.g, dp.ch) == |Table(fs, dp)|
    ensures !stretch ==> dp.ch == old(dp.ch) && Opened(fs, dp) && Table(fs, dp) == old(Table(fs, dp)) && res != FrDenied
    ensures res == FrNoFile ==> !stretch && i + 1 == |dp.ch| && dp.sect == 0
    ensures res == FrDenied ==> i + 1 == |dp.ch|
  {
    hide Fatfs.Valid, FatOnly, WinState.Logical, Slots, Geometry.WellFormed, Layout, DirLayout, GoodChain, IsChain,
         TableSect, NumSlots, WinState.Coherent, Full, CountKnown, IsForest, CrashSafe;
    OpenedBasics(fs, dp);
    CoherentNow(fs);
    ghost var a := fs.St();
    ChainStep(fs.fat, dp.ch, i);
    clst := GetFat(fs, dp.clust);
    TableKept(fs, dp, a, dp.ch);
    if clst == DISK_ERROR { return FrDiskErr, clst; }
    if clst <= 1 { return FrIntErr, clst; }
    res := FrOk;
    if clst >= fs.g.nFatent {
      if !stretch {
        dp.sect := 0;
        return FrNoFile, clst;
      }
      res, clst := Stretch(fs, dp);
    }
  }

  lemma RootSlots(g: Geometry, ch: seq<nat>)
    requires DirLayout(g) && (ch == [] ==> g.fsType == Fat12 || g.fsType == Fat16)
    ensures ch == [] ==> g.nRootdir % 16 == 0
  {
  }

  /** What is known of the cursor inside the table. */
  lemma CursorFacts(fs: Fatfs, dp: Dir, i: nat)
    requires Opened(fs, dp) && InSector(fs.g, dp, i)
    ensures (dp.clust == 0 <==> dp.ch == []) && dp.sect + 1 < 0xFFFF_FFFF
    ensures dp.ch != [] ==> Idx(fs.g, i) < |dp.ch| && dp.clust as nat == dp.ch[Idx(fs.g, i)]
    ensures dp.ch == [] ==> i < fs.g.nRootdir / 16 && fs.g.nRootdir % 16 == 0 && dp.sect == fs.g.dirbase + i
  {
    OpenedBasics(fs, dp);
    TableSectFacts(fs.g, |fs.disk|, dp.ch, i);
  }

  lemma StaticAdvance(g: Geometry, i: nat)
    requires g.csize > 0
    ensures g.nRootdir % 16 == 0 ==> (512 * (i + 1) / 32 >= g.nRootdir <==> i + 1 >= TableSize(g, []))
    ensures i + 1 < TableSize(g, []) ==> TableSect(g, [], i + 1) == g.dirbase + i + 1
  {
  }

  /** The first sector of a cluster of the table. */
  lemma LandOnCluster(g: Geometry, nsect: nat, ch: seq<nat>, i: nat, clst: u32)
    requires g.WellFormed(nsect) && Layout(g) && GoodChain(g, ch)
    requires g.csize > 0 && ch != [] && Idx(g, i) < |ch| && Off(g, i) == 0 && clst as nat == ch[Idx(g, i)]
    ensures i < TableSize(g, ch) && 0 < ClstToSect(g, clst) == TableSect(g, ch, i) < 0xFFFF_FFFF
  {
    SectorIndex(g, |ch|, i);
    ClstToSectIs(g, nsect, ch, clst, i);
  }

  /** dir_next in a table of clusters, when the sector changes. */
  method NextInClusters(fs: Fatfs, dp: Dir, stretch: bool, ofs: u32, ghost i: nat) returns (res: FResult)
    requires Opened(fs, dp) && InSector(fs.g, dp, i) && ofs as int == 512 * (i + 1) && dp.ch != []
    modifies fs, fs.win, dp`ch, dp`sect, dp`clust
    ensures Stepped(stretch, res, old(Alloc(fs)), old(dp.ch), Alloc(fs), dp.ch)
    ensures res == FrOk ==> Opened(fs, dp) && i + 1 < TableSize(fs.g, dp.ch) && InSector(fs.g, dp, i + 1)
    ensures res == FrOk && i + 1 < old(TableSize(fs.g, dp.ch)) ==>
      dp.ch == old(dp.ch) && Table(fs, dp) == old(Table(fs, dp))
    ensures res == FrOk && i + 1 >= old(TableSize(fs.g, dp.ch)) ==>
      stretch && Table(fs, dp) == old(Table(fs, dp)) + ZeroSlots(16 * fs.g.csize)
    ensures res == FrNoFile ==> dp.sect == 0 && i + 1 >= TableSize(fs.g, dp.ch)
    ensures res == FrDenied ==> i + 1 >= TableSize(fs.g, dp.ch)
    ensures res == FrNoFile ==> !stretch
    ensures res == FrNoFile || res == FrDenied || !stretch ==>
      Opened(fs, dp) && dp.ch == old(dp.ch) && Table(fs, dp) == old(Table(fs, dp))
  {
    hide Fatfs.Valid, FatOnly, WinState.Logical, Slots, Geometry.WellFormed, Layout, DirLayout, GoodChain, IsChain,
         Idx, Off, TableOf, ClstToSect, SectorOf, TableSize, TableSect, Stepped, WinState.Coherent, SameFat;
    OpenedBasics(fs, dp);
    SteppedSelf(stretch, FrOk, Alloc(fs), dp.ch);
    CursorFacts(fs, dp, i);
    AdvanceCluster(fs.g, dp.ch, i);
    dp.sect := dp.sect + 1;
    res := FrOk;
    if Off(fs.g, ofs / 512) == 0 {
      var clst;
      res, clst := NextTableCluster(fs, dp, stretch, Idx(fs.g, i));
      if res == FrOk {
        dp.clust := clst;
        OpenedBasics(fs, dp);
        LandOnCluster(fs.g, |fs.disk|, dp.ch, i + 1, clst);
        dp.sect := ClstToSect(fs.g, clst);
      }
    }
  }

  /** dir_next when the sector changes: on to the table's sector `i + 1`, which starts at offset `ofs`. */
  method NextSector(fs: Fatfs, dp: Dir, stretch: bool, ofs: u32, ghost i: nat) returns (res: FResult)
    requires Opened(fs, dp) && InSector(fs.g, dp, i) && ofs as int == 512 * (i + 1)
    modifies fs, fs.win, dp`ch, dp`sect, dp`clust
    ensures Stepped(stretch, res, old(Alloc(fs)), old(dp.ch), Alloc(fs), dp.ch)
    ensures res == FrOk ==> Opened(fs, dp) && i + 1 < TableSize(fs.g, dp.ch) && InSector(fs.g, dp, i + 1)
    ensures res == FrOk && i + 1 < old(TableSize(fs.g, dp.ch)) ==>
      dp.ch == old(dp.ch) && Table(fs, dp) == old(Table(fs, dp))
    ensures res == FrOk && i + 1 >= old(TableSize(fs.g, dp.ch)) ==>
      stretch && Table(fs, dp) == old(Table(fs, dp)) + ZeroSlots(16 * fs.g.csize)
    ensures res == FrNoFile ==> dp.sect == 0 && i + 1 >= TableSize(fs.g, dp.ch)
    ensures res == FrDenied ==> i + 1 >= TableSize(fs.g, dp.ch)
    ensures res == FrNoFile ==> !stretch || dp.ch == []
    ensures res == FrNoFile || res == FrDenied || !stretch ==>
      Opened(fs, dp) && dp.ch == old(dp.ch) && Table(fs, dp) == old(Table(fs, dp))
  {
    hide Fatfs.Valid, FatOnly, WinState.Logical, Slots, Geometry.WellFormed, Layout, DirLayout, GoodChain, IsChain,
         WinState.Coherent, Idx, Off, TableOf, ClstToSect, SectorOf, TableSize, TableSect, Stepped;
    OpenedBasics(fs, dp);
    SteppedSelf(stretch, FrOk, Alloc(fs), dp.ch);
    SteppedSelf(stretch, FrNoFile, Alloc(fs), dp.ch);
    CursorFacts(fs, dp, i);
    if dp.clust == 0 {
      StaticAdvance(fs.g, i);
      dp.sect := dp.sect + 1;
      res := FrOk;
      if ofs / SZDIRE >= fs.g.nRootdir {
        dp.sect := 0;
        res := FrNoFile;
      }
    } else {
      res := NextInClusters(fs, dp, stretch, ofs, i);
    }
  }

  lemma OnSlotFacts(g: Geometry, dp: Dir, k: nat)
    requires g.csize > 0 && OnSlot(g, dp, k)
    ensures k < NumSlots(g, dp.ch) && dp.dptr == 32 * k < MAX_DIR && InSector(g, dp, k / 16)
    ensures (dp.dptr + SZDIRE) % 0x1_0000_0000 == 32 * (k + 1)
  {
    hide NumSlots, InSector;
  }

  lemma ReachedSlot(g: Geometry, dp: Dir, k: nat)
    requires g.csize > 0 && dp.dptr == 32 * k < MAX_DIR && InSector(g, dp, k / 16)
    ensures OnSlot(g, dp, k)
  {
    hide TableSect, Idx;
  }

  /** dir_next: one slot on. On FR_OK the cursor is on slot `k + 1`, where dir_sdi would put it; behind the last slot
      the table ends (FR_NO_FILE) or, on request, grows by a cluster of zeros. */
  method DirNext(fs: Fatfs, dp: Dir, stretch: bool, ghost k: nat) returns (res: FResult)
    requires Opened(fs, dp) && (dp.sect != 0 ==> OnSlot(fs.g, dp, k))
    modifies fs, fs.win, dp`ch, dp`sect, dp`clust, dp`dptr
    ensures Stepped(stretch, res, old(Alloc(fs)), old(dp.ch), Alloc(fs), dp.ch)
    ensures res == FrOk ==> Opened(fs, dp) && old(dp.sect) != 0 && OnSlot(fs.g, dp, k + 1)
    ensures res == FrOk && k + 1 < old(NumSlots(fs.g, dp.ch)) ==>
      dp.ch == old(dp.ch) && Table(fs, dp) == old(Table(fs, dp))
    ensures res == FrOk && k + 1 >= old(NumSlots(fs.g, dp.ch)) ==>
      stretch && Table(fs, dp) == old(Table(fs, dp)) + ZeroSlots(16 * fs.g.csize)
    ensures res == FrNoFile ==>
      dp.sect == 0 && (old(dp.sect) != 0 ==> k + 1 >= NumSlots(fs.g, dp.ch) || 32 * (k + 1) >= MAX_DIR)
    ensures res == FrNoFile && stretch && old(dp.sect) != 0 ==> dp.ch == [] || 32 * (k + 1) >= MAX_DIR
    ensures res == FrDenied ==> k + 1 >= NumSlots(fs.g, dp.ch)
    ensures res == FrNoFile || res == FrDenied || !stretch ==>
      Opened(fs, dp) && dp.ch == old(dp.ch) && Table(fs, dp) == old(Table(fs, dp))
  {
    hide Fatfs.Valid, FatOnly, WinState.Logical, Slots, Geometry.WellFormed, Layout, DirLayout, GoodChain, IsChain,
         TableSect, WinState.Coherent, Idx, Off, TableSize, TableOf, InSector, Stepped, Opened, Table,
         OnSlot, NumSlots;
    OpenedBasics(fs, dp);
    SteppedSelf(stretch, FrOk, Alloc(fs), dp.ch);
    SteppedSelf(stretch, FrNoFile, Alloc(fs), dp.ch);
    if dp.sect != 0 { OnSlotFacts(fs.g, dp, k); }
    var ofs: u32 := (dp.dptr + SZDIRE) % 0x1_0000_0000;
    if ofs >= MAX_DIR { dp.sect := 0; }
    if dp.sect == 0 { return FrNoFile; }
    RootSlots(fs.g, dp.ch);
    AdvanceFacts(fs.g, dp.ch, k);
    if ofs % 512 == 0 {
      res := NextSector(fs, dp, stretch, ofs, k / 16);
      if res != FrOk { return; }
    }
    dp.dptr := ofs;
    res := FrOk;
    ReachedSlot(fs.g, dp, k + 1);
  }
}
