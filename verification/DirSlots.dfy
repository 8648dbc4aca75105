/** Slots of a directory through the window, and dir_alloc: reserving a run of free slots. */
module DirSlots {
  import opened Bytes
  import opened Arith
  import opened Volume
  import opened Window
  import opened FatAccess
  import opened Forest
  import opened Chains
  import opened FileBytes
  import opened Names
  import opened NameEntries
  import opened DirTable
  import opened DirStep

  /** A slot that was deleted or never used. */
  predicate FreeSlot(s: Slot) {
    s[0] == DDEM || s[0] == 0
  }

  /** Nothing in use follows an end-of-directory mark. */
  ghost predicate EndMarked(t: seq<Slot>) {
    forall i, j :: 0 <= i < j < |t| && t[i][0] == 0 ==> FreeSlot(t[j])
  }

  lemma ZeroSlotsFree(t: seq<Slot>, n: nat)
    requires EndMarked(t)
    ensures EndMarked(t + ZeroSlots(n))
  {
    var u := t + ZeroSlots(n);
    forall i, j | 0 <= i < j < |u| && u[i][0] == 0
      ensures FreeSlot(u[j])
    {
      if j >= |t| { assert u[j] == ZeroSlots(n)[j - |t|]; }
    }
  }

  // ---------- one slot through the window ----------

  /** The window shows the sector of slot `k`. */
  ghost predicate Loaded(fs: Fatfs, dp: Dir, k: nat)
    reads fs, fs.win, dp`sect, dp`clust, dp`ch, dp`dptr
  {
    && fs.g.csize > 0 && OnSlot(fs.g, dp, k) && fs.win.Length == 512
    && fs.winsect == dp.sect && fs.winsect < |fs.disk| && fs.win[..] == fs.St().Logical()[fs.winsect]
  }

  /** The slot under the cursor in the window. */
  lemma LoadedSlot(fs: Fatfs, dp: Dir, k: nat)
    requires Opened(fs, dp) && Loaded(fs, dp, k)
    ensures dp.dptr % 512 + 32 <= 512 == fs.win.Length && fs.g.csize > 0 && k < |Table(fs, dp)|
    ensures Table(fs, dp)[k] == fs.win[dp.dptr % 512..dp.dptr % 512 + 32]
  {
    SlotOffset(k);
    SlotsAre(fs.g, fs.St().Logical(), dp.ch);
    assert fs.win[..][dp.dptr % 512..dp.dptr % 512 + 32] == fs.win[dp.dptr % 512..dp.dptr % 512 + 32];
  }

  lemma SlotOffset(k: nat)
    ensures 32 * k % 512 == 32 * (k % 16)
  {
    DivModIs(32 * k, 512, k / 16, 32 * (k % 16)) by { DivMod(k, 16); }
  }

  /** move_window to the slot under the cursor. */
  method LoadSlot(fs: Fatfs, dp: Dir, ghost k: nat) returns (res: FResult)
    requires Opened(fs, dp) && OnSlot(fs.g, dp, k)
    modifies fs`disk, fs`wflag, fs`medium, fs`winsect, fs.win
    ensures Opened(fs, dp) && Table(fs, dp) == old(Table(fs, dp)) && (res == FrOk || res == FrDiskErr)
    ensures res == FrOk ==> Loaded(fs, dp, k)
    ensures Onward(old(fs.medium), fs.medium)
    ensures res == FrDiskErr ==> Faulted(old(fs.medium), fs.medium)
  {
    hide Fatfs.Valid, WinState.Logical, Slots, Geometry.WellFormed, Layout, DirLayout, GoodChain, IsChain,
         TableSect, WinState.Coherent, NumSlots, TableSize, TableOf;
    OpenedBasics(fs, dp);
    CoherentNow(fs);
    ghost var a := fs.St();
    TableSectFacts(fs.g, |fs.disk|, dp.ch, k / 16);
    res := MoveWindow(fs, dp.sect);
    FlushedTable(fs.g, a, fs.St(), dp.ch);
  }

  lemma FlushedTable(g: Geometry, a: WinState, b: WinState, ch: seq<nat>)
    requires g.WellFormed(|a.disk|) && Layout(g) && DirLayout(g) && (ch == [] ==> g.fsType != Fat32) && GoodChain(g, ch)
    requires Flushed(g, a, b)
    ensures Slots(g, b.Logical(), ch) == Slots(g, a.Logical(), ch) && |b.disk| == |a.disk|
  {
    hide WinState.Logical, Slots, Geometry.WellFormed;
    SlotsFrame(g, a.Logical(), b.Logical(), ch);
  }

  /** Writing the loaded slot: `data` replaces its bytes in the window, which gets dirty. */
  lemma StoreSlot(fs: Fatfs, dp: Dir, k: nat, a: WinState, t: seq<Slot>)
    requires a.Coherent(fs.g) && FatOf(fs.g, a.Logical(), fs.fat) && Layout(fs.g) && DirLayout(fs.g)
    requires GoodChain(fs.g, dp.ch)
    requires dp.ch == [] ==> fs.g.fsType != Fat32
    requires OnSlot(fs.g, dp, k) && a.winsect == dp.sect && a.winsect < |a.disk| && a.win == a.Logical()[a.winsect]
    requires t == Slots(fs.g, a.Logical(), dp.ch)
    requires fs.win.Length == 512 && fs.St() == a.(win := fs.win[..], wflag := true)
    requires forall i :: 0 <= i < 512 && !(dp.dptr % 512 <= i < dp.dptr % 512 + 32) ==> fs.win[i] == a.win[i]
    ensures fs.St().Coherent(fs.g) && FatOf(fs.g, fs.St().Logical(), fs.fat) && Loaded(fs, dp, k)
    ensures dp.dptr % 512 + 32 <= 512 && k < |t| && Table(fs, dp) == t[k := fs.win[dp.dptr % 512..dp.dptr % 512 + 32]]
  {
    hide WinState.Logical, Slots, FatOf, Layout, DirLayout, GoodChain, TableSect, TableSize;
    var st := fs.St();
    SlotOffset(k);
    TableSectFacts(fs.g, |a.disk|, dp.ch, k / 16);
    EditStep(fs.g, a, st, fs.fat);
    EditedSector(a, st);
    var w: Sector := fs.win[..];
    SlotEdited(fs.g, a.Logical(), st.Logical(), dp.ch, k, w);
    assert w[dp.dptr % 512..dp.dptr % 512 + 32] == fs.win[dp.dptr % 512..dp.dptr % 512 + 32];
    SlotsAre(fs.g, a.Logical(), dp.ch);
  }

  lemma EditedSector(a: WinState, b: WinState)
    requires a.winsect < |a.disk| && b == a.(win := b.win, wflag := true) && |b.win| == 512 && |a.win| == 512
    requires a.win == a.Logical()[a.winsect]
    ensures b.Logical() == a.Logical()[a.winsect := b.win]
  {
  }

  // ---------- dir_alloc ----------

  /** No `n` free slots in a row among the first `hi`. */
  ghost predicate NoRun(t: seq<Slot>, n: nat, hi: nat) {
    forall e: nat :: n <= e + 1 && e < hi && e < |t| ==> !FreeRun(t, n, e)
  }

  /** The `n` slots ending at slot `e` are free. */
  ghost predicate FreeRun(t: seq<Slot>, n: nat, e: nat) {
    n <= e + 1 <= |t| && forall j :: e - n < j <= e ==> FreeSlot(t[j])
  }

  lemma RunKept(t: seq<Slot>, u: seq<Slot>, n: nat, hi: nat)
    requires NoRun(t, n, hi) && hi <= |t| && t <= u
    ensures NoRun(u, n, hi)
  {
    forall e: nat | n <= e + 1 && e < hi && e < |u|
      ensures !FreeRun(u, n, e)
    {
      assert !FreeRun(t, n, e);
      var j :| e - n < j <= e && !FreeSlot(t[j]);
      assert u[j] == t[j];
    }
  }

  /** The table `u` is `t` stretched by zeroed clusters. */
  ghost predicate GrownBy(t: seq<Slot>, u: seq<Slot>) {
    |t| <= |u| && u == t + ZeroSlots(|u| - |t|)
  }

  lemma GrownMore(t: seq<Slot>, u: seq<Slot>, n: nat)
    requires GrownBy(t, u)
    ensures GrownBy(t, u + ZeroSlots(n)) && u <= u + ZeroSlots(n)
  {
    assert u + ZeroSlots(n) == t + ZeroSlots(|u| - |t| + n);
  }

  /** The scan of dir_alloc has looked at the first `k` slots: the last `n` of them are free, the one before those is
      not, and there was no free row of `nEnt`. */
  ghost predicate Scanned(t: seq<Slot>, nEnt: nat, n: nat, k: nat) {
    && n < nEnt && n <= k <= |t| && NoRun(t, nEnt, k)
    && (forall j :: k - n <= j < k ==> FreeSlot(t[j]))
    && (n < k ==> !FreeSlot(t[k - n - 1]))
  }

  /** Looking at slot `k`. */
  lemma ScanStep(t: seq<Slot>, nEnt: nat, n: nat, k: nat)
    requires Scanned(t, nEnt, n, k) && k < |t|
    ensures FreeSlot(t[k]) && n + 1 == nEnt ==> FreeRun(t, nEnt, k) && (k >= nEnt ==> !FreeSlot(t[k - nEnt]))
    ensures !(FreeSlot(t[k]) && n + 1 == nEnt) ==> Scanned(t, nEnt, if FreeSlot(t[k]) then n + 1 else 0, k + 1)
  {
    if !(FreeSlot(t[k]) && n + 1 == nEnt) {
      forall e: nat | nEnt <= e + 1 && e < k + 1 && e < |t|
        ensures !FreeRun(t, nEnt, e)
      {
        if e == k && FreeSlot(t[k]) { assert !FreeSlot(t[k - n - 1]); }
      }
    }
  }

  /** The scan in a longer table. */
  lemma ScanKept(t: seq<Slot>, u: seq<Slot>, nEnt: nat, n: nat, k: nat)
    requires Scanned(t, nEnt, n, k) && t <= u
    ensures Scanned(u, nEnt, n, k)
  {
    RunKept(t, u, nEnt, k);
  }

  /** Nothing more to look at. */
  lemma ScanOver(t: seq<Slot>, nEnt: nat, n: nat, k: nat)
    requires Scanned(t, nEnt, n, k) && (k >= |t| || 32 * k >= MAX_DIR)
    ensures NoRun(t, nEnt, MAX_DIR / 32)
  {
  }

  lemma ScanStart(t: seq<Slot>, nEnt: nat)
    requires nEnt >= 1
    ensures Scanned(t, nEnt, 0, 0)
  {
  }

  /** Is the slot under the cursor free? */
  method LookAtSlot(fs: Fatfs, dp: Dir, ghost k: nat) returns (res: FResult, free: bool)
    requires Opened(fs, dp) && OnSlot(fs.g, dp, k)
    modifies fs`disk, fs`wflag, fs`medium, fs`winsect, fs.win
    ensures Opened(fs, dp) && Table(fs, dp) == old(Table(fs, dp)) && (res == FrOk || res == FrDiskErr)
    ensures res == FrOk ==> Loaded(fs, dp, k) && k < |Table(fs, dp)| && free == FreeSlot(Table(fs, dp)[k])
    ensures Onward(old(fs.medium), fs.medium)
    ensures res == FrDiskErr ==> Faulted(old(fs.medium), fs.medium)
  {
    hide Fatfs.Valid, WinState.Logical, Slots, Geometry.WellFormed, Opened, OnSlot, Loaded;
    OpenedBasics(fs, dp);
    free := false;
    res := LoadSlot(fs, dp, k);
    if res == FrOk {
      LoadedSlot(fs, dp, k);
      var b := fs.win[dp.dptr % 512];
      free := b == DDEM || b == 0;
    }
  }

  /** A table that cannot grow: the static root directory, or one of the maximum size. */
  ghost predicate AtMaximum(fs: Fatfs, dp: Dir)
    requires Opened(fs, dp)
    reads fs, fs.win, dp
  {
    dp.ch == [] || 32 * |Table(fs, dp)| >= MAX_DIR
  }

  /** The step from slot `k` to the next one in the loop of dir_alloc. */
  method ScanNext(fs: Fatfs, dp: Dir, nEnt: nat, n: nat, ghost k: nat, ghost t0: seq<Slot>) returns (res: FResult)
    requires Opened(fs, dp) && OnSlot(fs.g, dp, k) && GrownBy(t0, Table(fs, dp))
    requires Scanned(Table(fs, dp), nEnt, n, k + 1)
    modifies fs, fs.win, dp`ch, dp`sect, dp`clust, dp`dptr
    ensures res == FrOk ==>
      Opened(fs, dp) && OnSlot(fs.g, dp, k + 1) && GrownBy(t0, Table(fs, dp)) && Scanned(Table(fs, dp), nEnt, n, k + 1)
    ensures res == FrNoFile || res == FrDenied ==> Opened(fs, dp) && GrownBy(t0, Table(fs, dp))
    ensures res == FrNoFile || res == FrDenied ==> NoRun(Table(fs, dp), nEnt, MAX_DIR / 32)
    ensures res == FrNoFile ==> AtMaximum(fs, dp)
    ensures Stepped(true, res, old(Alloc(fs)), old(dp.ch), Alloc(fs), dp.ch)
  {
    hide Fatfs.Valid, FatOnly, WinState.Logical, Slots, Geometry.WellFormed, Layout, DirLayout, GoodChain, IsChain,
         TableSect, Opened, WinState.Coherent, TableSize, TableOf, OnSlot, Loaded, Scanned, NoRun, GrownBy, Stepped;
    OnSlotRange(fs, dp, k);
    OpenedBasics(fs, dp);
    ghost var t := Table(fs, dp);
    GrownMore(t0, t, 16 * fs.g.csize);
    res := DirNext(fs, dp, true, k);
    if res == FrOk { ScanKept(t, Table(fs, dp), nEnt, n, k + 1); }
    if res == FrNoFile || res == FrDenied { ScanOver(t, nEnt, n, k + 1); }
    if res == FrNoFile { Maximal(fs, dp, k); }
  }

  /** dir_alloc: on FR_OK the cursor is on the last of `nEnt` free slots in a row, and the slot before them is in use;
      FR_DENIED means that there is no such row, and that the table can grow no further or the volume is full. */
  method DirAlloc(fs: Fatfs, dp: Dir, nEnt: nat) returns (res: FResult, ghost k: nat)
    requires Opened(fs, dp) && nEnt >= 1
    modifies fs, fs.win, dp`ch, dp`sect, dp`clust, dp`dptr
    // the device, or the reserved value 1 in the FAT
    ensures res == FrOk || res == FrDenied || res == FrDiskErr || (res == FrIntErr && HasReserved(old(fs.fat)))
    ensures res == FrOk || res == FrDenied ==> Opened(fs, dp) && GrownBy(old(Table(fs, dp)), Table(fs, dp))
    ensures res == FrOk ==>
      Loaded(fs, dp, k) && FreeRun(Table(fs, dp), nEnt, k) && (k >= nEnt ==> !FreeSlot(Table(fs, dp)[k - nEnt]))
    ensures res == FrDenied ==> NoRun(Table(fs, dp), nEnt, MAX_DIR / 32)
    ensures res == FrDenied ==> AtMaximum(fs, dp) || (CountKnown(fs.fat, fs.freeClst) ==> Full(fs.fat))
    ensures res == FrOk || res == FrDenied ==> Kept(old(fs.fat), old(fs.freeClst), fs.fat, fs.freeClst)
    ensures OnlyTable(old(fs.fat), old(dp.ch), fs.fat, dp.ch)
    ensures StaysSafe(old(fs.log), fs.log, res != FrDiskErr)
    ensures Onward(old(fs.medium), fs.medium)
    ensures res == FrDiskErr ==> Faulted(old(fs.medium), fs.medium)
  {
    hide Fatfs.Valid, FatOnly, WinState.Logical, Slots, Geometry.WellFormed, Layout, DirLayout, GoodChain, IsChain,
         TableSect, Opened, WinState.Coherent, TableSize, TableOf, OnSlot, Loaded, Scanned, NoRun, FreeRun, GrownBy,
         NumSlots, FreeSlot, Table, AtMaximum, Stepped, CountKnown, Full, Kept, StaysSafe, Onward, OnlyTable,
         HasReserved;
    k := 0;
    OpenedBasics(fs, dp);
    ghost var a, ch0, t0 := Alloc(fs), dp.ch, Table(fs, dp);
    SteppedSelf(true, FrOk, a, ch0);
    GrownSelf(t0);
    SomeSlot(fs, dp);
    res := DirSdi(fs, dp, 0);
    SteppedQuiet(a, ch0, a, ch0, Alloc(fs), res);
    SteppedParts(a, ch0, Alloc(fs), dp.ch, res);
    if res != FrOk { return; }
    OnSlotRange(fs, dp, 0);
    ScanStart(t0, nEnt);
    var n: nat := 0;
    while true
      invariant Opened(fs, dp) && OnSlot(fs.g, dp, k) && GrownBy(t0, Table(fs, dp))
      invariant Scanned(Table(fs, dp), nEnt, n, k)
      invariant Stepped(true, FrOk, a, ch0, Alloc(fs), dp.ch)
      decreases MAX_DIR - 32 * k
    {
      ghost var b := Alloc(fs);
      var free;
      res, free := LookAtSlot(fs, dp, k);
      SteppedQuiet(a, ch0, b, dp.ch, Alloc(fs), res);
      SteppedParts(a, ch0, Alloc(fs), dp.ch, res);
      if res != FrOk { return; }
      ScanStep(Table(fs, dp), nEnt, n, k);
      n := if free then n + 1 else 0;
      if n == nEnt { return; }
      ghost var c, ch1 := Alloc(fs), dp.ch;
      res := ScanNext(fs, dp, nEnt, n, k, t0);
      SteppedTrans(res, a, ch0, c, ch1, Alloc(fs), dp.ch);
      SteppedParts(a, ch0, Alloc(fs), dp.ch, res);
      if res == FrNoFile { res := FrDenied; }
      if res != FrOk { return; }
      k := k + 1;
      OnSlotRange(fs, dp, k);
    }
  }

  lemma Maximal(fs: Fatfs, dp: Dir, k: nat)
    requires Opened(fs, dp) && (dp.ch == [] || 32 * (k + 1) >= MAX_DIR) && k < |Table(fs, dp)|
    ensures AtMaximum(fs, dp)
  {
  }

  lemma KeptSelf(a: seq<nat>, freeA: u32)
    ensures Kept(a, freeA, a, freeA)
  {
  }

  lemma GrownSelf(t: seq<Slot>)
    ensures GrownBy(t, t)
  {
    assert t == t + ZeroSlots(0);
  }

  lemma OnSlotRange(fs: Fatfs, dp: Dir, k: nat)
    requires Opened(fs, dp) && OnSlot(fs.g, dp, k)
    ensures fs.g.csize > 0 && k < |Table(fs, dp)| && 32 * k < MAX_DIR && fs.win.Length == 512 && dp.sect != 0
    ensures |Table(fs, dp)| == NumSlots(fs.g, dp.ch) && dp.dptr == 32 * k
  {
    OpenedBasics(fs, dp);
  }

  /** dir_next without stretching, as all searches call it: nothing but the cursor moves. */
  method NextSlot(fs: Fatfs, dp: Dir, ghost k: nat) returns (res: FResult)
    requires Opened(fs, dp) && OnSlot(fs.g, dp, k)
    modifies fs, fs.win, dp`ch, dp`sect, dp`clust, dp`dptr
    ensures Opened(fs, dp) && dp.ch == old(dp.ch) && Table(fs, dp) == old(Table(fs, dp))
    ensures res == FrOk || res == FrNoFile || res == FrDiskErr
    ensures res == FrOk ==> OnSlot(fs.g, dp, k + 1) && dp.sect != 0 && k + 1 < |Table(fs, dp)| && 32 * (k + 1) < MAX_DIR
    ensures res == FrNoFile ==> dp.sect == 0 && (k + 1 >= |Table(fs, dp)| || 32 * (k + 1) >= MAX_DIR)
    ensures |Table(fs, dp)| == NumSlots(fs.g, dp.ch)
    ensures SameFat(fs.fat, fs.log, fs.freeClst, old(fs.fat), old(fs.log), old(fs.freeClst))
    ensures Onward(old(fs.medium), fs.medium)
    ensures res == FrDiskErr ==> Faulted(old(fs.medium), fs.medium)
  {
    hide Fatfs.Valid, WinState.Logical, Slots, Geometry.WellFormed, Opened, OnSlot, Table, Kept, CrashSafe,
         OnlyTable, CountKnown, Full, NumSlots;
    OnSlotRange(fs, dp, k);
    res := DirNext(fs, dp, false, k);
    if res == FrOk { OnSlotRange(fs, dp, k + 1); }
  }
}
