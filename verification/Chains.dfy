/** create_chain and remove_chain on FAT12/16/32. */
module Chains {
  import opened Bytes
  import opened Volume
  import opened FatAccess
  import opened Forest

  const DISK_ERROR: u32 := 0xFFFF_FFFF
  const END_OF_CHAIN: u32 := 0xFFFF_FFFF

  /** The end-of-chain mark reads back as a value no cluster number reaches. */
  lemma EndMark(g: Geometry, nsect: nat)
    requires g.WellFormed(nsect)
    ensures Stored(g, END_OF_CHAIN) == g.MaxEntry() >= g.nFatent
    ensures forall c: u32 :: c < g.nFatent ==> Stored(g, c) == c
  {
    hide Geometry.WellFormed;
    SmallEntries(g, nsect);
    forall c: u32 | c < g.nFatent
      ensures Stored(g, c) == c
    {
    }
  }

  lemma SmallEntries(g: Geometry, nsect: nat)
    requires g.WellFormed(nsect)
    ensures g.nFatent <= g.MaxEntry()
  {
  }

  /** free_clst is either unknown (out of range) or the number of free clusters. */
  ghost predicate CountKnown(fat: seq<nat>, freeClst: u32) {
    |fat| >= 2 && (freeClst <= |fat| - 2 ==> freeClst == FreeCount(fat))
  }

  /** From (a, freeA) to (b, freeB) a forest stayed a forest, a right count stayed right, and no reserved value
      appeared. */
  ghost predicate Kept(a: seq<nat>, freeA: u32, b: seq<nat>, freeB: u32) {
    && (CountKnown(a, freeA) ==> CountKnown(b, freeB))
    && (IsForest(a) ==> IsForest(b))
    && (HasReserved(b) ==> HasReserved(a))
  }

  ghost predicate Full(fat: seq<nat>) {
    forall c :: 2 <= c < |fat| ==> fat[c] != 0
  }

  /** Some entry holds the reserved value 1. */
  ghost predicate HasReserved(fat: seq<nat>) {
    exists c :: 2 <= c < |fat| && fat[c] == 1
  }

  lemma ForestUnreserved(fat: seq<nat>)
    requires IsForest(fat)
    ensures !HasReserved(fat)
  {
  }

  /** The cyclic scan from `scl` has come to `c` and met no free cluster. */
  ghost predicate Searched(fat: seq<nat>, scl: nat, c: nat, wrapped: bool) {
    if wrapped then
      2 <= c < scl < |fat| && (forall d :: scl < d < |fat| ==> fat[d] != 0) && (forall d :: 2 <= d <= c ==> fat[d] != 0)
    else
      scl <= c < |fat| && forall d :: scl < d <= c ==> fat[d] != 0
  }

  lemma SearchStart(fat: seq<nat>, scl: nat)
    requires scl < |fat|
    ensures Searched(fat, scl, scl, false)
  {
  }

  /** The scan wraps, or goes on to the next cluster: free, the start again, or one more in use. */
  lemma SearchStep(fat: seq<nat>, scl: nat, c: nat, wrapped: bool)
    requires Searched(fat, scl, c, wrapped) && scl >= 1 && |fat| > 2
    ensures var next, w := (if c + 1 >= |fat| then 2 else c + 1), wrapped || c + 1 >= |fat|;
      && (w ==> next <= scl || Full(fat))
      && (fat[next] != 0 && w && next == scl ==> Full(fat))
      && (fat[next] != 0 && (w ==> next < scl) ==> Searched(fat, scl, next, w))
  {
  }

  lemma SearchRange(fat: seq<nat>, scl: nat, c: nat, wrapped: bool)
    requires Searched(fat, scl, c, wrapped)
    ensures c < |fat| && (if wrapped then c < scl else scl <= c)
  {
  }

  /** `c` is the first free cluster behind `scl`, going round the volume once. */
  ghost predicate FirstFree(fat: seq<nat>, scl: nat, c: nat) {
    && 2 <= c < |fat| && fat[c] == 0
    && if c > scl then forall d :: scl < d < c ==> fat[d] != 0
       else (forall d :: scl < d < |fat| ==> fat[d] != 0) && (forall d :: 2 <= d < c ==> fat[d] != 0)
  }

  lemma FoundFirst(fat: seq<nat>, scl: nat, c: nat, wrapped: bool)
    requires Searched(fat, scl, c, wrapped) && scl >= 1 && |fat| > 2
    ensures var next := if c + 1 >= |fat| then 2 else c + 1;
      fat[next] == 0 && (wrapped || c + 1 >= |fat| ==> next <= scl) ==> FirstFree(fat, scl, next)
  {
  }

  /** The cluster the search decides for, a chain being stretched at `start` or (clst == 0) begun behind it: the
      neighbour, or the first one behind the cluster taken last. */
  ghost predicate Chosen(fat: seq<nat>, clst: nat, start: nat, last: nat, c: nat) {
    var next := if start + 1 >= |fat| then 2 else start + 1;
    if clst == start && next < |fat| && fat[next] == 0 then c == next
    else FirstFree(fat, if clst == start && 2 <= last < |fat| then last else start, c)
  }

  /** The cyclic scan of create_chain behind `scl`. */
  method ScanFree(fs: Fatfs, scl: u32) returns (ncl: u32)
    requires fs.Valid() && 1 <= scl < fs.g.nFatent
    modifies fs`disk, fs`wflag, fs`medium, fs`winsect, fs.win
    ensures fs.Valid() && FatOnly(fs.g, old(fs.St()), fs.St())
    ensures ncl == 0 || ncl == 1 || ncl == DISK_ERROR || 2 <= ncl < |fs.fat|
    ensures ncl == 0 ==> Full(fs.fat)
    ensures ncl == 1 ==> HasReserved(fs.fat)
    ensures ncl == DISK_ERROR ==> Faulted(old(fs.medium), fs.medium)
    ensures 2 <= ncl < |fs.fat| ==> FirstFree(fs.fat, scl, ncl)
    ensures ncl != DISK_ERROR ==> Refreshed(old(fs.medium), fs.medium, |fs.log|)
    ensures Onward(old(fs.medium), fs.medium)
  {
    hide Fatfs.Valid, FatOnly, Geometry.WellFormed, Searched, Full, FirstFree;
    ghost var a := fs.St();
    ValidBasics(fs);
    MediumBound(fs.g, |fs.disk|);
    var n: u32 := fs.g.nFatent;
    FatOnlySelf(fs.g, a);
    ncl := scl;
    ghost var wrapped := false;
    SearchStart(fs.fat, scl);
    while true
      invariant fs.Valid() && FatOnly(fs.g, a, fs.St()) && Onward(old(fs.medium), fs.medium)
      invariant |fs.fat| == n as int && Refreshed(old(fs.medium), fs.medium, |fs.log|)
      invariant Searched(fs.fat, scl, ncl, wrapped)
      decreases if wrapped then scl - ncl else n - ncl + n
    {
      ghost var b := fs.St();
      SearchStep(fs.fat, scl, ncl, wrapped);
      FoundFirst(fs.fat, scl, ncl, wrapped);
      SearchRange(fs.fat, scl, ncl, wrapped);
      ncl := ncl + 1;
      if ncl >= n {
        ncl := 2;
        wrapped := true;
        if ncl > scl { return 0; }
      }
      var cs := GetFat(fs, ncl);
      FatOnlyTrans(fs.g, a, b, fs.St());
      if cs == 0 { return; }
      if cs == 1 || cs == DISK_ERROR { return cs; }
      if ncl == scl { return 0; }
    }
  }

  /** The search of create_chain: first the neighbour of a chain being stretched, then the scan. */
  method FindFree(fs: Fatfs, clst: u32, start: u32) returns (ncl: u32)
    requires fs.Valid() && 1 <= start < fs.g.nFatent && (clst == 0 || clst == start)
    modifies fs`disk, fs`wflag, fs`medium, fs`winsect, fs.win
    ensures fs.Valid() && FatOnly(fs.g, old(fs.St()), fs.St())
    ensures ncl == 0 || ncl == 1 || ncl == DISK_ERROR || 2 <= ncl < |fs.fat|
    ensures ncl == 0 ==> Full(fs.fat)
    ensures ncl == 1 ==> HasReserved(fs.fat)
    ensures ncl == DISK_ERROR ==> Faulted(old(fs.medium), fs.medium)
    ensures 2 <= ncl < |fs.fat| ==> fs.fat[ncl] == 0 && Chosen(fs.fat, clst, start, fs.lastClst, ncl)
    ensures ncl != DISK_ERROR ==> Refreshed(old(fs.medium), fs.medium, |fs.log|)
    ensures Onward(old(fs.medium), fs.medium)
  {
    hide Fatfs.Valid, FatOnly, Geometry.WellFormed, Full;
    ghost var a := fs.St();
    ValidBasics(fs);
    MediumBound(fs.g, |fs.disk|);
    var n: u32 := fs.g.nFatent;
    var scl := start;
    FatOnlySelf(fs.g, a);
    if scl == clst {
      ncl := scl + 1;
      if ncl >= n { ncl := 2; }
      var cs := GetFat(fs, ncl);
      if cs == 1 || cs == DISK_ERROR { return cs; }
      if cs == 0 { return; }
      cs := fs.lastClst;
      if 2 <= cs < n { scl := cs; }
    }
    ghost var b := fs.St();
    ncl := ScanFree(fs, scl);
    FatOnlyTrans(fs.g, a, b, fs.St());
  }

  lemma MediumBound(g: Geometry, nsect: nat)
    requires g.WellFormed(nsect)
    ensures 2 < g.nFatent <= 0x7FFF_FFFF
  {
  }

  /** `b` is `a` with the free cluster `c` appended behind `p` (or as a chain of its own if `p` is 0). */
  ghost predicate Appended(g: Geometry, a: seq<nat>, b: seq<nat>, p: nat, c: nat) {
    && 2 <= c < |a| && a[c] == 0
    && (p != 0 ==> 2 <= p < |a| && p != c && a[p] >= |a|)
    && b == if p == 0 then a[c := g.MaxEntry()] else a[c := g.MaxEntry()][p := c]
  }

  // ---------- the history of the FAT ----------

  /** From `from` on, the FAT was a forest after every put_fat. */
  ghost predicate ForestsSince(log: seq<LogEntry>, from: nat) {
    forall i :: from <= i < |log| && log[i].Whole? ==> IsForest(log[i].fat)
  }

  /** After every put_fat since the volume was mounted the FAT was a forest. */
  ghost predicate CrashSafe(log: seq<LogEntry>) {
    ForestsSince(log, 0)
  }

  /** No put_fat was abandoned half-way. */
  ghost predicate Unbroken(log: seq<LogEntry>) {
    |log| > 0 && log[|log| - 1].Whole?
  }

  /** From (fat0, log0) to (fat1, log1) a forest was one after every single put_fat, and is one at the end unless the
      last put_fat failed half-way through an entry that straddles two sectors. */
  ghost predicate ForestSteps(fat0: seq<nat>, log0: seq<LogEntry>, fat1: seq<nat>, log1: seq<LogEntry>, ok: bool) {
    && log0 <= log1
    && (ok && Unbroken(log0) ==> Unbroken(log1))
    && (IsForest(fat0) ==>
         ForestsSince(log1, |log0|) && (IsForest(fat1) || !Unbroken(log1)) && (ok ==> IsForest(fat1)))
  }

  /** The whole history stays a history of forests, and unless `ok` fails, one to go on from. */
  ghost predicate StaysSafe(log0: seq<LogEntry>, log1: seq<LogEntry>, ok: bool) {
    CrashSafe(log0) && Unbroken(log0) ==> CrashSafe(log1) && (ok ==> Unbroken(log1))
  }

  /** From (fat0, log0) to log1 every cluster in use but those of `own` kept its entry at every single put_fat, torn
      states included. */
  ghost predicate LogApart(own: seq<nat>, fat0: seq<nat>, log0: seq<LogEntry>, log1: seq<LogEntry>) {
    && log0 <= log1
    && (forall i :: |log0| <= i < |log1| ==> |log1[i].fat| == |fat0|)
    && forall i, d :: |log0| <= i < |log1| && 2 <= d < |fat0| && fat0[d] != 0 && d !in own ==>
         EntryIs(log1[i], d, fat0[d])
  }

  ghost predicate EntryIs(e: LogEntry, d: nat, v: nat) {
    d < |e.fat| && e.fat[d] == v
  }

  lemma ApartSelf(own: seq<nat>, fat: seq<nat>, log: seq<LogEntry>)
    ensures LogApart(own, fat, log, log)
  {
  }

  lemma ApartTrans(own: seq<nat>, own1: seq<nat>, own2: seq<nat>, fat0: seq<nat>, log0: seq<LogEntry>, fat1: seq<nat>,
                   log1: seq<LogEntry>, log2: seq<LogEntry>)
    requires LogApart(own1, fat0, log0, log1) && LogApart(own2, fat1, log1, log2) && |fat1| == |fat0|
    requires forall d :: 2 <= d < |fat0| && fat0[d] != 0 && d !in own ==>
      fat1[d] == fat0[d] && d !in own1 && d !in own2
    ensures LogApart(own, fat0, log0, log2)
  {
    forall i | |log0| <= i < |log2|
      ensures |log2[i].fat| == |fat0|
    {
      if i < |log1| { assert log2[i] == log1[i]; }
    }
    forall i, d | |log0| <= i < |log2| && 2 <= d < |fat0| && fat0[d] != 0 && d !in own
      ensures EntryIs(log2[i], d, fat0[d])
    {
      if i < |log1| {
        assert log2[i] == log1[i];
      } else {
        assert fat1[d] == fat0[d] && d !in own2;
      }
    }
  }

  lemma ApartMore(own: seq<nat>, more: seq<nat>, fat: seq<nat>, log0: seq<LogEntry>, log1: seq<LogEntry>)
    requires LogApart(own, fat, log0, log1) && own <= more
    ensures LogApart(more, fat, log0, log1)
  {
  }

  lemma ApartWithin(own: seq<nat>, p: nat, fat: seq<nat>, log0: seq<LogEntry>, log1: seq<LogEntry>)
    requires LogApart([p], fat, log0, log1) && (p < 2 || p in own)
    ensures LogApart(own, fat, log0, log1)
  {
  }

  lemma PutApart(g: Geometry, c: nat, v: u32, ok: bool, fat0: seq<nat>, log0: seq<LogEntry>, fat1: seq<nat>,
                 log1: seq<LogEntry>)
    requires c < |fat0| && PutLogged(g, c, v, ok, fat0, log0, fat1, log1)
    requires ok ==> fat1 == fat0[c := Stored(g, v)]
    ensures LogApart([c], fat0, log0, log1)
  {
    hide Half12, Stored;
    forall i, d | |log0| <= i < |log1| && 2 <= d < |fat0| && fat0[d] != 0 && d !in [c]
      ensures EntryIs(log1[i], d, fat0[d])
    {
      assert c in [c];
    }
  }

  lemma ForestStepsSelf(fat: seq<nat>, log: seq<LogEntry>, ok: bool)
    ensures ForestSteps(fat, log, fat, log, ok)
  {
  }

  lemma ForestStepsTrans(fat0: seq<nat>, log0: seq<LogEntry>, fat1: seq<nat>, log1: seq<LogEntry>,
                         fat2: seq<nat>, log2: seq<LogEntry>, ok: bool)
    requires ForestSteps(fat0, log0, fat1, log1, true) && ForestSteps(fat1, log1, fat2, log2, ok)
    ensures ForestSteps(fat0, log0, fat2, log2, ok)
  {
    hide IsForest;
    assert forall i :: |log0| <= i < |log1| ==> log2[i] == log1[i];
  }

  lemma ForestStepsOn(fat0: seq<nat>, log0: seq<LogEntry>, fat1: seq<nat>, log1: seq<LogEntry>,
                      fat2: seq<nat>, log2: seq<LogEntry>, ok: bool)
    requires ForestSteps(fat0, log0, fat1, log1, true) && log1 <= log2 && (ok && Unbroken(log1) ==> Unbroken(log2))
    requires IsForest(fat0) ==> ForestSteps(fat1, log1, fat2, log2, ok)
    ensures ForestSteps(fat0, log0, fat2, log2, ok)
  {
    hide IsForest;
    if IsForest(fat0) {
      ForestStepsTrans(fat0, log0, fat1, log1, fat2, log2, ok);
    }
  }

  lemma PutUnbroken(g: Geometry, c: nat, v: u32, ok: bool, fat0: seq<nat>, log0: seq<LogEntry>,
                   fat1: seq<nat>, log1: seq<LogEntry>)
    requires c < |fat0| && PutLogged(g, c, v, ok, fat0, log0, fat1, log1)
    ensures log0 <= log1 && (ok ==> Unbroken(log1))
  {
    hide Half12;
  }

  /** One put_fat that would keep the FAT a forest, successful or not. */
  lemma PutForest(g: Geometry, c: nat, v: u32, ok: bool, fat0: seq<nat>, log0: seq<LogEntry>,
                  fat1: seq<nat>, log1: seq<LogEntry>)
    requires c < |fat0| && PutLogged(g, c, v, ok, fat0, log0, fat1, log1)
    requires ok ==> fat1 == fat0[c := Stored(g, v)]
    requires IsForest(fat0) ==> IsForest(fat0[c := Stored(g, v)])
    ensures ForestSteps(fat0, log0, fat1, log1, ok)
  {
    hide IsForest, Half12, Stored;
  }

  lemma ForestStepsSafe(fat0: seq<nat>, log0: seq<LogEntry>, fat1: seq<nat>, log1: seq<LogEntry>, ok: bool)
    requires ForestSteps(fat0, log0, fat1, log1, ok) && |log0| > 0 && log0[|log0| - 1].fat == fat0
    ensures StaysSafe(log0, log1, ok)
  {
    hide IsForest;
    if CrashSafe(log0) && Unbroken(log0) {
      assert IsForest(log0[|log0| - 1].fat);
      assert forall i :: 0 <= i < |log0| ==> log1[i] == log0[i];
    }
  }

  lemma LogBasics(fs: Fatfs)
    requires fs.Valid()
    ensures |fs.log| > 0 && fs.log[|fs.log| - 1].fat == fs.fat && WellLogged(fs.g, fs.log)
  {
  }

  /** Nothing that straddles two sectors was ever changed. On FAT16/32 nothing straddles. */
  ghost predicate Unsplit(g: Geometry, log: seq<LogEntry>) {
    forall i, c :: 0 < i < |log| && 0 <= c < |log[i].fat| == |log[i - 1].fat| && Straddles(g, c) ==>
      log[i].fat[c] == log[i - 1].fat[c]
  }

  lemma TornStraddles(g: Geometry, log: seq<LogEntry>, i: nat)
    requires WellLogged(g, log) && i < |log| && log[i].Torn?
    ensures 0 < i && OneTorn(g, log[i - 1].fat, log[i]) && g.fsType == Fat12
  {
    assert 0 < i && OneTorn(g, log[i - 1].fat, log[i]);
  }

  /** Without straddling entries every state of the history, torn or not, is one at a put_fat boundary. */
  lemma {:induction false} UnsplitWhole(g: Geometry, log: seq<LogEntry>, i: nat)
    requires WellLogged(g, log) && Unsplit(g, log) && i < |log|
    ensures exists k :: 0 <= k <= i && log[k].Whole? && log[k].fat == log[i].fat
  {
    if log[i].Torn? {
      TornStraddles(g, log, i);
      assert log[i].fat[log[i].c] == log[i - 1].fat[log[i].c];
      assert log[i].fat == log[i - 1].fat;
      UnsplitWhole(g, log, i - 1);
    }
  }

  /** Nothing straddles on FAT16/32. */
  lemma WideUnsplit(g: Geometry, log: seq<LogEntry>)
    requires g.fsType != Fat12 && WellLogged(g, log)
    ensures Unsplit(g, log) && forall i :: 0 <= i < |log| ==> log[i].Whole?
  {
    forall i | 0 <= i < |log|
      ensures log[i].Whole?
    {
      if log[i].Torn? { TornStraddles(g, log, i); }
    }
  }

  /** Whenever power fails, the first FAT on the medium is a state between two put_fat calls, and a forest - unless
      the write of its sector just failed - on FAT16/32, and on FAT12 if no entry that straddles two sectors was
      changed. */
  lemma MediumIsForest(fs: Fatfs)
    requires fs.Valid() && !fs.medium.damaged && CrashSafe(fs.log) && (fs.g.fsType == Fat12 ==> Unsplit(fs.g, fs.log))
    ensures exists k :: 0 <= k < |fs.log| && fs.log[k].Whole? && FatOf(fs.g, fs.disk, fs.log[k].fat)
                        && IsForest(fs.log[k].fat)
  {
    hide IsForest, FatOf, WellLogged, Unsplit;
    LogBasics(fs);
    if fs.g.fsType != Fat12 { WideUnsplit(fs.g, fs.log); }
    UnsplitWhole(fs.g, fs.log, fs.medium.at);
    var k :| 0 <= k <= fs.medium.at && fs.log[k].Whole? && fs.log[k].fat == fs.log[fs.medium.at].fat;
    assert IsForest(fs.log[k].fat);
  }

  /** State `i` of the history is no torn one, or its torn entry may take the value it has half-way. */
  ghost predicate Harmless(log: seq<LogEntry>, i: nat)
    requires i < |log|
  {
    log[i].Torn? && 0 < i && log[i].c < |log[i].fat| == |log[i - 1].fat| ==>
      MayTake(log[i - 1].fat, log[i].c, log[i].fat[log[i].c])
  }

  /** The same exactly, straddling entries or not: the medium holds a forest if and only if the state it shows is
      harmless (a torn one being that of a put_fat that began on a forest). */
  lemma MediumExact(fs: Fatfs)
    requires fs.Valid() && !fs.medium.damaged && CrashSafe(fs.log)
    requires fs.log[fs.medium.at].Torn? && 0 < fs.medium.at ==> IsForest(fs.log[fs.medium.at - 1].fat)
    ensures fs.medium.at < |fs.log| && FatOf(fs.g, fs.disk, fs.log[fs.medium.at].fat)
    ensures IsForest(fs.log[fs.medium.at].fat) <==> Harmless(fs.log, fs.medium.at)
  {
    hide IsForest, FatOf, WellLogged, MayTake, WinState.Coherent, MirroredBut;
    LogBasics(fs);
    var i, log := fs.medium.at, fs.log;
    if log[i].Torn? {
      TornStraddles(fs.g, log, i);
      TornEntry(fs.g, log[i - 1].fat, log[i]);
      UpdateExact(log[i - 1].fat, log[i].c, log[i].fat[log[i].c]);
    }
  }

  lemma TornEntry(g: Geometry, before: seq<nat>, e: LogEntry)
    requires e.Torn? && OneTorn(g, before, e)
    ensures 2 <= e.c < |before| == |e.fat| && e.fat == before[e.c := e.fat[e.c]]
  {
  }

  /** put_fat of an entry that straddles two sectors, on a forest: what it leaves on the medium is a forest if and only
      if the entry may take the value it has half-way. */
  method PutAcross(fs: Fatfs, clst: u32, val: u32) returns (res: FResult)
    requires fs.Valid() && 2 <= clst < fs.g.nFatent && Straddles(fs.g, clst) && IsForest(fs.fat)
    modifies fs`disk, fs`wflag, fs`medium, fs`winsect, fs.win, fs`fat, fs`log
    ensures fs.Valid() && clst < |old(fs.fat)|
    ensures res == FrOk || (res == FrDiskErr && Faulted(old(fs.medium), fs.medium))
    ensures res == FrOk ==> var h := Half12(clst, old(fs.fat)[clst], val);
      && FatOf(fs.g, fs.disk, old(fs.fat)[clst := h])
      && (IsForest(old(fs.fat)[clst := h]) <==> MayTake(old(fs.fat), clst, h))
  {
    hide FatOnly, Geometry.WellFormed, FatOf, MirroredBut, WellLogged, WinState.Logical, IsForest, MayTake, Half12;
    ghost var before, n0 := fs.fat, |fs.log|;
    ValidBasics(fs);
    res := PutFat(fs, clst, val);
    if res == FrOk {
      ghost var h := Half12(clst, before[clst], val);
      assert fs.log[n0] == Torn(before[clst := h], clst);
      UpdateExact(before, clst, h);
    }
  }

  /** The end mark put on a free cluster reads half-way as 15 or 255: harmless only if that is no cluster, or the start
      of a chain. */
  lemma TornEndMark(a: seq<nat>, c: nat)
    requires IsForest(a) && 2 <= c < |a| && a[c] == 0
    ensures var h := if c % 2 == 1 then 15 else 255;
      && Half12(c, a[c], END_OF_CHAIN) == h
      && (IsForest(a[c := h]) <==> h >= |a| || (a[h] != 0 && NoPredecessor(a, h)))
  {
    hide IsForest, NoPredecessor, IsChain;
    var h := if c % 2 == 1 then 15 else 255;
    UpdateExact(a, c, h);
    forall ch | IsChain(a, ch)
      ensures c !in ch
    {
      FreeNotInChain(a, ch, c);
    }
  }

  /** Freeing the first cluster of a chain: half-way it must be free already, an end, linked as before, or linked to
      the start of another chain. */
  lemma TornFree(a: seq<nat>, c: nat)
    requires IsForest(a) && 2 <= c < |a| && NoPredecessor(a, c)
    ensures var h := Half12(c, a[c], 0);
      IsForest(a[c := h]) <==>
        h == a[c] || h == 0 || h >= |a| || (2 <= h && h != c && a[h] != 0 && NoPredecessor(a, h))
  {
    hide IsForest, Half12, Unreached;
    var h := Half12(c, a[c], 0);
    UpdateExact(a, c, h);
    if 2 <= h < |a| && a[h] != 0 { OtherStart(a, h, c); }
  }

  lemma OtherStart(a: seq<nat>, h: nat, c: nat)
    requires IsForest(a) && 2 <= h < |a| && a[h] != 0 && NoPredecessor(a, c)
    ensures Unreached(a, h, c) <==> h != c
  {
    hide NoDangling, NoSharing, NoPredecessor;
    if h == c {
      UnreachedSelf(a, c);
    } else {
      forall ch | IsChain(a, ch) && ch[0] == h
        ensures c !in ch
      {
        RootNotInChain(a, ch, c);
      }
    }
  }

  lemma UnreachedSelf(a: seq<nat>, c: nat)
    requires NoCycle(a) && 2 <= c < |a| && a[c] != 0
    ensures !Unreached(a, c, c)
  {
    if Unreached(a, c, c) { UnreachedOther(a, c, c); }
  }

  /** With entry 341, whose two bytes lie in different sectors, the medium is no forest between the two writes: the
      end mark half-way stored reads as a link to cluster 15, which may be free. */
  method TornMedium(fs: Fatfs) returns (res: FResult)
    requires fs.Valid() && fs.g.fsType == Fat12 && |fs.fat| > 341 && fs.fat[341] == 0 && fs.fat[15] == 0
    modifies fs`disk, fs`wflag, fs`medium, fs`winsect, fs.win, fs`fat, fs`log
    ensures fs.Valid() && (res == FrOk || (res == FrDiskErr && Faulted(old(fs.medium), fs.medium)))
    ensures IsForest(old(fs.fat)) && res == FrOk ==> IsForest(fs.fat)
    ensures res == FrOk ==>
      exists onMedium :: FatOf(fs.g, fs.disk, onMedium) && onMedium[341] == 15 && !IsForest(onMedium)
  {
    hide FatOnly, Geometry.WellFormed, FatOf, MirroredBut, WellLogged, WinState.Logical, NoSharing, NoCycle;
    ghost var before, n0 := fs.fat, |fs.log|;
    ValidBasics(fs);
    EndMark(fs.g, |fs.disk|);
    if IsForest(before) { AllocStep(before, 341, fs.g.MaxEntry()); }
    res := PutFat(fs, 341, END_OF_CHAIN);
    if res == FrOk {
      ghost var torn := before[341 := 15];
      assert fs.log[n0] == Torn(torn, 341);
      assert torn[torn[341]] == 0;
    }
  }

  /** The two updates of an append, in the order they are made, each leave a forest. */
  lemma AppendForest(a: seq<nat>, p: nat, c: nat, eoc: nat)
    requires 2 <= c < |a| && a[c] == 0 && eoc >= |a|
    requires p != 0 ==> 2 <= p < |a| && p != c && a[p] >= |a|
    requires IsForest(a)
    ensures IsForest(a[c := eoc])
    ensures p != 0 ==> IsForest(a[c := eoc][p := c])
  {
    hide IsForest, NoPredecessor;
    AllocStep(a, c, eoc);
    if p != 0 {
      LinkStep(a[c := eoc], p, c);
    }
  }

  /** The state between the two updates: the fresh cluster ends a chain of its own and can be linked. */
  lemma LinkMid(a: seq<nat>, mid: seq<nat>, p: nat, c: nat, eoc: nat)
    requires 2 <= c < |a| && a[c] == 0 && eoc >= |a| && 2 <= p < |a| && p != c && a[p] >= |a|
    requires mid == a[c := eoc]
    ensures IsForest(a) ==> IsForest(mid[p := c])
  {
    hide IsForest;
    if IsForest(a) { AppendForest(a, p, c, eoc); }
  }

  /** One cluster fewer is free after an append. */
  lemma AppendCount(g: Geometry, a: seq<nat>, b: seq<nat>, p: nat, c: nat)
    requires Appended(g, a, b, p, c) && |a| == g.nFatent <= g.MaxEntry() && |a| >= 2
    ensures |b| == |a| && FreeCount(b) == FreeCount(a) - 1
  {
    FreeFromUpdate(a, 2, c, g.MaxEntry());
    if p != 0 {
      FreeFromUpdate(a[c := g.MaxEntry()], 2, p, c);
    }
  }

  lemma AppendUnreserved(g: Geometry, a: seq<nat>, b: seq<nat>, p: nat, c: nat)
    requires Appended(g, a, b, p, c) && |a| <= g.MaxEntry()
    ensures HasReserved(b) ==> HasReserved(a)
  {
    if HasReserved(b) {
      var d :| 2 <= d < |b| && b[d] == 1;
      assert a[d] == 1;
    }
  }

  /** A put_fat that fails leaves the FAT as it was, unless it tore the entry. */
  lemma PutFailed(g: Geometry, c: nat, v: u32, ok: bool, fat0: seq<nat>, log0: seq<LogEntry>, fat1: seq<nat>,
                  log1: seq<LogEntry>)
    requires c < |fat0| && PutLogged(g, c, v, ok, fat0, log0, fat1, log1)
    ensures !ok && !Straddles(g, c) ==> fat1 == fat0
  {
  }

  /** The two put_fat calls of create_chain: end mark first, then the link. */
  method Append(fs: Fatfs, clst: u32, ncl: u32) returns (res: FResult)
    requires fs.Valid() && 2 <= ncl < |fs.fat| && fs.fat[ncl] == 0
    requires clst != 0 ==> 2 <= clst < |fs.fat| && clst != ncl && fs.fat[clst] >= |fs.fat|
    modifies fs`disk, fs`wflag, fs`medium, fs`winsect, fs.win, fs`fat, fs`log
    ensures fs.Valid() && FatOnly(fs.g, old(fs.St()), fs.St())
    ensures res == FrOk || res == FrDiskErr
    ensures res == FrDiskErr ==> Faulted(old(fs.medium), fs.medium)
    ensures res == FrOk ==> Appended(fs.g, old(fs.fat), fs.fat, clst, ncl) && fs.g.InFat1(fs.winsect)
    ensures |fs.fat| == old(|fs.fat|)
    ensures forall d :: 0 <= d < |fs.fat| && d != clst && d != ncl ==> fs.fat[d] == old(fs.fat[d])
    ensures res != FrOk && clst != 0 && !Straddles(fs.g, clst) ==> fs.fat[clst] == old(fs.fat[clst])
    ensures ForestSteps(old(fs.fat), old(fs.log), fs.fat, fs.log, res == FrOk)
    ensures LogApart([clst], old(fs.fat), old(fs.log), fs.log)
    ensures Onward(old(fs.medium), fs.medium)
  {
    hide Fatfs.Valid, FatOnly, Geometry.WellFormed, IsForest, Geometry.MaxEntry, Stored, PutLogged, ForestSteps,
         LogApart;
    ghost var a := fs.St();
    ghost var before, log0 := fs.fat, fs.log;
    ValidBasics(fs);
    EndMark(fs.g, |fs.disk|);
    if IsForest(before) {
      AppendForest(before, clst, ncl, fs.g.MaxEntry());
    }
    res := PutFat(fs, ncl, END_OF_CHAIN);
    PutForest(fs.g, ncl, END_OF_CHAIN, res == FrOk, before, log0, fs.fat, fs.log);
    PutApart(fs.g, ncl, END_OF_CHAIN, res == FrOk, before, log0, fs.fat, fs.log);
    ApartSelf([ncl], fs.fat, fs.log);
    ApartTrans([clst], [ncl], [ncl], before, log0, before, log0, fs.log) by { ApartSelf([ncl], before, log0); }
    if res == FrOk && clst != 0 {
      ghost var b, mid, log1 := fs.St(), fs.fat, fs.log;
      assert Stored(fs.g, ncl) == ncl;
      LinkMid(before, mid, clst, ncl, fs.g.MaxEntry());
      res := PutFat(fs, clst, ncl);
      if IsForest(before) { PutForest(fs.g, clst, ncl, res == FrOk, mid, log1, fs.fat, fs.log); }
      PutUnbroken(fs.g, clst, ncl, res == FrOk, mid, log1, fs.fat, fs.log);
      PutApart(fs.g, clst, ncl, res == FrOk, mid, log1, fs.fat, fs.log);
      ApartTrans([clst], [ncl], [clst], before, log0, mid, log1, fs.log);
      PutFailed(fs.g, clst, ncl, res == FrOk, mid, log1, fs.fat, fs.log);
      ForestStepsOn(before, log0, mid, log1, fs.fat, fs.log, res == FrOk);
      FatOnlyTrans(fs.g, a, b, fs.St());
    }
  }

  /** A new free count is always marked as not yet sent to FSInfo. */
  method SetFree(fs: Fatfs, free: u32)
    requires fs.Valid()
    modifies fs`freeClst, fs`fsiDirty
    ensures fs.Valid() && fs.freeClst == free && fs.fsiDirty
  {
    hide MirroredBut, WellLogged, FatOf, WinState.Coherent, WinState.Logical, InfoCounts;
    fs.freeClst, fs.fsiDirty := free, true;
  }

  /** And so is the cluster taken last. */
  method SetTaken(fs: Fatfs, free: u32, last: u32)
    requires fs.Valid()
    modifies fs`lastClst, fs`freeClst, fs`fsiDirty
    ensures fs.Valid() && fs.freeClst == free && fs.lastClst == last && fs.fsiDirty
  {
    hide MirroredBut, WellLogged, FatOf, WinState.Coherent, WinState.Logical, InfoCounts;
    fs.lastClst, fs.freeClst, fs.fsiDirty := last, free, true;
  }

  /** The part of create_chain behind the checks: search, append, bookkeeping. */
  method Allocate(fs: Fatfs, clst: u32, scl: u32) returns (ncl: u32)
    requires fs.Valid() && fs.g.fsType != ExFat && 1 <= scl < fs.g.nFatent && fs.freeClst != 0
    requires clst == 0 || (clst == scl && 2 <= clst && fs.fat[clst] >= |fs.fat|)
    modifies fs`disk, fs`wflag, fs`medium, fs`winsect, fs.win, fs`fat, fs`log,
             fs`lastClst, fs`freeClst, fs`fsiDirty
    ensures fs.Valid() && FatOnly(fs.g, old(fs.St()), fs.St()) && |fs.fat| == old(|fs.fat|)
    ensures ncl == 0 || ncl == 1 || ncl == DISK_ERROR || 2 <= ncl < |fs.fat|
    ensures 2 <= ncl < |fs.fat| ==>
      Appended(fs.g, old(fs.fat), fs.fat, clst, ncl) && fs.lastClst == ncl && fs.g.InFat1(fs.winsect)
    ensures 2 <= ncl < |fs.fat| ==> Chosen(old(fs.fat), clst, scl, old(fs.lastClst), ncl)
    // the count goes down by one if it was one; a call that fails leaves count and hint alone
    ensures 2 <= ncl < |fs.fat| ==>
      fs.freeClst == if old(fs.freeClst) <= fs.g.nFatent - 2 then old(fs.freeClst) - 1 else old(fs.freeClst)
    ensures !(2 <= ncl < |fs.fat|) ==> fs.freeClst == old(fs.freeClst) && fs.lastClst == old(fs.lastClst)
    ensures ncl == 0 ==> Full(fs.fat)
    ensures ncl == 0 || ncl == 1 ==> fs.fat == old(fs.fat) && fs.log == old(fs.log) && fs.freeClst == old(fs.freeClst)
    ensures ncl == 0 || ncl == 1 ==> Refreshed(old(fs.medium), fs.medium, |fs.log|)
    ensures ncl == 1 ==> HasReserved(fs.fat)
    ensures ncl == DISK_ERROR ==> Faulted(old(fs.medium), fs.medium)
    ensures ncl == DISK_ERROR ==>
      forall d :: 2 <= d < |fs.fat| && d != clst && old(fs.fat)[d] != 0 ==> fs.fat[d] == old(fs.fat)[d]
    ensures ncl == DISK_ERROR && 2 <= clst < |fs.fat| && !Straddles(fs.g, clst) ==> fs.fat[clst] == old(fs.fat)[clst]
    ensures ncl != DISK_ERROR && CountKnown(old(fs.fat), old(fs.freeClst)) ==> CountKnown(fs.fat, fs.freeClst)
    ensures ncl != DISK_ERROR ==> (HasReserved(fs.fat) ==> HasReserved(old(fs.fat)))
    // a forest stays one at every single put_fat, also when the call fails half-way
    ensures ForestSteps(old(fs.fat), old(fs.log), fs.fat, fs.log, ncl != DISK_ERROR)
    ensures StaysSafe(old(fs.log), fs.log, ncl != DISK_ERROR)
    ensures LogApart([clst], old(fs.fat), old(fs.log), fs.log)
    ensures Onward(old(fs.medium), fs.medium)
  {
    hide Fatfs.Valid, FatOnly, Geometry.WellFormed, IsForest, Geometry.MaxEntry, FreeCount, CrashSafe, ForestSteps,
         LogApart, Chosen;
    ghost var a := fs.St();
    ghost var before := fs.fat;
    ApartSelf([clst], fs.fat, fs.log);
    ValidBasics(fs);
    EndMark(fs.g, |fs.disk|);
    MediumBound(fs.g, |fs.disk|);
    ForestStepsSelf(fs.fat, fs.log, true);
    ForestStepsSelf(fs.fat, fs.log, false);
    var n: u32 := fs.g.nFatent;
    ncl := FindFree(fs, clst, scl);
    if ncl == 0 || ncl == 1 || ncl == DISK_ERROR { return; }
    ghost var b := fs.St();
    LogBasics(fs);
    var res := Append(fs, clst, ncl);
    ForestStepsSafe(before, old(fs.log), fs.fat, fs.log, res == FrOk);
    FatOnlyTrans(fs.g, a, b, fs.St());
    if res == FrOk {
      AppendCount(fs.g, before, fs.fat, clst, ncl);
      AppendUnreserved(fs.g, before, fs.fat, clst, ncl);
      SetTaken(fs, if fs.freeClst <= n - 2 then fs.freeClst - 1 else fs.freeClst, ncl);
    } else {
      ncl := DISK_ERROR;    // put_fat fails only on a disk error here: both clusters are in range
    }
  }

  /** Where a new chain is looked for: behind the cluster taken last. */
  function SearchFrom(last: u32, n: nat): nat {
    if last == 0 || last >= n then 1 else last
  }

  /** create_chain on FAT12/16/32: follow the chain from `clst`, or stretch it, or start a new one (clst == 0). */
  method CreateChain(fs: Fatfs, clst: u32) returns (ncl: u32)
    requires fs.Valid() && fs.g.fsType != ExFat
    modifies fs`disk, fs`wflag, fs`medium, fs`winsect, fs.win, fs`fat, fs`log,
             fs`lastClst, fs`freeClst, fs`fsiDirty
    ensures fs.Valid() && FatOnly(fs.g, old(fs.St()), fs.St()) && |fs.fat| == old(|fs.fat|)
    ensures ncl == 0 || ncl == 1 || ncl == DISK_ERROR || 2 <= ncl < |fs.fat|
    // already followed by another cluster: nothing changes
    ensures (2 <= clst < |fs.fat| && 2 <= old(fs.fat)[clst] < |fs.fat|) ==>
      (ncl == old(fs.fat)[clst] || ncl == DISK_ERROR) && fs.fat == old(fs.fat) && fs.log == old(fs.log)
      && fs.freeClst == old(fs.freeClst)
    // stretched or new: a free cluster was taken
    ensures (2 <= ncl < |fs.fat| && !(2 <= clst < |fs.fat| && 2 <= old(fs.fat)[clst] < |fs.fat|)) ==>
      Appended(fs.g, old(fs.fat), fs.fat, clst, ncl) && fs.lastClst == ncl && fs.g.InFat1(fs.winsect)
      && Chosen(old(fs.fat), clst, if clst != 0 then clst else SearchFrom(old(fs.lastClst), |fs.fat|),
                old(fs.lastClst), ncl)
    ensures !(2 <= ncl < |fs.fat|) ==> fs.freeClst == old(fs.freeClst) && fs.lastClst == old(fs.lastClst)
    // in these cases the medium holds what it held, or the latest
    ensures ncl == 0 || ncl == 1 || (2 <= clst < |fs.fat| && 2 <= old(fs.fat)[clst] < |fs.fat| && ncl != DISK_ERROR) ==>
      Refreshed(old(fs.medium), fs.medium, |fs.log|)
    // refused: nothing changed, and (the count being right) no cluster is free
    ensures ncl == 0 ==> fs.fat == old(fs.fat) && fs.log == old(fs.log) && fs.freeClst == old(fs.freeClst)
    ensures ncl == 0 && CountKnown(fs.fat, fs.freeClst) ==> Full(fs.fat)
    // internal error: the request or the FAT was bad to begin with
    ensures ncl == 1 ==> fs.fat == old(fs.fat) && fs.log == old(fs.log)
    ensures ncl == 1 ==> (clst != 0 && !(2 <= clst < |fs.fat| && 2 <= fs.fat[clst])) || HasReserved(fs.fat)
    // failed: so has the device
    ensures ncl == DISK_ERROR ==> Faulted(old(fs.medium), fs.medium)
    ensures IsForest(old(fs.fat)) && (clst == 0 || (2 <= clst < |fs.fat| && old(fs.fat)[clst] != 0)) ==> ncl != 1
    ensures ncl == DISK_ERROR ==>
      forall d :: 2 <= d < |fs.fat| && d != clst && old(fs.fat)[d] != 0 ==> fs.fat[d] == old(fs.fat)[d]
    ensures ncl == DISK_ERROR && 2 <= clst < |fs.fat| && !Straddles(fs.g, clst) ==> fs.fat[clst] == old(fs.fat)[clst]
    ensures ncl != DISK_ERROR && CountKnown(old(fs.fat), old(fs.freeClst)) ==> CountKnown(fs.fat, fs.freeClst)
    ensures ncl != DISK_ERROR ==> (HasReserved(fs.fat) ==> HasReserved(old(fs.fat)))
    // a forest stays one at every single put_fat, also when the call fails half-way
    ensures ForestSteps(old(fs.fat), old(fs.log), fs.fat, fs.log, ncl != DISK_ERROR)
    ensures StaysSafe(old(fs.log), fs.log, ncl != DISK_ERROR)
    ensures LogApart([clst], old(fs.fat), old(fs.log), fs.log)
    ensures Onward(old(fs.medium), fs.medium)
  {
    hide Fatfs.Valid, FatOnly, Geometry.WellFormed, IsForest, Geometry.MaxEntry, FreeCount, ForestSteps, LogApart,
         Chosen;
    ghost var a := fs.St();
    ApartSelf([clst], fs.fat, fs.log);
    ValidBasics(fs);
    MediumBound(fs.g, |fs.disk|);
    FatOnlySelf(fs.g, a);
    ForestStepsSelf(fs.fat, fs.log, true);
    ForestStepsSelf(fs.fat, fs.log, false);
    if IsForest(fs.fat) { ForestUnreserved(fs.fat); }
    var n: u32 := fs.g.nFatent;
    var scl: u32;
    if clst == 0 {
      scl := fs.lastClst;
      if scl == 0 || scl >= n { scl := 1; }
    } else {
      var cs := GetFat(fs, clst);
      if cs < 2 { return 1; }
      if cs == DISK_ERROR { return cs; }
      if cs < n { return cs; }
      scl := clst;
    }
    if fs.freeClst == 0 {
      ZeroMeansFull(fs.fat);
      return 0;
    }
    ghost var b := fs.St();
    ncl := Allocate(fs, clst, scl);
    FatOnlyTrans(fs.g, a, b, fs.St());
  }

  lemma ZeroMeansFull(fat: seq<nat>)
    requires |fat| >= 2
    ensures FreeCount(fat) == 0 <==> Full(fat)
  {
    FreeFromBounds(fat, 2);
  }

  // ---------- remove_chain ----------

  /** `fat` with the clusters of `ch` freed. */
  ghost function Freed(fat: seq<nat>, ch: seq<nat>): (r: seq<nat>)
    ensures |r| == |fat| && forall d :: 0 <= d < |fat| ==> r[d] == if d in ch then 0 else fat[d]
  {
    seq(|fat|, d requires 0 <= d < |fat| => if d in ch then 0 else fat[d])
  }

  /** `fat` after the predecessor (if any) got its end mark. */
  ghost function CutAt(g: Geometry, fat: seq<nat>, p: nat): (r: seq<nat>)
    ensures |r| == |fat|
  {
    if 2 <= p < |fat| then fat[p := g.MaxEntry()] else fat
  }

  ghost predicate CutOrFreed(g: Geometry, a: seq<nat>, b: seq<nat>, p: nat) {
    |b| == |a| && forall d :: 0 <= d < |a| ==> (d >= 2 && b[d] == 0) || b[d] == CutAt(g, a, p)[d]
  }

  /** Freeing the next cluster of a chain. */
  lemma FreedNext(fat: seq<nat>, ch: seq<nat>, i: nat)
    requires IsChain(fat, ch) && i < |ch|
    ensures Freed(fat, ch[..i])[ch[i]] == fat[ch[i]] != 0
    ensures Freed(fat, ch[..i])[ch[i] := 0] == Freed(fat, ch[..i + 1])
    ensures i + 1 < |ch| ==> fat[ch[i]] == ch[i + 1] < |fat|
    ensures i + 1 == |ch| ==> fat[ch[i]] >= |fat| && ch[..i + 1] == ch
  {
    if ch[i] in ch[..i] {
      var j :| 0 <= j < i && ch[j] == ch[i];
      ChainDistinct(fat, ch, j, i);
    }
    assert ch[..i + 1] == ch[..i] + [ch[i]];
    if i + 1 < |ch| {
      ChainNext(fat, ch, i);
    }
  }

  /** The used clusters, as a measure: remove_chain frees one per round whatever the FAT contains. */
  ghost function UsedCount(fat: seq<nat>): int
    requires |fat| >= 2
  {
    |fat| - FreeCount(fat)
  }

  lemma FreeOne(fat: seq<nat>, c: nat)
    requires 2 <= c < |fat| && fat[c] != 0
    ensures FreeCount(fat[c := 0]) == FreeCount(fat) + 1 <= |fat| - 2
  {
    FreeFromUpdate(fat, 2, c, 0);
    FreeFromBounds(fat[c := 0], 2);
  }

  lemma FewerUsed(fat: seq<nat>, c: nat)
    requires 2 <= c < |fat| && fat[c] != 0
    ensures 0 <= UsedCount(fat[c := 0]) < UsedCount(fat)
  {
    FreeOne(fat, c);
  }

  /** What the caller of remove_chain must hand over for the FAT to stay a forest at every step. */
  ghost predicate Detachable(fat: seq<nat>, clst: nat, p: nat) {
    && IsForest(fat)
    && (p == 0 ==> NoPredecessor(fat, clst))
    && (p != 0 ==> 2 <= p < |fat| && fat[p] == clst)
  }

  /** put_fat of zero, the step of remove_chain's loop that frees a cluster. */
  method ZeroEntry(fs: Fatfs, clst: u32) returns (res: FResult)
    requires fs.Valid() && fs.g.fsType != ExFat && 2 <= clst < fs.g.nFatent
    modifies fs`disk, fs`wflag, fs`medium, fs`winsect, fs.win, fs`fat, fs`log
    ensures fs.Valid() && FatOnly(fs.g, old(fs.St()), fs.St()) && |fs.fat| == old(|fs.fat|)
    ensures res == FrOk || res == FrDiskErr
    ensures res == FrDiskErr ==> Faulted(old(fs.medium), fs.medium)
    ensures res == FrOk ==> fs.fat == old(fs.fat)[clst := 0]
    ensures forall d :: 0 <= d < |fs.fat| && d != clst ==> fs.fat[d] == old(fs.fat)[d]
    ensures old(fs.log) <= fs.log && (res == FrOk && Unbroken(old(fs.log)) ==> Unbroken(fs.log))
    ensures (IsForest(old(fs.fat)) ==> IsForest(old(fs.fat)[clst := 0])) ==>
      ForestSteps(old(fs.fat), old(fs.log), fs.fat, fs.log, res == FrOk)
    ensures LogApart([clst], old(fs.fat), old(fs.log), fs.log)
    ensures Onward(old(fs.medium), fs.medium)
  {
    hide Fatfs.Valid, FatOnly, Geometry.WellFormed, IsForest, ForestSteps, Half12, PutLogged, Unbroken, LogApart;
    ghost var f, log0 := fs.fat, fs.log;
    ValidBasics(fs);
    res := PutFat(fs, clst, 0);
    PutUnbroken(fs.g, clst, 0, res == FrOk, f, log0, fs.fat, fs.log);
    PutApart(fs.g, clst, 0, res == FrOk, f, log0, fs.fat, fs.log);
    if IsForest(f) ==> IsForest(f[clst := 0]) {
      PutForest(fs.g, clst, 0, res == FrOk, f, log0, fs.fat, fs.log);
    }
  }

  /** One round of remove_chain: read the successor, free the cluster, count it. */
  method FreeCluster(fs: Fatfs, clst: u32) returns (res: FResult, nxt: u32)
    requires fs.Valid() && fs.g.fsType != ExFat && 2 <= clst < fs.g.nFatent
    modifies fs`disk, fs`wflag, fs`medium, fs`winsect, fs.win, fs`fat, fs`log, fs`freeClst, fs`fsiDirty
    ensures fs.Valid() && FatOnly(fs.g, old(fs.St()), fs.St()) && |fs.fat| == old(|fs.fat|)
    ensures res == FrOk || res == FrDiskErr || res == FrIntErr
    ensures res == FrDiskErr ==> Faulted(old(fs.medium), fs.medium)
    ensures res == FrOk ==> nxt != 1 && nxt == old(fs.fat)[clst] && fs.fat == old(fs.fat)[clst := 0]
    ensures res == FrIntErr ==> old(fs.fat)[clst] == 1 && fs.fat == old(fs.fat)
    ensures res != FrOk ==> fs.freeClst == old(fs.freeClst) && fs.fsiDirty == old(fs.fsiDirty)
    ensures forall d :: 0 <= d < |fs.fat| && d != clst ==> fs.fat[d] == old(fs.fat)[d]
    ensures res != FrDiskErr && CountKnown(old(fs.fat), old(fs.freeClst)) ==> CountKnown(fs.fat, fs.freeClst)
    ensures old(fs.log) <= fs.log && (res != FrDiskErr && Unbroken(old(fs.log)) ==> Unbroken(fs.log))
    ensures (IsForest(old(fs.fat)) ==> IsForest(old(fs.fat)[clst := 0])) ==>
      ForestSteps(old(fs.fat), old(fs.log), fs.fat, fs.log, res != FrDiskErr)
    ensures LogApart([clst], old(fs.fat), old(fs.log), fs.log)
    ensures Onward(old(fs.medium), fs.medium)
  {
    hide Fatfs.Valid, FatOnly, Geometry.WellFormed, FreeCount, IsForest, ForestSteps, Half12, LogApart;
    ghost var a := fs.St();
    ApartSelf([clst], fs.fat, fs.log);
    ghost var f, log0 := fs.fat, fs.log;
    ValidBasics(fs);
    ForestStepsSelf(f, log0, true);
    ForestStepsSelf(f, log0, false);
    MediumBound(fs.g, |fs.disk|);
    nxt := GetFat(fs, clst);
    if nxt == 0 { return FrOk, nxt; }
    if nxt == 1 { return FrIntErr, nxt; }
    if nxt == DISK_ERROR { return FrDiskErr, nxt; }
    ghost var b := fs.St();
    res := ZeroEntry(fs, clst);
    FatOnlyTrans(fs.g, a, b, fs.St());
    if res != FrOk { return; }
    FreeOne(f, clst);
    if fs.freeClst < fs.g.nFatent - 2 {
      SetFree(fs, fs.freeClst + 1);
    }
  }

  /** How the loop of remove_chain has thinned out the FAT: the count is right, the history one of forests, and the next
      cluster to go has no predecessor. */
  ghost predicate Thinned(forest: bool, before: seq<nat>, log0: seq<LogEntry>, free0: u32, fat: seq<nat>,
                          log: seq<LogEntry>, free: u32, clst: nat)
  {
    && (CountKnown(before, free0) ==> CountKnown(fat, free))
    && log0 <= log && (Unbroken(log0) ==> Unbroken(log))
    && (forest ==> ForestSteps(before, log0, fat, log, true))
    && (forest && IsForest(before) ==> IsForest(fat) && NoPredecessor(fat, clst))
  }

  lemma ThinnedStart(forest: bool, before: seq<nat>, log0: seq<LogEntry>, free0: u32, clst: nat)
    requires forest && IsForest(before) ==> NoPredecessor(before, clst)
    ensures Thinned(forest, before, log0, free0, before, log0, free0, clst)
  {
    hide IsForest, NoPredecessor;
  }

  lemma ThinnedStep(forest: bool, before: seq<nat>, log0: seq<LogEntry>, free0: u32,
                    f: seq<nat>, log1: seq<LogEntry>, free1: u32, clst: nat,
                    fat: seq<nat>, log: seq<LogEntry>, free: u32, res: FResult, nxt: nat)
    requires Thinned(forest, before, log0, free0, f, log1, free1, clst) && 2 <= clst < |f|
    requires res == FrOk ==> nxt == f[clst] && fat == f[clst := 0]
    requires log1 <= log && (res != FrDiskErr && Unbroken(log1) ==> Unbroken(log))
    requires (IsForest(f) ==> IsForest(f[clst := 0])) ==> ForestSteps(f, log1, fat, log, res != FrDiskErr)
    requires res != FrDiskErr && CountKnown(f, free1) ==> CountKnown(fat, free)
    ensures res != FrDiskErr && CountKnown(before, free0) ==> CountKnown(fat, free)
    ensures log0 <= log && (res != FrDiskErr && Unbroken(log0) ==> Unbroken(log))
    ensures forest ==> ForestSteps(before, log0, fat, log, res != FrDiskErr)
    ensures res == FrOk && 2 <= nxt < |f| ==> Thinned(forest, before, log0, free0, fat, log, free, nxt)
  {
    hide IsForest, NoPredecessor, CountKnown, ForestSteps, Unbroken;
    if forest {
      if IsForest(before) { FreeStep(f, clst); }
      ForestStepsOn(before, log0, f, log1, fat, log, res != FrDiskErr) by { assert log1 <= log; }
    }
  }

  /** The loop of remove_chain. `ch` is the chain starting at `first`, when there is one. */
  method FreeLoop(fs: Fatfs, first: u32, ghost ch: seq<nat>) returns (res: FResult)
    requires fs.Valid() && fs.g.fsType != ExFat && 2 <= first < fs.g.nFatent
    modifies fs`disk, fs`wflag, fs`medium, fs`winsect, fs.win, fs`fat, fs`log, fs`freeClst, fs`fsiDirty
    ensures fs.Valid() && FatOnly(fs.g, old(fs.St()), fs.St()) && |fs.fat| == old(|fs.fat|)
    ensures res == FrOk || res == FrDiskErr || res == FrIntErr
    ensures res == FrDiskErr ==> Faulted(old(fs.medium), fs.medium)
    ensures res == FrIntErr ==> HasReserved(old(fs.fat))
    ensures res == FrOk ==> fs.fat[first] == 0
    ensures |ch| > 0 && ch[0] == first as nat && IsChain(old(fs.fat), ch) ==> res != FrIntErr
    ensures res != FrDiskErr ==>
      forall d :: 0 <= d < |fs.fat| ==> fs.fat[d] == old(fs.fat)[d] || (d >= 2 && fs.fat[d] == 0)
    ensures (|ch| > 0 && ch[0] == first as nat && IsChain(old(fs.fat), ch) && res == FrOk) ==>
      fs.fat == Freed(old(fs.fat), ch)
    ensures (|ch| > 0 && ch[0] == first as nat && IsChain(old(fs.fat), ch)) ==>
      forall d :: 0 <= d < |fs.fat| && d !in ch ==> fs.fat[d] == old(fs.fat)[d]
    ensures res != FrDiskErr && CountKnown(old(fs.fat), old(fs.freeClst)) ==> CountKnown(fs.fat, fs.freeClst)
    ensures old(fs.log) <= fs.log && (res != FrDiskErr && Unbroken(old(fs.log)) ==> Unbroken(fs.log))
    ensures (IsForest(old(fs.fat)) ==> NoPredecessor(old(fs.fat), first)) ==>
      ForestSteps(old(fs.fat), old(fs.log), fs.fat, fs.log, res != FrDiskErr)
    ensures (|ch| > 0 && ch[0] == first as nat && IsChain(old(fs.fat), ch)) ==>
      LogApart(ch, old(fs.fat), old(fs.log), fs.log)
    ensures Onward(old(fs.medium), fs.medium)
  {
    hide Fatfs.Valid, FatOnly, Geometry.WellFormed, IsForest, FreeCount, NoPredecessor, IsChain, Freed, CountKnown,
         UsedCount, ForestSteps, Freeing, Unbroken, Thinned, LogApart;
    ghost var a, before, log0, free0 := fs.St(), fs.fat, fs.log, fs.freeClst;
    ValidBasics(fs);
    MediumBound(fs.g, |fs.disk|);
    FatOnlySelf(fs.g, a);
    ghost var chain := if |ch| > 0 && ch[0] == first as nat && IsChain(before, ch) then ch else [];
    ghost var forest := IsForest(before) ==> NoPredecessor(before, first);
    ThinnedStart(forest, before, log0, free0, first);
    ghost var i := 0;
    var n: u32 := fs.g.nFatent;
    var clst := first;
    FreeingStart(before, chain, clst);
    ApartSelf(chain, before, log0);
    while true
      invariant fs.Valid() && FatOnly(fs.g, a, fs.St()) && |fs.fat| == n as int && Onward(old(fs.medium), fs.medium)
      invariant 2 <= clst < n && Freeing(before, chain, i, fs.fat, clst)
      invariant chain != [] ==> LogApart(chain, before, log0, fs.log)
      invariant clst == first || fs.fat[first] == 0
      invariant Thinned(forest, before, log0, free0, fs.fat, fs.log, fs.freeClst, clst)
      decreases UsedCount(fs.fat)
    {
      ghost var b, f, log1, free1 := fs.St(), fs.fat, fs.log, fs.freeClst;
      var nxt;
      res, nxt := FreeCluster(fs, clst);
      ThinnedStep(forest, before, log0, free0, f, log1, free1, clst, fs.fat, fs.log, fs.freeClst, res, nxt);
      FreeingStep(before, chain, i, f, clst, fs.fat);
      if chain != [] { FreeingApart(before, chain, i, f, clst, log0, log1, fs.log); }
      FatOnlyTrans(fs.g, a, b, fs.St());
      if res != FrOk || nxt == 0 { return; }
      FewerUsed(f, clst);
      clst := nxt;
      if clst >= n { return; }
      i := i + 1;
    }
  }

  /** Where remove_chain stands: some entries turned to zero; of a chain `ch`, the first `i`. */
  ghost predicate Freeing(before: seq<nat>, ch: seq<nat>, i: nat, fat: seq<nat>, clst: nat) {
    && |fat| == |before| && 2 <= clst < |fat|
    && (forall d :: 0 <= d < |fat| ==> fat[d] == before[d] || (d >= 2 && fat[d] == 0))
    && (ch != [] ==> IsChain(before, ch) && i < |ch| && clst == ch[i] && fat == Freed(before, ch[..i]))
  }

  lemma FreeingApart(before: seq<nat>, ch: seq<nat>, i: nat, f: seq<nat>, clst: nat, log0: seq<LogEntry>,
                     log1: seq<LogEntry>, log2: seq<LogEntry>)
    requires Freeing(before, ch, i, f, clst) && ch != []
    requires LogApart(ch, before, log0, log1) && LogApart([clst], f, log1, log2)
    ensures LogApart(ch, before, log0, log2)
  {
    hide IsChain, LogApart;
    assert clst == ch[i];
    forall d | 2 <= d < |before| && before[d] != 0 && d !in ch
      ensures f[d] == before[d] && d !in [clst]
    {
      assert d !in ch[..i] && clst in ch;
    }
    ApartTrans(ch, ch, [clst], before, log0, f, log1, log2);
  }

  lemma FreeingStart(before: seq<nat>, ch: seq<nat>, clst: nat)
    requires 2 <= clst < |before| && (ch != [] ==> IsChain(before, ch) && clst == ch[0])
    ensures Freeing(before, ch, 0, before, clst)
  {
    hide IsChain;
    assert Freed(before, []) == before;
  }

  lemma FreeingStep(before: seq<nat>, ch: seq<nat>, i: nat, f: seq<nat>, clst: nat, f2: seq<nat>)
    requires Freeing(before, ch, i, f, clst)
    requires |f2| == |f| && forall d :: 0 <= d < |f| && d != clst ==> f2[d] == f[d]
    ensures forall d :: 0 <= d < |f| && d != clst ==> f2[d] == before[d] || (d >= 2 && f2[d] == 0)
    ensures ch != [] ==> f[clst] >= 2 && forall d :: 0 <= d < |f| && d !in ch ==> f2[d] == before[d]
    ensures f2 == f ==> forall d :: 0 <= d < |f| ==> f2[d] == before[d] || (d >= 2 && f2[d] == 0)
    ensures f2 == f[clst := 0] && 2 <= f[clst] < |f| ==> Freeing(before, ch, i + 1, f2, f[clst])
    ensures f2 == f[clst := 0] && !(2 <= f[clst] < |f|) && ch != [] ==> f2 == Freed(before, ch)
  {
    hide IsChain;
    if ch != [] {
      FreedNext(before, ch, i);
      assert clst in ch;
      ChainRange(before, ch, i);
    }
  }

  lemma ChainRange(fat: seq<nat>, ch: seq<nat>, i: nat)
    requires IsChain(fat, ch) && i < |ch|
    ensures 2 <= ch[i] < |fat| && (i + 1 < |ch| ==> 2 <= ch[i + 1] < |fat|)
  {
  }

  /** remove_chain on FAT12/16/32: cut behind `pclst` (0: none), then free `clst` and what follows.
      `ch` is the chain starting at `clst`, when there is one. */
  method RemoveChain(fs: Fatfs, clst: u32, pclst: u32, ghost ch: seq<nat>) returns (res: FResult)
    requires fs.Valid() && fs.g.fsType != ExFat
    modifies fs`disk, fs`wflag, fs`medium, fs`winsect, fs.win, fs`fat, fs`log, fs`freeClst, fs`fsiDirty
    ensures fs.Valid() && FatOnly(fs.g, old(fs.St()), fs.St()) && |fs.fat| == old(|fs.fat|)
    ensures res == FrOk || res == FrDiskErr || res == FrIntErr
    ensures res == FrDiskErr ==> Faulted(old(fs.medium), fs.medium)
    ensures !(2 <= clst < |fs.fat|) ==> res == FrIntErr && fs.fat == old(fs.fat) && fs.log == old(fs.log)
    ensures (2 <= clst < |fs.fat| && (pclst == 0 || 2 <= pclst < |fs.fat|) && res == FrIntErr) ==>
      HasReserved(old(fs.fat))
    ensures res == FrOk ==> (HasReserved(fs.fat) ==> HasReserved(old(fs.fat)))
    ensures res == FrOk ==> clst < |fs.fat| && fs.fat[clst] == 0
    // any FAT content: the only effects are the cut and entries turned to zero
    ensures res == FrOk ==> CutOrFreed(fs.g, old(fs.fat), fs.fat, pclst)
    ensures res == FrIntErr ==> fs.fat == old(fs.fat) || CutOrFreed(fs.g, old(fs.fat), fs.fat, pclst)
    // a chain: exactly its clusters are freed
    ensures (|ch| > 0 && ch[0] == clst as nat && IsChain(CutAt(fs.g, old(fs.fat), pclst), ch) && res == FrOk) ==>
      fs.fat == Freed(CutAt(fs.g, old(fs.fat), pclst), ch)
    ensures (|ch| > 0 && ch[0] == clst as nat && IsChain(CutAt(fs.g, old(fs.fat), pclst), ch)
             && clst < |fs.fat| && clst >= 2 && (pclst == 0 || 2 <= pclst < |fs.fat|)) ==> res != FrIntErr
    ensures (|ch| > 0 && ch[0] == clst as nat && IsChain(CutAt(fs.g, old(fs.fat), pclst), ch)) ==>
      forall d :: 0 <= d < |fs.fat| && d !in ch && d != pclst ==> fs.fat[d] == old(fs.fat)[d]
    ensures (res != FrDiskErr && CountKnown(old(fs.fat), old(fs.freeClst))
             && (2 <= pclst < |fs.fat| ==> old(fs.fat)[pclst] != 0)) ==> CountKnown(fs.fat, fs.freeClst)
    // a forest stays one at every single put_fat, also when the call fails half-way
    ensures (IsForest(old(fs.fat)) ==> Detachable(old(fs.fat), clst, pclst)) ==>
      ForestSteps(old(fs.fat), old(fs.log), fs.fat, fs.log, res != FrDiskErr)
      && StaysSafe(old(fs.log), fs.log, res != FrDiskErr)
    ensures (|ch| > 0 && ch[0] == clst as nat && IsChain(CutAt(fs.g, old(fs.fat), pclst), ch)) ==>
      LogApart(ch + [pclst], old(fs.fat), old(fs.log), fs.log)
    ensures Onward(old(fs.medium), fs.medium)
  {
    hide Fatfs.Valid, FatOnly, Geometry.WellFormed, IsForest, FreeCount, NoPredecessor, IsChain, Freed,
         Geometry.MaxEntry, CrashSafe, ForestSteps, StaysSafe, LogApart;
    LogBasics(fs);
    ghost var a := fs.St();
    ghost var before, log0 := fs.fat, fs.log;
    ghost var isForest := IsForest(before) ==> Detachable(before, clst, pclst);
    ValidBasics(fs);
    EndMark(fs.g, |fs.disk|);
    FatOnlySelf(fs.g, a);
    ForestStepsSelf(before, log0, true);
    ForestStepsSafe(before, log0, before, log0, true);
    ApartSelf([pclst], before, log0);
    CutApart(fs.g, before, pclst, ch, log0, log0, log0);
    if clst < 2 || clst >= fs.g.nFatent { return FrIntErr; }
    if pclst != 0 {
      res := CutBehind(fs, clst, pclst);
      if isForest { ForestStepsSafe(before, log0, fs.fat, fs.log, res != FrDiskErr); }
      CutApart(fs.g, before, pclst, ch, log0, fs.log, fs.log);
      if res != FrOk { return; }
    }
    ghost var b, mid, log1 := fs.St(), fs.fat, fs.log;
    CutUnreserved(fs.g, before, pclst);
    assert mid == CutAt(fs.g, before, pclst);
    res := FreeLoop(fs, clst, ch);
    if res != FrDiskErr { FreedUnreserved(mid, fs.fat); }
    CutApart(fs.g, before, pclst, ch, log0, log1, fs.log);
    FatOnlyTrans(fs.g, a, b, fs.St());
    if isForest {
      ForestStepsOn(before, log0, mid, log1, fs.fat, fs.log, res != FrDiskErr);
      ForestStepsSafe(before, log0, fs.fat, fs.log, res != FrDiskErr);
    }
  }

  lemma CutApart(g: Geometry, fat: seq<nat>, p: nat, ch: seq<nat>, log0: seq<LogEntry>, log1: seq<LogEntry>,
                 log2: seq<LogEntry>)
    requires LogApart([p], fat, log0, log1)
    ensures LogApart(ch, CutAt(g, fat, p), log1, log2) || log2 == log1 ==> LogApart(ch + [p], fat, log0, log2)
  {
    hide LogApart;
    ApartSelf(ch, CutAt(g, fat, p), log1);
    if LogApart(ch, CutAt(g, fat, p), log1, log2) || log2 == log1 {
      assert p in [p] && p in ch + [p];
      ApartTrans(ch + [p], [p], ch, fat, log0, CutAt(g, fat, p), log1, log2);
    }
  }

  lemma CutUnreserved(g: Geometry, fat: seq<nat>, p: nat)
    ensures HasReserved(CutAt(g, fat, p)) ==> HasReserved(fat)
  {
    if HasReserved(CutAt(g, fat, p)) {
      var c :| 2 <= c < |fat| && CutAt(g, fat, p)[c] == 1;
      assert fat[c] == 1;
    }
  }

  lemma FreedUnreserved(a: seq<nat>, b: seq<nat>)
    requires |b| == |a| && forall d :: 0 <= d < |a| ==> b[d] == a[d] || (d >= 2 && b[d] == 0)
    ensures HasReserved(b) ==> HasReserved(a)
  {
    if HasReserved(b) {
      var c :| 2 <= c < |b| && b[c] == 1;
      assert a[c] == 1;
    }
  }

  /** The first part of remove_chain: the predecessor becomes the end of its chain. */
  method CutBehind(fs: Fatfs, clst: u32, pclst: u32) returns (res: FResult)
    requires fs.Valid() && fs.g.fsType != ExFat && pclst != 0 && 2 <= clst < fs.g.nFatent
    modifies fs`disk, fs`wflag, fs`medium, fs`winsect, fs.win, fs`fat, fs`log
    ensures fs.Valid() && FatOnly(fs.g, old(fs.St()), fs.St()) && |fs.fat| == old(|fs.fat|)
    ensures res == FrOk || res == FrDiskErr || res == FrIntErr
    ensures res == FrDiskErr ==> Faulted(old(fs.medium), fs.medium)
    ensures res == FrOk ==> 2 <= pclst < |fs.fat| && fs.fat == CutAt(fs.g, old(fs.fat), pclst)
    ensures res == FrIntErr <==> !(2 <= pclst < |fs.fat|)
    ensures res == FrIntErr ==> fs.fat == old(fs.fat) && fs.log == old(fs.log)
    ensures forall d :: 0 <= d < |fs.fat| && d != pclst ==> fs.fat[d] == old(fs.fat)[d]
    ensures old(fs.log) <= fs.log && (res == FrOk ==> Unbroken(fs.log))
    // a count that was right stays right if and only if the predecessor was in use
    ensures res == FrOk ==>
      FreeCount(fs.fat) == FreeCount(old(fs.fat)) - (if old(fs.fat)[pclst] == 0 then 1 else 0)
    ensures (IsForest(old(fs.fat)) ==> Detachable(old(fs.fat), clst, pclst)) ==>
      ForestSteps(old(fs.fat), old(fs.log), fs.fat, fs.log, res != FrDiskErr)
      && (res == FrOk && IsForest(old(fs.fat)) ==> NoPredecessor(fs.fat, clst))
    ensures LogApart([pclst], old(fs.fat), old(fs.log), fs.log)
    ensures Onward(old(fs.medium), fs.medium)
  {
    hide Fatfs.Valid, FatOnly, Geometry.WellFormed, IsForest, FreeCount, NoPredecessor, Geometry.MaxEntry,
         ForestSteps, Half12, Stored, LogApart;
    ghost var before, log0 := fs.fat, fs.log;
    ApartSelf([pclst], before, log0);
    ValidBasics(fs);
    EndMark(fs.g, |fs.disk|);
    ForestStepsSelf(before, log0, true);
    res := PutFat(fs, pclst, END_OF_CHAIN);
    if res != FrIntErr {
      PutApart(fs.g, pclst, END_OF_CHAIN, res == FrOk, before, log0, fs.fat, fs.log);
      if Detachable(before, clst, pclst) {
        CutStep(before, pclst, fs.g.MaxEntry());
      }
      if IsForest(before) ==> Detachable(before, clst, pclst) {
        PutForest(fs.g, pclst, END_OF_CHAIN, res == FrOk, before, log0, fs.fat, fs.log);
      }
      SameFree(before, pclst, fs.g.MaxEntry());
    }
  }

  lemma SameFree(fat: seq<nat>, c: nat, v: nat)
    requires 2 <= c < |fat| && v != 0
    ensures FreeCount(fat[c := v]) == FreeCount(fat) - (if fat[c] == 0 then 1 else 0)
  {
    FreeFromUpdate(fat, 2, c, v);
  }
}
