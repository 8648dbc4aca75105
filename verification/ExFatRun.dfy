/** Whole runs on an exFAT volume: an object grown cluster by cluster with flushes in between. */
module ExFatRun {
  import opened Bytes
  import opened Arith
  import opened Volume
  import opened Forest
  import opened Chains
  import opened FileBytes
  import opened Bitmap
  import opened ExFatChain
  import opened ExFat

  /** `n` different cluster numbers below `hi` need `n + 2 <= hi`. */
  lemma {:induction false} DistinctCount(ch: seq<nat>, hi: nat)
    requires forall i :: 0 <= i < |ch| ==> 2 <= ch[i] < hi
    requires forall i, j :: 0 <= i < j < |ch| ==> ch[i] != ch[j]
    ensures |ch| > 0 ==> |ch| + 2 <= hi
    decreases hi
  {
    assert |ch| > 1 ==> ch[0] != ch[1];
    if |ch| > 0 && hi > 3 {
      if (hi - 1) in ch {
        var k :| 0 <= k < |ch| && ch[k] == hi - 1;
        DistinctCount(ch[..k] + ch[k + 1..], hi - 1);
      } else {
        DistinctCount(ch, hi - 1);
      }
    }
  }

  /** A size of exactly `n` clusters is recognised as such by get_fat, the volume being smaller than 2^32 sectors. */
  lemma SizeIs(g: Geometry, n: nat)
    requires g.csize > 0 && n > 0 && g.csize * n <= 0x1_0000_0000
    ensures g.csize * n > 0 && SizeClusters(g, 512 * (g.csize * n)) == n - 1
  {
    MulMono(g.csize, 1, n);
    var m := g.csize * n;
    DivModIs(512 * m - 1, 512, m - 1, 511);
    DivModIs(m - 1, g.csize, n - 1, g.csize - 1) by { assert g.csize * (n - 1) == g.csize * n - g.csize; }
    assert (m - 1) % 0x1_0000_0000 == m - 1;
  }

  lemma ChainFits(g: Geometry, nsect: nat, ch: seq<nat>)
    requires g.WellFormed(nsect) && Layout(g) && |ch| + 2 <= g.nFatent
    ensures g.csize > 0 && g.csize * |ch| < 0x1_0000_0000
  {
    MulMono(g.csize, |ch|, g.nFatent - 2);
  }

  lemma LazyDistinct(fat: seq<nat>, o: Frag, ch: seq<nat>)
    requires Lazy(fat, o, ch)
    ensures |ch| > 0 && (forall i :: 0 <= i < |ch| ==> 2 <= ch[i] < |fat|)
    ensures forall i, j :: 0 <= i < j < |ch| ==> ch[i] != ch[j]
  {
  }

  /** What f_write and f_lseek do after create_chain stretched a file of now `n` clusters: record the new size. */
  method RecordSize(fs: Fatfs, obj: ExObj, n: nat)
    requires Sound(fs, obj) && Layout(fs.g) && n == |obj.ch|
    modifies obj`objsize
    ensures Sound(fs, obj) && fs.g.csize > 0 && SizeKnown(fs.g, obj) && obj.objsize == 512 * (fs.g.csize * n)
  {
    hide Fatfs.Valid, BitmapPlace, Lazy, InUse, Layout, Geometry.WellFormed, SizeClusters, WinState.Logical, Bits;
    ValidBasics(fs);
    FirstBounds(fs, obj);
    LazyDistinct(fs.fat, obj.Fields(), obj.ch);
    DistinctCount(obj.ch, |fs.fat|);
    ChainFits(fs.g, |fs.disk|, obj.ch);
    SizeIs(fs.g, n);
    obj.objsize := 512 * (fs.g.csize * n);
  }

  /** One append of a run: a first cluster, or one more behind `lcl`. */
  method Grow(fs: Fatfs, obj: ExObj, lcl: u32, n: nat) returns (ncl: u32)
    requires fs.Valid() && BitmapPlace(fs.g) && Layout(fs.g) && fs.g.csize > 0
    requires lcl == 0 ==> n == 0 && obj.ch == [] && obj.nFrag == 0
    requires lcl != 0 ==> Sound(fs, obj) && SizeKnown(fs.g, obj) && n == |obj.ch| > 0 && lcl as int == obj.ch[n - 1]
    modifies fs`disk, fs`wflag, fs`medium, fs`winsect, fs.win, fs`fat, fs`log, fs`lastClst, fs`freeClst, fs`fsiDirty,
             obj
    ensures fs.Valid() && (ncl == 0 || ncl == DISK_ERROR || 2 <= ncl < |fs.fat|)
    ensures 2 <= ncl < |fs.fat| ==> Sound(fs, obj) && SizeKnown(fs.g, obj) && obj.ch == old(obj.ch) + [ncl as int]
    ensures 2 <= ncl < |fs.fat| ==> var was := old(BitsOf(fs)); !was[ncl - 2] && BitsOf(fs) == was[ncl - 2 := true]
    ensures ncl == 0 ==> fs.g.nFatent >= 2 && BitsOf(fs) == old(BitsOf(fs))
    ensures ncl == 0 ==> (BitsKnown(BitsOf(fs), fs.freeClst) ==> NoFreeBit(BitsOf(fs)))
    ensures ncl == 0 || ncl == DISK_ERROR ==>
      obj.ch == old(obj.ch) && (lcl == 0 ==> obj.nFrag == 0) && (lcl != 0 ==> Sound(fs, obj) && SizeKnown(fs.g, obj))
    ensures BitmapPlace(fs.g) && fs.g.nFatent >= 2 && MoreUsed(old(BitsOf(fs)), BitsOf(fs))
    ensures ncl != DISK_ERROR && BitsKnown(old(BitsOf(fs)), old(fs.freeClst)) ==> BitsKnown(BitsOf(fs), fs.freeClst)
    ensures ncl == DISK_ERROR ==> Faulted(old(fs.medium), fs.medium)
    ensures Onward(old(fs.medium), fs.medium)
  {
    hide Fatfs.Valid, BitmapPlace, Lazy, InUse, Layout, Geometry.WellFormed, SizeClusters, WinState.Logical, Bits,
         FreeBits, NoFreeBit;
    ValidBasics(fs);
    HeapBound(fs.g, |fs.disk|);
    ncl := CreateChainX(fs, obj, lcl, if n > 0 then n - 1 else 0);
    if ncl != 0 && ncl != DISK_ERROR {
      if lcl == 0 { obj.sclust := ncl; }
      RecordSize(fs, obj, n + 1);
    }
  }

  /** The clusters behind `base` were all free in `was`. */
  ghost predicate TakenFree(was: seq<bool>, base: seq<nat>, ch: seq<nat>) {
    base <= ch && forall i :: |base| <= i < |ch| ==> 2 <= ch[i] < |was| + 2 && !was[ch[i] - 2]
  }

  lemma TakenNext(was: seq<bool>, now: seq<bool>, base: seq<nat>, ch: seq<nat>, c: nat)
    requires TakenFree(was, base, ch) && MoreUsed(was, now) && 2 <= c < |now| + 2 && !now[c - 2]
    ensures TakenFree(was, base, ch + [c]) && MoreUsed(was, now[c - 2 := true])
  {
  }

  /** An object between two operations of a run: `n` clusters, the last one `lcl`; those behind `base`, with which the
      run began, were all free in `was`. */
  ghost predicate Growing(fs: Fatfs, obj: ExObj, lcl: u32, n: nat, base: seq<nat>, was: seq<bool>)
    reads fs, fs.win, obj
  {
    && fs.Valid() && BitmapPlace(fs.g) && fs.g.csize > 0 && fs.g.nFatent >= 2 && n == |obj.ch|
    && (lcl == 0 <==> n == 0)
    && (n == 0 ==> obj.nFrag == 0)
    && (n > 0 ==> Sound(fs, obj) && SizeKnown(fs.g, obj) && lcl as int == obj.ch[n - 1])
    && MoreUsed(was, BitsOf(fs)) && TakenFree(was, base, obj.ch)
  }

  /** What a run is made of: f_write, f_lseek or dir_next appends a cluster, f_lseek flushes the last fragment, f_sync
      and dir_register flush both. */
  datatype Step = Append | FlushFirst | FlushLast | FlushBoth

  /** A flush within a run. */
  method FlushStep(fs: Fatfs, obj: ExObj, step: Step, lcl: u32, n: nat, ghost base: seq<nat>, ghost was: seq<bool>)
    returns (res: FResult)
    requires Growing(fs, obj, lcl, n, base, was)
    modifies fs`disk, fs`wflag, fs`medium, fs`winsect, fs.win, fs`fat, fs`log, obj`stat, obj`nFrag
    ensures Growing(fs, obj, lcl, n, base, was) && (res == FrOk || res == FrDiskErr)
    ensures BitsOf(fs) == old(BitsOf(fs))
    ensures res == FrOk && n > 0 && step != FlushFirst ==> obj.nFrag == 0
    ensures res == FrOk && n > 0 && step != FlushLast ==> obj.stat != 3
    ensures res == FrOk && n > 0 && step == FlushBoth ==>
      if obj.stat == 2 then Contiguous(obj.ch, 0, n) else IsChain(fs.fat, obj.ch)
    ensures res == FrDiskErr ==> Faulted(old(fs.medium), fs.medium)
    ensures Onward(old(fs.medium), fs.medium)
  {
    hide Fatfs.Valid, BitmapPlace, Lazy, InUse, Geometry.WellFormed, SizeClusters, WinState.Logical, Bits, MoreUsed,
         TakenFree, IsChain, Contiguous;
    res := FrOk;
    if n > 0 {
      LazyBasics(fs.fat, obj.Fields(), obj.ch);
      match step {
        case FlushFirst => res := FillFirstFrag(fs, obj);
        case FlushLast => res := ExFat.FlushLast(fs, obj, lcl);
        case _ => res := FlushFragments(fs, obj, lcl);
      }
    }
  }

  /** An append within a run. */
  method AppendStep(fs: Fatfs, obj: ExObj, lcl0: u32, n0: nat, ghost base: seq<nat>, ghost was: seq<bool>)
    returns (res: FResult, lcl: u32, n: nat)
    requires Growing(fs, obj, lcl0, n0, base, was) && Layout(fs.g)
    modifies fs`disk, fs`wflag, fs`medium, fs`winsect, fs.win, fs`fat, fs`log, fs`lastClst, fs`freeClst, fs`fsiDirty,
             obj
    ensures Growing(fs, obj, lcl, n, base, was) && (res == FrOk || res == FrDenied || res == FrDiskErr)
    ensures n == if res == FrOk then n0 + 1 else n0
    ensures res == FrDenied && BitsKnown(BitsOf(fs), fs.freeClst) ==> NoFreeBit(BitsOf(fs))
    ensures res != FrDiskErr && BitsKnown(old(BitsOf(fs)), old(fs.freeClst)) ==> BitsKnown(BitsOf(fs), fs.freeClst)
    ensures res == FrDiskErr ==> Faulted(old(fs.medium), fs.medium)
    ensures Onward(old(fs.medium), fs.medium)
  {
    hide Fatfs.Valid, BitmapPlace, Lazy, InUse, Layout, Geometry.WellFormed, SizeClusters, WinState.Logical, Bits,
         BitsKnown, NoFreeBit, Sound, SizeKnown, MoreUsed, TakenFree;
    ValidBasics(fs);
    res, lcl, n := FrOk, lcl0, n0;
    ghost var now, ch := BitsOf(fs), obj.ch;
    var ncl := Grow(fs, obj, lcl0, n0);
    MoreUsedTrans(was, now, BitsOf(fs));
    if ncl == DISK_ERROR { return FrDiskErr, lcl, n; }
    if ncl == 0 { return FrDenied, lcl, n; }
    ValidBasics(fs);
    HeapBound(fs.g, |fs.disk|);
    TakenNext(was, now, base, ch, ncl);
    lcl, n := ncl, n + 1;
  }

  lemma MoreUsedTrans(a: seq<bool>, b: seq<bool>, c: seq<bool>)
    requires MoreUsed(a, b) && MoreUsed(b, c)
    ensures MoreUsed(a, c)
  {
  }

  lemma NothingGrown(fs: Fatfs, obj: ExObj, lcl: u32)
    requires Startable(fs, obj, lcl) && fs.g.nFatent >= 2
    ensures Growing(fs, obj, lcl, |obj.ch|, obj.ch, BitsOf(fs))
  {
    hide Fatfs.Valid, BitmapPlace, Lazy, InUse, Bits, WinState.Logical, SizeClusters;
    if lcl != 0 { FirstBounds(fs, obj); }
  }

  lemma GrownFromFree(fs: Fatfs, obj: ExObj, lcl: u32, n: nat, base: seq<nat>, was: seq<bool>)
    requires Growing(fs, obj, lcl, n, base, was)
    ensures fs.Valid() && n == |obj.ch| && base <= obj.ch
    ensures n > 0 ==> Sound(fs, obj) && obj.ch[0] == obj.sclust as nat
    ensures forall i :: |base| <= i < n ==> 2 <= obj.ch[i] < |was| + 2 && !was[obj.ch[i] - 2]
  {
    hide Fatfs.Valid, Sound, SizeKnown, BitmapPlace, MoreUsed, Bits;
    if n > 0 { FirstBounds(fs, obj); }
  }

  /** Number of appends in a plan. */
  ghost function Appends(plan: seq<Step>): nat {
    if plan == [] then 0 else Appends(plan[..|plan| - 1]) + if plan[|plan| - 1] == Append then 1 else 0
  }

  lemma AppendsNext(plan: seq<Step>, k: nat)
    requires k < |plan|
    ensures Appends(plan[..k + 1]) == Appends(plan[..k]) + if plan[k] == Append then 1 else 0
  {
    assert plan[..k + 1][..k] == plan[..k];
  }

  /** A new object, or any object of the volume whose last cluster is `lcl`. */
  ghost predicate Startable(fs: Fatfs, obj: ExObj, lcl: u32)
    reads fs, fs.win, obj
  {
    && fs.Valid() && BitmapPlace(fs.g) && fs.g.csize > 0
    && if lcl == 0 then obj.ch == [] && obj.nFrag == 0
       else Sound(fs, obj) && SizeKnown(fs.g, obj) && lcl as int == obj.ch[|obj.ch| - 1]
  }

  /** Any sequence of appends and flushes on a new or an existing object of `n0` clusters, the way an application
      writes, seeks and syncs. `done` steps succeed; the run ends early by a disk error, or by an append on a full
      volume. In every case the object then has one cluster more per successful append, each free before. After a
      last flush of both fragments its clusters are consecutive if no FAT chain was needed, else the FAT holds exactly
      that chain. */
  method AppendRun(fs: Fatfs, obj: ExObj, lcl0: u32, n0: nat, plan: seq<Step>)
    returns (res: FResult, done: nat, n: nat)
    requires Startable(fs, obj, lcl0) && Layout(fs.g) && n0 == |obj.ch|
    modifies fs`disk, fs`wflag, fs`medium, fs`winsect, fs.win, fs`fat, fs`log, fs`lastClst, fs`freeClst, fs`fsiDirty,
             obj
    ensures (res == FrOk && done == |plan|) || (done < |plan| && (res == FrDenied || res == FrDiskErr))
    ensures n == |obj.ch| == n0 + Appends(plan[..done])
    ensures fs.Valid() && old(obj.ch) <= obj.ch && (n > 0 ==> Sound(fs, obj) && obj.ch[0] == obj.sclust as nat)
    ensures fs.g.nFatent >= 2
    ensures var was := old(BitsOf(fs)); forall i :: n0 <= i < n ==> 2 <= obj.ch[i] < |was| + 2 && !was[obj.ch[i] - 2]
    ensures res == FrOk && n > 0 && plan != [] && plan[|plan| - 1] == FlushBoth ==>
      if obj.stat == 2 then Contiguous(obj.ch, 0, n) else IsChain(fs.fat, obj.ch)
    ensures res == FrDenied ==> plan[done] == Append
    ensures res == FrDenied && BitsKnown(old(BitsOf(fs)), old(fs.freeClst)) ==> NoFreeBit(BitsOf(fs))
    ensures res == FrDiskErr ==> Faulted(old(fs.medium), fs.medium)
    ensures Onward(old(fs.medium), fs.medium)
  {
    hide Fatfs.Valid, BitmapPlace, Layout, Geometry.WellFormed, Growing, Sound, Bits, IsChain, Contiguous,
         BitsKnown, NoFreeBit;
    ValidBasics(fs);
    HeapBound(fs.g, |fs.disk|);
    res, done, n := FrOk, 0, n0;
    ghost var was, base := BitsOf(fs), obj.ch;
    var lcl := lcl0;
    NothingGrown(fs, obj, lcl);
    while done < |plan| && res == FrOk
      invariant done <= |plan| && Growing(fs, obj, lcl, n, base, was) && n == n0 + Appends(plan[..done])
      invariant Onward(old(fs.medium), fs.medium) && (res == FrDiskErr ==> Faulted(old(fs.medium), fs.medium))
      invariant res == FrOk || (done < |plan| && (res == FrDenied || res == FrDiskErr))
      invariant res != FrDiskErr && BitsKnown(was, old(fs.freeClst)) ==> BitsKnown(BitsOf(fs), fs.freeClst)
      invariant res == FrOk && n > 0 && done > 0 && plan[done - 1] == FlushBoth ==>
        if obj.stat == 2 then Contiguous(obj.ch, 0, n) else IsChain(fs.fat, obj.ch)
      invariant res == FrDenied ==> plan[done] == Append
      invariant res == FrDenied && BitsKnown(was, old(fs.freeClst)) ==> NoFreeBit(BitsOf(fs))
      decreases |plan| - done, if res == FrOk then 1 else 0
    {
      AppendsNext(plan, done);
      if plan[done] == Append {
        res, lcl, n := AppendStep(fs, obj, lcl, n, base, was);
      } else {
        res := FlushStep(fs, obj, plan[done], lcl, n, base, was);
      }
      if res == FrOk { done := done + 1; }
    }
    GrownFromFree(fs, obj, lcl, n, base, was);
  }
}
