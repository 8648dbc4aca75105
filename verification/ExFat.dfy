/** get_fat, create_chain and the fragment flushes on an exFAT volume. */
module ExFat {
  import opened Bytes
  import opened Volume
  import opened FatAccess
  import opened Forest
  import opened Chains
  import opened Bitmap
  import opened ExFatChain

  /** What create_chain returns for an internal error. */
  const INSANE: u32 := 1

  /** FFOBJID on an exFAT volume. */
  class ExObj {
    var sclust: u32
    var objsize: nat
    var stat: nat
    var nCont: u32
    var nFrag: u32

    /** The clusters of the object, in order. */
    ghost var ch: seq<nat>

    ghost function Fields(): Frag
      reads this
    {
      Frag(sclust, stat, nCont, nFrag)
    }
  }

  /** The allocation bitmap as the file system sees it. */
  ghost function BitsOf(fs: Fatfs): seq<bool>
    requires fs.g.nFatent >= 2
    reads fs, fs.win
  {
    Bits(fs.g, fs.St().Logical())
  }

  /** The object's fields, the FAT and the bitmap agree on the object's clusters. */
  ghost predicate Sound(fs: Fatfs, obj: ExObj)
    reads fs, fs.win, obj
  {
    && fs.Valid() && BitmapPlace(fs.g)
    && Lazy(fs.fat, obj.Fields(), obj.ch)
    && InUse(BitsOf(fs), obj.ch)
  }

  /** The size of the object, in clusters minus one, as get_fat computes it (the size has 64 bits, LBA_t has 32). */
  function SizeClusters(g: Geometry, objsize: nat): nat
    requires g.csize > 0
  {
    (if objsize == 0 then 0xFFFF_FFFF else (objsize - 1) / 512 % 0x1_0000_0000) / g.csize
  }

  /** Cluster `c` lies before the object, but its offset as a DWORD lies inside. */
  predicate WrapsInto(o: Frag, c: nat, clen: nat) {
    c < o.sclust && ((o.stat == 2 && 0x1_0000_0000 + c - o.sclust <= clen)
                     || (o.stat == 3 && 0x1_0000_0000 + c - o.sclust < o.nCont))
  }

  /** get_fat, case FS_EXFAT. */
  method GetFatX(fs: Fatfs, obj: ExObj, clst: u32) returns (val: u32)
    requires fs.Valid() && fs.g.fsType == ExFat && fs.g.csize > 0
    modifies fs`disk, fs`wflag, fs`medium, fs`winsect, fs.win
    ensures fs.Valid() && FatOnly(fs.g, old(fs.St()), fs.St())
    ensures !(2 <= clst < fs.g.nFatent) ==> val == 1
    // an object without clusters has no answer, the root directory excepted
    ensures 2 <= clst < fs.g.nFatent && (obj.objsize == 0 || obj.sclust == 0) && obj.stat != 0 ==> val == 1
    // the answer is the one the status fields imply, or what the FAT holds
    ensures (2 <= clst < fs.g.nFatent && ((obj.objsize != 0 && obj.sclust != 0) || obj.stat == 0)
             && !WrapsInto(obj.Fields(), clst, SizeClusters(fs.g, obj.objsize))) ==>
      val as nat == Answer(obj.Fields(), clst, SizeClusters(fs.g, obj.objsize), fs.fat[clst]) || val == DISK_ERROR
    // unless the object reaches over the end of the DWORD range: a cluster before it is then taken for one of it
    ensures (2 <= clst < fs.g.nFatent && obj.objsize != 0 && obj.sclust != 0
             && WrapsInto(obj.Fields(), clst, SizeClusters(fs.g, obj.objsize))) ==>
      val as nat == clst + 1 || (obj.stat == 2 && val == 0x7FFF_FFFF)
    ensures Onward(old(fs.medium), fs.medium)
    ensures val == DISK_ERROR ==> Faulted(old(fs.medium), fs.medium)
  {
    hide Fatfs.Valid, FatOnly;
    FatOnlySelf(fs.g, fs.St());
    if clst < 2 || clst >= fs.g.nFatent { return 1; }
    ValidBasics(fs);
    HeapBound(fs.g, |fs.disk|);
    val := 1;
    if (obj.objsize != 0 && obj.sclust != 0) || obj.stat == 0 {
      var cofs := Sub32(clst, obj.sclust);
      var clen := SizeClusters(fs.g, obj.objsize);
      Offsets(clst, obj.sclust);
      if obj.stat == 2 && cofs <= clen {
        val := if cofs == clen then 0x7FFF_FFFF else clst + 1;
      } else if obj.stat == 3 && cofs < obj.nCont {
        val := clst + 1;
      } else if obj.stat != 2 {
        if obj.nFrag != 0 {
          val := 0x7FFF_FFFF;
        } else {
          val := GetFat(fs, clst);
        }
      }
    }
  }

  /** The DWORD offset from the start cluster. */
  lemma Offsets(c: u32, s: u32)
    requires c <= 0x7FFF_FFFF
    ensures c >= s ==> Sub32(c, s) == c - s
    ensures c < s ==> Sub32(c, s) == c - s + 0x1_0000_0000
  {
    if c < s {
      assert Sub32(c, s) == c - s + 0x1_0000_0000;
    }
  }

  // ---------- the two flushes ----------

  /** What a put_fat on the first fragment or the last leaves of the bitmap: everything. */
  lemma BitsKept(g: Geometry, a: WinState, b: WinState)
    requires g.WellFormed(|a.disk|) && BitmapPlace(g) && FatOnly(g, a, b)
    ensures Bits(g, a.Logical()) == Bits(g, b.Logical()) && |b.disk| == |a.disk|
  {
    hide WinState.Logical, Bits, BitAt;
    BitsFrame(g, a.Logical(), b.Logical());
  }

  lemma SmallStored(g: Geometry, nsect: nat, v: u32)
    requires g.WellFormed(nsect) && g.fsType == ExFat
    ensures g.nFatent <= 0x7FFF_FFFF
    ensures v < 0x7FFF_FFFF ==> Stored(g, v) == v
    ensures Stored(g, 0xFFFF_FFFF) == 0x7FFF_FFFF
  {
  }

  /** put_fat as the flushes use it. */
  method PutLink(fs: Fatfs, c: u32, v: u32) returns (res: FResult)
    requires fs.Valid() && BitmapPlace(fs.g) && 2 <= c < |fs.fat| && fs.g.nFatent >= 2
    modifies fs`disk, fs`wflag, fs`medium, fs`winsect, fs.win, fs`fat, fs`log
    ensures fs.Valid() && |fs.fat| == old(|fs.fat|) && |fs.disk| == old(|fs.disk|)
    ensures BitsOf(fs) == old(BitsOf(fs))
    ensures fs.fat == if res == FrOk then old(fs.fat)[c := Stored(fs.g, v)] else old(fs.fat)
    ensures res == FrOk || res == FrDiskErr
    ensures Onward(old(fs.medium), fs.medium)
    ensures res == FrDiskErr ==> Faulted(old(fs.medium), fs.medium)
  {
    hide Fatfs.Valid, FatOnly, WinState.Logical, Bits, BitAt;
    ghost var a := fs.St();
    ValidBasics(fs);
    res := PutFat(fs, c, v);
    BitsKept(fs.g, a, fs.St());
  }

  /** fill_first_frag: writes the links of the first fragment. The object stands for the same clusters throughout,
      also when a write fails. */
  method FillFirstFrag(fs: Fatfs, obj: ExObj) returns (res: FResult)
    requires Sound(fs, obj)
    modifies fs`disk, fs`wflag, fs`medium, fs`winsect, fs.win, fs`fat, fs`log, obj`stat
    ensures Sound(fs, obj) && (res == FrOk || res == FrDiskErr)
    ensures BitsOf(fs) == old(BitsOf(fs)) && OutsideKept(old(fs.fat), fs.fat, obj.ch)
    ensures res == FrOk ==> obj.stat == if old(obj.stat) == 3 then 0 else old(obj.stat)
    ensures res != FrOk ==> obj.stat == old(obj.stat) == 3
    ensures Onward(old(fs.medium), fs.medium)
    ensures res == FrDiskErr ==> Faulted(old(fs.medium), fs.medium)
  {
    hide Fatfs.Valid, BitmapPlace, Lazy, WinState.Logical, Bits, BitAt, Stored, InUse, LinkAt;
    if obj.stat == 3 {
      ghost var o := obj.Fields();
      FirstBounds(fs, obj);
      var cl: u32, n: u32 := obj.sclust, obj.nCont;
      ghost var i := 0;
      while n != 0
        invariant Sound(fs, obj) && obj.Fields() == o && n <= obj.nCont && i == obj.nCont - n && cl == obj.sclust + i
        invariant o.stat == 3 && o.nCont == obj.nCont as nat && o.sclust == obj.sclust as nat
        invariant |fs.fat| == fs.g.nFatent && obj.sclust + obj.nCont < 0x7FFF_FFFF && Onward(old(fs.medium), fs.medium)
        invariant BitsOf(fs) == old(BitsOf(fs)) && OutsideKept(old(fs.fat), fs.fat, obj.ch)
        invariant forall j :: 0 <= j < i ==> LinkAt(fs.fat, obj.ch, j)
        decreases n
      {
        FirstFragStep(fs.fat, o, obj.ch, i);
        ValidBasics(fs);
        SmallStored(fs.g, |fs.disk|, cl + 1) by { PlaceIsExFat(fs.g); }
        LinksWritten(fs.fat, o, obj.ch, i);
        res := PutLink(fs, cl, cl + 1);
        if res != FrOk { return; }
        cl, n, i := cl + 1, n - 1, i + 1;
      }
      FirstFragDone(fs.fat, o, obj.ch);
      obj.stat := 0;
    }
    res := FrOk;
  }

  lemma PlaceIsExFat(g: Geometry)
    requires BitmapPlace(g)
    ensures g.fsType == ExFat
  {
  }

  lemma FirstBounds(fs: Fatfs, obj: ExObj)
    requires Sound(fs, obj)
    ensures |fs.fat| == fs.g.nFatent <= 0x7FFF_FFFF && |obj.ch| > 0 && 2 <= obj.sclust < fs.g.nFatent
    ensures obj.stat == 3 ==> obj.sclust + obj.nCont < 0x7FFF_FFFF && obj.nCont + 1 <= |obj.ch|
    ensures obj.ch[0] == obj.sclust as nat
  {
    ValidBasics(fs);
    HeapBound(fs.g, |fs.disk|);
    if obj.stat == 3 {
      assert obj.ch[obj.nCont] == obj.ch[0] + (obj.nCont - 0);
    }
  }

  /** The object between the moment a fragment is declared pending and the moment it is written. */
  ghost predicate Pending(fs: Fatfs, obj: ExObj)
    reads fs, fs.win, obj
  {
    && fs.Valid() && BitmapPlace(fs.g) && Links(fs.fat, obj.Fields(), obj.ch)
    && InUse(BitsOf(fs), obj.ch)
  }

  /** fill_last_frag: writes the links of the last fragment and `term` behind it. */
  method FillLastFrag(fs: Fatfs, obj: ExObj, lcl: u32, term: u32) returns (res: FResult)
    requires Pending(fs, obj) && (obj.nFrag > 0 ==> lcl as int == obj.ch[|obj.ch| - 1])
    modifies fs`disk, fs`wflag, fs`medium, fs`winsect, fs.win, fs`fat, fs`log, obj`nFrag
    ensures Pending(fs, obj) && (res == FrOk || res == FrDiskErr)
    ensures BitsOf(fs) == old(BitsOf(fs)) && OutsideKept(old(fs.fat), fs.fat, obj.ch)
    ensures res == FrOk ==> obj.nFrag == 0
    ensures res == FrOk && old(obj.nFrag) > 0 ==> lcl < |fs.fat| && fs.fat[lcl] == Stored(fs.g, term)
    ensures old(obj.nFrag) == 0 ==> res == FrOk && fs.fat == old(fs.fat)
    ensures res != FrOk ==> obj.nFrag > 0
    ensures Onward(old(fs.medium), fs.medium)
    ensures res == FrDiskErr ==> Faulted(old(fs.medium), fs.medium)
  {
    hide Fatfs.Valid, BitmapPlace, Links, WinState.Logical, Bits, BitAt, Stored, InUse;
    while obj.nFrag > 0
      invariant Pending(fs, obj) && obj.nFrag <= old(obj.nFrag) && Onward(old(fs.medium), fs.medium)
      invariant BitsOf(fs) == old(BitsOf(fs)) && OutsideKept(old(fs.fat), fs.fat, obj.ch)
      invariant obj.nFrag == 0 && old(obj.nFrag) > 0 ==> lcl < |fs.fat| && fs.fat[lcl] == Stored(fs.g, term)
      invariant old(obj.nFrag) == 0 ==> fs.fat == old(fs.fat)
      decreases obj.nFrag
    {
      var value := LastValue(fs, obj, lcl, term);
      res := PutLink(fs, lcl - obj.nFrag + 1, value);
      if res != FrOk { return; }
      obj.nFrag := obj.nFrag - 1;
    }
    res := FrOk;
  }

  /** The value fill_last_frag writes next, and why it is right. */
  method LastValue(fs: Fatfs, obj: ExObj, lcl: u32, term: u32) returns (v: u32)
    requires Pending(fs, obj) && obj.nFrag > 0 && lcl as int == obj.ch[|obj.ch| - 1]
    ensures v as int == if obj.nFrag > 1 then lcl - obj.nFrag + 2 else term as int
    ensures 2 <= lcl - obj.nFrag + 1 <= lcl < |fs.fat| == fs.g.nFatent
    ensures lcl - obj.nFrag + 1 in obj.ch
    ensures var f, o := fs.fat[lcl - obj.nFrag + 1 := Stored(fs.g, v)], obj.Fields();
      Links(f, o.(nFrag := o.nFrag - 1), obj.ch) && (o.nFrag == 1 ==> f[lcl] == Stored(fs.g, term))
  {
    hide Fatfs.Valid, BitmapPlace, Links, WinState.Logical, Bits, BitAt, Stored, InUse, Geometry.WellFormed;
    ghost var o := obj.Fields();
    LastFragStep(fs.fat, o, obj.ch, Stored(fs.g, term));
    LinksBasics(fs.fat, o, obj.ch);
    PendingBounds(fs, obj);
    v := if obj.nFrag > 1 then lcl - obj.nFrag + 2 else term;
    SmallStored(fs.g, |fs.disk|, v);
  }

  lemma PendingBounds(fs: Fatfs, obj: ExObj)
    requires Pending(fs, obj)
    ensures fs.g.WellFormed(|fs.disk|) && fs.g.fsType == ExFat && |fs.fat| == fs.g.nFatent <= 0x7FFF_FFFF
    ensures |obj.ch| > 0
    ensures forall i :: 0 <= i < |obj.ch| ==> 2 <= obj.ch[i] < |fs.fat|
  {
    ValidBasics(fs);
    HeapBound(fs.g, |fs.disk|);
  }

  lemma LinksBasics(fat: seq<nat>, o: Frag, ch: seq<nat>)
    requires Links(fat, o, ch)
    ensures |ch| > 0 && o.nFrag <= |ch| && (o.nFrag > 0 ==> ch[|ch| - 1] == ch[|ch| - o.nFrag] + o.nFrag - 1)
    ensures o.stat == 0 || o.stat == 2 || o.stat == 3
    ensures o.stat == 2 ==> o.nFrag == 0 && Contiguous(ch, 0, |ch|)
  {
  }

  lemma LinksToLazy(fat: seq<nat>, o: Frag, ch: seq<nat>)
    requires Links(fat, o, ch) && (o.stat == 2 || o.nFrag > 0 || fat[ch[|ch| - 1]] >= |fat|)
    ensures Lazy(fat, o, ch)
  {
  }

  /** fill_last_frag with the end mark, as f_lseek calls it: the last fragment goes to the FAT. With nothing pending
      `lcl` may be any cluster. */
  method FlushLast(fs: Fatfs, obj: ExObj, lcl: u32) returns (res: FResult)
    requires Sound(fs, obj) && (obj.nFrag > 0 ==> lcl as int == obj.ch[|obj.ch| - 1])
    modifies fs`disk, fs`wflag, fs`medium, fs`winsect, fs.win, fs`fat, fs`log, obj`nFrag
    ensures Sound(fs, obj) && (res == FrOk || res == FrDiskErr)
    ensures BitsOf(fs) == old(BitsOf(fs)) && OutsideKept(old(fs.fat), fs.fat, obj.ch)
    ensures (res == FrOk ==> obj.nFrag == 0) && (old(obj.nFrag) == 0 ==> res == FrOk && fs.fat == old(fs.fat))
    ensures Onward(old(fs.medium), fs.medium)
    ensures res == FrDiskErr ==> Faulted(old(fs.medium), fs.medium)
  {
    hide Fatfs.Valid, BitmapPlace, Links, WinState.Logical, Bits, BitAt, Stored, InUse, Geometry.WellFormed;
    PendingBounds(fs, obj);
    res := FillLastFrag(fs, obj, lcl, END_OF_CHAIN);
    PendingBounds(fs, obj);
    SmallStored(fs.g, |fs.disk|, END_OF_CHAIN);
    LinksToLazy(fs.fat, obj.Fields(), obj.ch);
  }

  /** What f_sync does with a fragmented object: afterwards the FAT alone holds its chain. */
  method FlushFragments(fs: Fatfs, obj: ExObj, lcl: u32) returns (res: FResult)
    requires Sound(fs, obj) && (obj.nFrag > 0 ==> lcl as int == obj.ch[|obj.ch| - 1])
    modifies fs`disk, fs`wflag, fs`medium, fs`winsect, fs.win, fs`fat, fs`log, obj`stat, obj`nFrag
    ensures Sound(fs, obj) && (res == FrOk || res == FrDiskErr)
    ensures BitsOf(fs) == old(BitsOf(fs)) && OutsideKept(old(fs.fat), fs.fat, obj.ch)
    ensures res == FrOk ==> obj.nFrag == 0
    ensures res == FrOk && old(obj.stat) != 2 ==> IsChain(fs.fat, obj.ch) && obj.stat == 0
    ensures old(obj.stat) == 2 ==> res == FrOk && obj.stat == 2 && Contiguous(obj.ch, 0, |obj.ch|)
    ensures res != FrOk ==> obj.stat == old(obj.stat) || (obj.stat == 0 && old(obj.stat) == 3)
    ensures Onward(old(fs.medium), fs.medium)
    ensures res == FrDiskErr ==> Faulted(old(fs.medium), fs.medium)
  {
    hide Fatfs.Valid, BitmapPlace, Links, WinState.Logical, Bits, BitAt, Stored, InUse, Geometry.WellFormed,
         IsChain;
    PendingBounds(fs, obj);
    LinksBasics(fs.fat, obj.Fields(), obj.ch);
    res := FillFirstFrag(fs, obj);
    if res == FrOk {
      res := FlushLast(fs, obj, lcl);
      if res == FrOk && obj.stat != 2 { FlushedIsChain(fs.fat, obj.Fields(), obj.ch); }
    }
  }

  // ---------- create_chain ----------

  /** The old last fragment goes to the FAT, linked to cluster `ncl`, which starts a new one. */
  method LinkFragment(fs: Fatfs, obj: ExObj, clst: u32, ncl: u32) returns (res: FResult)
    requires Pending(fs, obj) && obj.nFrag > 0 && obj.stat != 2 && clst as int == obj.ch[|obj.ch| - 1]
    requires 2 <= ncl < |fs.fat| && ncl as int !in obj.ch
    modifies fs`disk, fs`wflag, fs`medium, fs`winsect, fs.win, fs`fat, fs`log, obj`nFrag
    ensures fs.Valid() && BitmapPlace(fs.g) && (res == FrOk || res == FrDiskErr)
    ensures BitsOf(fs) == old(BitsOf(fs)) && OutsideKept(old(fs.fat), fs.fat, obj.ch)
    ensures Lazy(fs.fat, obj.Fields(), if res == FrOk then obj.ch + [ncl as int] else obj.ch)
    ensures res == FrOk ==> obj.nFrag == 1
    ensures Onward(old(fs.medium), fs.medium)
    ensures res == FrDiskErr ==> Faulted(old(fs.medium), fs.medium)
  {
    hide Fatfs.Valid, BitmapPlace, Links, Lazy, WinState.Logical, Bits, BitAt, Stored, InUse, Geometry.WellFormed;
    res := FillLastFrag(fs, obj, clst, ncl);
    LinkInto(fs, obj, ncl, res);
    if res == FrOk { obj.nFrag := 1; }
  }

  /** Contiguous with the next cluster, just fragmented with any other; else what it was. */
  function StatAfter(stat: nat, clst: u32, ncl: u32): nat {
    if stat == 2 && ncl != clst + 1 then 3 else stat
  }

  /** The status update of create_chain after cluster `ncl` was marked in the bitmap: the object grows by `ncl`, or
      (a disk error) stands for the same clusters as before. */
  method AppendFragment(fs: Fatfs, obj: ExObj, clst: u32, ncl: u32) returns (res: FResult)
    requires Sound(fs, obj) && clst as int == obj.ch[|obj.ch| - 1]
    requires 2 <= ncl < |fs.fat| && ncl as int !in obj.ch && InUse(BitsOf(fs), [ncl as int])
    modifies fs`disk, fs`wflag, fs`medium, fs`winsect, fs.win, fs`fat, fs`log, obj`stat, obj`nFrag, obj`nCont, obj`ch
    ensures Sound(fs, obj) && (res == FrOk || res == FrDiskErr)
    ensures res != FrOk ==> obj.stat == old(obj.stat) || (obj.stat == 3 && old(obj.stat) == 2)
    ensures BitsOf(fs) == old(BitsOf(fs)) && OutsideKept(old(fs.fat), fs.fat, old(obj.ch))
    ensures obj.ch == if res == FrOk then old(obj.ch) + [ncl as int] else old(obj.ch)
    // the next cluster joins without an access to the FAT, and a contiguous object stays one; any other one starts a
    // fragment of its own
    ensures ncl == clst + 1 ==> res == FrOk && fs.fat == old(fs.fat) && fs.medium == old(fs.medium)
    ensures res == FrOk ==> obj.stat == StatAfter(old(obj.stat), clst, ncl) && (ncl != clst + 1 ==> obj.nFrag == 1)
    ensures Onward(old(fs.medium), fs.medium)
    ensures res == FrDiskErr ==> Faulted(old(fs.medium), fs.medium)
  {
    hide Fatfs.Valid, BitmapPlace, Links, Lazy, WinState.Logical, Bits, BitAt, Stored, InUse, Geometry.WellFormed;
    FirstBounds(fs, obj);
    LazyBasics(fs.fat, obj.Fields(), obj.ch);
    res := FrOk;
    if obj.stat == 2 && ncl != clst + 1 {
      BecomeFragmented(fs.fat, obj.Fields(), obj.ch);
      obj.nCont := clst - obj.sclust;
      obj.stat := 3;
    }
    if obj.stat != 2 {
      if ncl == clst + 1 {
        StretchFragment(fs.fat, obj.Fields(), obj.ch, ncl);
        obj.nFrag := if obj.nFrag > 0 then obj.nFrag + 1 else 2;
      } else {
        if obj.nFrag == 0 { obj.nFrag := 1; }
        PendOne(fs.fat, obj.Fields(), old(obj.Fields()), obj.ch);
        res := LinkFragment(fs, obj, clst, ncl);
      }
    } else {
      StretchContiguous(fs.fat, obj.Fields(), obj.ch, ncl);
    }
    if res == FrOk {
      InUseAppend(BitsOf(fs), obj.ch, ncl);
      obj.ch := obj.ch + [ncl as int];
    }
  }

  lemma LazyBasics(fat: seq<nat>, o: Frag, ch: seq<nat>)
    requires Lazy(fat, o, ch)
    ensures Links(fat, o, ch) && |ch| > 0 && o.sclust == ch[0] && (o.stat == 0 || o.stat == 2 || o.stat == 3)
    ensures o.nFrag <= |ch| && (forall i :: 0 <= i < |ch| ==> 2 <= ch[i] < |fat|)
    ensures o.nFrag > 0 ==> ch[|ch| - 1] == ch[|ch| - o.nFrag] + o.nFrag - 1
  {
  }

  lemma InUseAppend(bits: seq<bool>, ch: seq<nat>, c: nat)
    requires InUse(bits, ch) && InUse(bits, [c])
    ensures InUse(bits, ch + [c])
  {
    assert [c][0] == c;
  }

  /** Declaring (at least) the last cluster pending. */
  lemma PendOne(fat: seq<nat>, o: Frag, was: Frag, ch: seq<nat>)
    requires Lazy(fat, was, ch) && o.nFrag > 0
    requires was.stat != 2 ==> o == was.(nFrag := o.nFrag) && o.nFrag == if was.nFrag > 0 then was.nFrag else 1
    requires was.stat == 2 ==> o == was.(stat := 3, nCont := |ch| - 1, nFrag := 1)
    ensures Links(fat, o, ch)
  {
    if was.stat == 2 {
      BecomeFragmented(fat, was, ch);
      PendLast(fat, was.(stat := 3, nCont := |ch| - 1), ch);
    } else if was.nFrag == 0 {
      PendLast(fat, was, ch);
    }
  }

  /** After fill_last_frag tried to link the new fragment. */
  lemma LinkInto(fs: Fatfs, obj: ExObj, ncl: u32, res: FResult)
    requires Pending(fs, obj) && obj.stat != 2 && 2 <= ncl < |fs.fat| && ncl as int !in obj.ch
    requires res == FrOk ==> obj.nFrag == 0 && fs.fat[obj.ch[|obj.ch| - 1]] == Stored(fs.g, ncl)
    requires res != FrOk ==> obj.nFrag > 0
    ensures res == FrOk ==> Lazy(fs.fat, obj.Fields().(nFrag := 1), obj.ch + [ncl as int])
    ensures res != FrOk ==> Lazy(fs.fat, obj.Fields(), obj.ch)
  {
    hide Fatfs.Valid, BitmapPlace, WinState.Logical, Bits, BitAt, Stored, InUse, Geometry.WellFormed;
    PendingBounds(fs, obj);
    SmallStored(fs.g, |fs.disk|, ncl);
    if res == FrOk {
      StretchNewFragment(fs.fat, obj.Fields(), obj.ch, ncl);
    }
  }

  /** The size field is good enough for get_fat: a contiguous object has exactly the clusters its size needs, and a
      fragmented one is not empty. */
  ghost predicate SizeKnown(g: Geometry, obj: ExObj)
    requires g.csize > 0
    reads obj
  {
    && (obj.stat == 2 ==> obj.objsize > 0 && SizeClusters(g, obj.objsize) == |obj.ch| - 1)
    && (obj.stat == 3 ==> obj.objsize > 0)
  }

  ghost predicate MoreUsed(was: seq<bool>, bits: seq<bool>) {
    |bits| == |was| && forall b :: 0 <= b < |was| && was[b] ==> bits[b]
  }

  /** At most one bit more is set, that of a free cluster which is none of `ch`: what a create_chain leaves that
      fails. */
  ghost predicate OneLeaked(was: seq<bool>, bits: seq<bool>, ch: seq<nat>) {
    bits == was || exists c :: 2 <= c < |was| + 2 && c !in ch && !was[c - 2] && bits == was[c - 2 := true]
  }

  lemma LeakedHere(was: seq<bool>, bits: seq<bool>, ch: seq<nat>, c: nat)
    requires 2 <= c < |was| + 2 && c !in ch && !was[c - 2] && bits == was[c - 2 := true]
    ensures OneLeaked(was, bits, ch)
  {
  }

  /** get_fat on the growing edge reports the end; inside an object with nothing pending, the next cluster. */
  method NextCluster(fs: Fatfs, obj: ExObj, clst: u32, ghost i: nat) returns (val: u32)
    requires Sound(fs, obj) && fs.g.csize > 0 && SizeKnown(fs.g, obj)
    requires i < |obj.ch| && clst as int == obj.ch[i] && (i + 1 == |obj.ch| || obj.nFrag == 0)
    modifies fs`disk, fs`wflag, fs`medium, fs`winsect, fs.win
    ensures Sound(fs, obj) && BitsOf(fs) == old(BitsOf(fs)) && 2 <= clst < |fs.fat|
    ensures i + 1 == |obj.ch| || val == DISK_ERROR || val as int == obj.ch[i + 1]
    ensures i + 1 == |obj.ch| ==> val >= |fs.fat|
    ensures Onward(old(fs.medium), fs.medium)
    ensures val == DISK_ERROR ==> Faulted(old(fs.medium), fs.medium)
  {
    hide Fatfs.Valid, BitmapPlace, Links, Lazy, WinState.Logical, Bits, BitAt, Stored, InUse, Geometry.WellFormed,
         FatOnly, Answer, SizeClusters;
    ghost var a := fs.St();
    FirstBounds(fs, obj);
    LazyBasics(fs.fat, obj.Fields(), obj.ch);
    ContiguousLength(fs.fat, obj.Fields(), obj.ch);
    PlaceIsExFat(fs.g);
    ValidBasics(fs);
    AnswerFollows(fs.fat, obj.Fields(), obj.ch, i);
    AnswerSize(obj.Fields(), clst, |obj.ch| - 1, SizeClusters(fs.g, obj.objsize), fs.fat[clst]);
    NoWrap(obj.Fields(), clst, SizeClusters(fs.g, obj.objsize));
    val := GetFatX(fs, obj, clst);
    BitsKept(fs.g, a, fs.St());
  }

  lemma ContiguousLength(fat: seq<nat>, o: Frag, ch: seq<nat>)
    requires Lazy(fat, o, ch)
    ensures o.stat == 2 ==> |ch| - 1 < |fat|
  {
    if o.stat == 2 { assert ch[|ch| - 1] == ch[0] + (|ch| - 1 - 0); }
  }

  lemma NoWrap(o: Frag, c: nat, clen: nat)
    requires o.sclust <= 0x7FFF_FFFF && (o.stat == 2 ==> clen < 0x7FFF_FFFF) && (o.stat == 3 ==> o.nCont < 0x7FFF_FFFF)
    ensures !WrapsInto(o, c, clen)
  {
  }

  lemma AnswerSize(o: Frag, c: nat, m: nat, n: nat, raw: nat)
    requires o.stat == 2 ==> m == n
    ensures Answer(o, c, m, raw) == Answer(o, c, n, raw)
  {
  }

  /** The marked cluster joins the object, or starts it. */
  method LinkClaimed(fs: Fatfs, obj: ExObj, clst: u32, ncl: u32) returns (res: FResult)
    requires fs.Valid() && BitmapPlace(fs.g) && 2 <= ncl < |fs.fat| && InUse(BitsOf(fs), [ncl as int])
    requires clst == 0 ==> obj.nFrag == 0
    requires clst != 0 ==> Sound(fs, obj) && clst as int == obj.ch[|obj.ch| - 1] && ncl as int !in obj.ch
    modifies fs`disk, fs`wflag, fs`medium, fs`winsect, fs.win, fs`fat, fs`log, obj`stat, obj`nFrag, obj`nCont, obj`ch
    ensures fs.Valid() && BitmapPlace(fs.g) && BitsOf(fs) == old(BitsOf(fs)) && (res == FrOk || res == FrDiskErr)
    ensures clst != 0 ==> Sound(fs, obj) && obj.ch == if res == FrOk then old(obj.ch) + [ncl as int] else old(obj.ch)
    ensures res != FrOk ==> obj.stat == old(obj.stat) || (obj.stat == 3 && old(obj.stat) == 2)
    ensures res == FrOk ==> obj.stat == if clst == 0 then 2 else StatAfter(old(obj.stat), clst, ncl)
    ensures clst == 0 ==> res == FrOk && obj.ch == [ncl as int] && Lazy(fs.fat, obj.Fields().(sclust := ncl), obj.ch)
    ensures if clst == 0 then fs.fat == old(fs.fat) else OutsideKept(old(fs.fat), fs.fat, old(obj.ch))
    ensures Onward(old(fs.medium), fs.medium)
    ensures res == FrDiskErr ==> Faulted(old(fs.medium), fs.medium)
  {
    hide Fatfs.Valid, BitmapPlace, Links, Lazy, WinState.Logical, Bits, BitAt, Stored, InUse, Geometry.WellFormed;
    res := FrOk;
    if clst == 0 {
      obj.stat := 2;
      obj.ch := [ncl as int];
      NewChain(fs.fat, ncl, obj.nCont);
    } else {
      res := AppendFragment(fs, obj, clst, ncl);
    }
  }

  /** The marked cluster joins the object, and the bookkeeping of create_chain. */
  method JoinClaimed(fs: Fatfs, obj: ExObj, clst: u32, ncl: u32) returns (ok: bool)
    requires fs.Valid() && BitmapPlace(fs.g) && 2 <= ncl < |fs.fat| && InUse(BitsOf(fs), [ncl as int])
    requires fs.freeClst != 0 && fs.g.nFatent >= 2
    requires clst == 0 ==> obj.nFrag == 0
    requires clst != 0 ==> Sound(fs, obj) && clst as int == obj.ch[|obj.ch| - 1] && ncl as int !in obj.ch
    modifies fs`disk, fs`wflag, fs`medium, fs`winsect, fs.win, fs`fat, fs`log, fs`lastClst, fs`freeClst, fs`fsiDirty,
             obj`stat, obj`nFrag, obj`nCont, obj`ch
    ensures fs.Valid() && BitmapPlace(fs.g) && BitsOf(fs) == old(BitsOf(fs))
    ensures clst != 0 ==> Sound(fs, obj) && obj.ch == if ok then old(obj.ch) + [ncl as int] else old(obj.ch)
    ensures !ok ==> obj.stat == old(obj.stat) || (obj.stat == 3 && old(obj.stat) == 2)
    ensures clst == 0 ==> ok && obj.ch == [ncl as int] && Lazy(fs.fat, obj.Fields().(sclust := ncl), obj.ch)
    ensures if clst == 0 then fs.fat == old(fs.fat) else OutsideKept(old(fs.fat), fs.fat, old(obj.ch))
    ensures |fs.fat| == old(|fs.fat|)
    ensures ok ==> fs.lastClst == ncl
    ensures ok ==> obj.stat == if clst == 0 then 2 else StatAfter(old(obj.stat), clst, ncl)
    ensures !ok ==> fs.freeClst == old(fs.freeClst) && fs.lastClst == old(fs.lastClst)
    ensures ok ==>
      fs.freeClst == if old(fs.freeClst) <= fs.g.nFatent - 2 then old(fs.freeClst) - 1 else old(fs.freeClst)
    ensures Onward(old(fs.medium), fs.medium)
    ensures !ok ==> Faulted(old(fs.medium), fs.medium)
  {
    hide Fatfs.Valid, BitmapPlace, Links, Lazy, WinState.Logical, Bits, BitAt, Stored, InUse, Geometry.WellFormed,
         FreeBits;
    ValidBasics(fs);
    var res := LinkClaimed(fs, obj, clst, ncl);
    ValidBasics(fs);
    ok := res == FrOk;
    if ok {
      SetTaken(fs, if fs.freeClst as int <= fs.g.nFatent - 2 then fs.freeClst - 1 else fs.freeClst, ncl);
    }
  }

  lemma SoundParts(fs: Fatfs, obj: ExObj)
    requires Sound(fs, obj)
    ensures fs.Valid() && BitmapPlace(fs.g) && Lazy(fs.fat, obj.Fields(), obj.ch) && InUse(BitsOf(fs), obj.ch)
  {
  }

  lemma NoneLeaked(was: seq<bool>, ch: seq<nat>)
    ensures OneLeaked(was, was, ch) && MoreUsed(was, was)
  {
  }

  /** An object is not harmed by further bits; a cluster whose bit was clear is none of its own. */
  lemma StillSound(fs: Fatfs, obj: ExObj, was: seq<bool>, c: nat)
    requires fs.Valid() && BitmapPlace(fs.g) && Lazy(fs.fat, obj.Fields(), obj.ch) && InUse(was, obj.ch)
    requires MoreUsed(was, BitsOf(fs))
    ensures Sound(fs, obj)
    ensures 2 <= c < |was| + 2 && !was[c - 2] ==> c !in obj.ch
  {
    hide Fatfs.Valid, BitmapPlace, Lazy, Bits, WinState.Logical;
    FreshCluster(was, BitsOf(fs), obj.ch, c);
  }

  /** The part of create_chain behind the checks: find and mark a free cluster, append it, bookkeeping. */
  method ClaimCluster(fs: Fatfs, obj: ExObj, clst: u32, scl: u32) returns (ncl: u32)
    requires fs.Valid() && BitmapPlace(fs.g) && fs.freeClst != 0
    requires clst == 0 ==> obj.nFrag == 0
    requires clst != 0 ==> Sound(fs, obj) && clst as int == obj.ch[|obj.ch| - 1]
    modifies fs`disk, fs`wflag, fs`medium, fs`winsect, fs.win, fs`fat, fs`log, fs`lastClst, fs`freeClst, fs`fsiDirty,
             obj`stat, obj`nFrag, obj`nCont, obj`ch
    ensures fs.Valid() && (ncl == 0 || ncl == DISK_ERROR || 2 <= ncl < |fs.fat|)
    ensures fs.g.nFatent > 2 && (2 <= ncl < |fs.fat| ==> PickedAt(fs.g, old(BitsOf(fs)), scl, 1, ncl))
    ensures 2 <= ncl < |fs.fat| ==>
      var was := old(BitsOf(fs)); !was[ncl - 2] && BitsOf(fs) == was[ncl - 2 := true] && fs.lastClst == ncl
    ensures clst != 0 ==>
      Sound(fs, obj) && obj.ch == if 2 <= ncl < |fs.fat| then old(obj.ch) + [ncl as int] else old(obj.ch)
    ensures clst == 0 && 2 <= ncl < |fs.fat| ==>
      obj.ch == [ncl as int] && Lazy(fs.fat, obj.Fields().(sclust := ncl), obj.ch) && InUse(BitsOf(fs), obj.ch)
    ensures ncl == 0 ==> BitsOf(fs) == old(BitsOf(fs)) && NoFreeBit(BitsOf(fs)) && obj.Fields() == old(obj.Fields())
    ensures ncl == 0 ==> obj.ch == old(obj.ch)
    ensures 2 <= ncl < |fs.fat| ==> obj.stat == if clst == 0 then 2 else StatAfter(old(obj.stat), clst, ncl)
    ensures ncl == DISK_ERROR ==> OneLeaked(old(BitsOf(fs)), BitsOf(fs), if clst == 0 then [] else obj.ch)
    ensures ncl == DISK_ERROR && clst == 0 ==> BitsOf(fs) == old(BitsOf(fs))
    ensures ncl == DISK_ERROR && clst == 0 ==> obj.Fields() == old(obj.Fields()) && obj.ch == old(obj.ch)
    ensures ncl == DISK_ERROR ==> obj.stat == old(obj.stat) || (obj.stat == 3 && old(obj.stat) == 2)
    ensures !(2 <= ncl < |fs.fat|) ==> fs.freeClst == old(fs.freeClst) && fs.lastClst == old(fs.lastClst)
    ensures MoreUsed(old(BitsOf(fs)), BitsOf(fs))
    ensures if clst == 0 then fs.fat == old(fs.fat) else OutsideKept(old(fs.fat), fs.fat, old(obj.ch))
    ensures ncl != DISK_ERROR && BitsKnown(old(BitsOf(fs)), old(fs.freeClst)) ==> BitsKnown(BitsOf(fs), fs.freeClst)
    ensures Onward(old(fs.medium), fs.medium)
    ensures ncl == DISK_ERROR ==> Faulted(old(fs.medium), fs.medium)
  {
    hide Fatfs.Valid, BitmapPlace, Links, Lazy, WinState.Logical, Bits, BitAt, Stored, InUse, Geometry.WellFormed,
         FatOnly, FreeBits, NoFreeBit, Sound, OneLeaked, MoreUsed;
    if clst != 0 { SoundParts(fs, obj); }
    ValidBasics(fs);
    HeapBound(fs.g, |fs.disk|);
    FreeBitsBounds(BitsOf(fs));
    ghost var was := BitsOf(fs);
    ncl := TakeFree(fs, scl);
    NoneLeaked(was, if clst == 0 then [] else obj.ch);
    if clst != 0 { StillSound(fs, obj, was, ncl); }
    if ncl == 0 || ncl == DISK_ERROR { return; }
    var ok := JoinClaimed(fs, obj, clst, ncl);
    if !ok {
      LeakedHere(was, BitsOf(fs), obj.ch, ncl);
      ncl := DISK_ERROR;    // the flush fails only with the device
    }
  }

  /** create_chain on an exFAT volume: follow the object from cluster `clst` (element `i`), or stretch it there if it
      is the last one, or start a new object (clst == 0; the caller then stores the start cluster). */
  method CreateChainX(fs: Fatfs, obj: ExObj, clst: u32, ghost i: nat) returns (ncl: u32)
    requires fs.Valid() && BitmapPlace(fs.g) && fs.g.csize > 0
    requires clst == 0 ==> obj.nFrag == 0
    requires clst != 0 ==> Sound(fs, obj) && SizeKnown(fs.g, obj)
    requires clst != 0 ==> i < |obj.ch| && clst as int == obj.ch[i] && (i + 1 == |obj.ch| || obj.nFrag == 0)
    modifies fs`disk, fs`wflag, fs`medium, fs`winsect, fs.win, fs`fat, fs`log, fs`lastClst, fs`freeClst, fs`fsiDirty,
             obj`stat, obj`nFrag, obj`nCont, obj`ch
    // an internal error is impossible
    ensures fs.Valid() && (ncl == 0 || ncl == DISK_ERROR || 2 <= ncl < |fs.fat|)
    // following the object
    ensures clst != 0 && old(i + 1 < |obj.ch|) ==>
      (ncl == DISK_ERROR || ncl as int == old(obj.ch)[i + 1]) && BitsOf(fs) == old(BitsOf(fs))
    // a cluster that was free becomes the last one of the object
    ensures 2 <= ncl < |fs.fat| && (clst == 0 || old(i + 1 == |obj.ch|)) ==>
      var was := old(BitsOf(fs)); !was[ncl - 2] && BitsOf(fs) == was[ncl - 2 := true] && fs.lastClst == ncl
    // the first one behind the last one taken, or behind the end of the object
    ensures fs.g.nFatent > 2 && (2 <= ncl < |fs.fat| && (clst == 0 || old(i + 1 == |obj.ch|)) ==>
      PickedAt(fs.g, old(BitsOf(fs)), if clst != 0 then clst else SearchFrom(old(fs.lastClst), fs.g.nFatent), 1, ncl))
    ensures clst != 0 ==> Sound(fs, obj)
    ensures clst != 0 ==>
      obj.ch == if 2 <= ncl < |fs.fat| && old(i + 1 == |obj.ch|) then old(obj.ch) + [ncl as int] else old(obj.ch)
    ensures clst == 0 && 2 <= ncl < |fs.fat| ==>
      obj.ch == [ncl as int] && Lazy(fs.fat, obj.Fields().(sclust := ncl), obj.ch) && InUse(BitsOf(fs), obj.ch)
    // contiguous as long as it can be
    ensures 2 <= ncl < |fs.fat| ==>
      obj.stat == if clst == 0 then 2 else if old(i + 1 < |obj.ch|) then old(obj.stat)
                  else StatAfter(old(obj.stat), clst, ncl)
    // refused only when the volume is full
    ensures ncl == 0 ==> BitsOf(fs) == old(BitsOf(fs)) && (BitsKnown(BitsOf(fs), fs.freeClst) ==> NoFreeBit(BitsOf(fs)))
    ensures ncl == 0 ==> obj.Fields() == old(obj.Fields()) && obj.ch == old(obj.ch)
    // everything else
    ensures ncl == DISK_ERROR ==> OneLeaked(old(BitsOf(fs)), BitsOf(fs), if clst == 0 then [] else obj.ch)
    ensures ncl == DISK_ERROR && clst == 0 ==> BitsOf(fs) == old(BitsOf(fs))
    ensures ncl == DISK_ERROR && clst == 0 ==> obj.Fields() == old(obj.Fields()) && obj.ch == old(obj.ch)
    ensures ncl == DISK_ERROR ==> obj.stat == old(obj.stat) || (obj.stat == 3 && old(obj.stat) == 2)
    ensures !(2 <= ncl < |fs.fat|) ==> fs.freeClst == old(fs.freeClst) && fs.lastClst == old(fs.lastClst)
    ensures MoreUsed(old(BitsOf(fs)), BitsOf(fs))
    ensures if clst == 0 then fs.fat == old(fs.fat) else OutsideKept(old(fs.fat), fs.fat, old(obj.ch))
    ensures ncl != DISK_ERROR && BitsKnown(old(BitsOf(fs)), old(fs.freeClst)) ==> BitsKnown(BitsOf(fs), fs.freeClst)
    ensures Onward(old(fs.medium), fs.medium)
    ensures ncl == DISK_ERROR ==> Faulted(old(fs.medium), fs.medium)
  {
    hide Fatfs.Valid, BitmapPlace, Links, Lazy, WinState.Logical, Bits, BitAt, Stored, InUse, Geometry.WellFormed,
         FatOnly, SizeClusters, SizeKnown, FreeBits;
    ValidBasics(fs);
    HeapBound(fs.g, |fs.disk|);
    var n: u32 := fs.g.nFatent;
    var scl: u32;
    if clst == 0 {
      scl := fs.lastClst;
      if scl == 0 || scl >= n { scl := 1; }
    } else {
      var cs := NextCluster(fs, obj, clst, i);
      LazyBasics(fs.fat, obj.Fields(), obj.ch);
      if cs < 2 { return INSANE; }
      if cs == DISK_ERROR { return cs; }
      if cs < n { return cs; }
      scl := clst;
    }
    if fs.freeClst == 0 {
      FreeBitsBounds(BitsOf(fs));
      return 0;
    }
    ncl := ClaimCluster(fs, obj, clst, scl);
  }

  /** A cluster whose bit was clear is none of the object's; marking it keeps theirs. */
  lemma FreshCluster(was: seq<bool>, bits: seq<bool>, ch: seq<nat>, c: nat)
    requires InUse(was, ch) && MoreUsed(was, bits)
    ensures InUse(bits, ch)
    ensures 2 <= c < |was| + 2 && !was[c - 2] ==> c !in ch
  {
  }

  /** find_bitmap for one cluster and change_bitmap on it. */
  method TakeFree(fs: Fatfs, scl: u32) returns (ncl: u32)
    requires fs.Valid() && BitmapPlace(fs.g)
    modifies fs`disk, fs`wflag, fs`medium, fs`winsect, fs.win
    ensures fs.Valid() && (ncl == 0 || ncl == DISK_ERROR || 2 <= ncl < |fs.fat|)
    ensures ncl == 0 ==> BitsOf(fs) == old(BitsOf(fs)) && NoFreeBit(BitsOf(fs))
    ensures 2 <= ncl < |fs.fat| ==>
      var was := old(BitsOf(fs));
      !was[ncl - 2] && BitsOf(fs) == was[ncl - 2 := true] && FreeBits(BitsOf(fs)) == FreeBits(was) - 1
    ensures 2 <= ncl < |fs.fat| ==> InUse(BitsOf(fs), [ncl as int])
    ensures fs.g.nFatent > 2 && (2 <= ncl < |fs.fat| ==> PickedAt(fs.g, old(BitsOf(fs)), scl, 1, ncl))
    ensures ncl == DISK_ERROR ==> BitsOf(fs) == old(BitsOf(fs))
    ensures MoreUsed(old(BitsOf(fs)), BitsOf(fs))
    ensures Onward(old(fs.medium), fs.medium)
    ensures ncl == DISK_ERROR ==> Faulted(old(fs.medium), fs.medium)
  {
    hide Fatfs.Valid, BitmapPlace, WinState.Logical, Bits, BitAt, Geometry.WellFormed, FreeBits;
    ValidBasics(fs);
    HeapBound(fs.g, |fs.disk|);
    ghost var was := BitsOf(fs);
    ncl := FindBitmap(fs, scl, 1);
    if ncl == 0 || ncl == DISK_ERROR { return; }
    var res := ChangeBitmap(fs, ncl, 1, true);
    FreeBitsUpdate(was, ncl - 2, true);
    if res != FrOk { NoneFilled(was, BitsOf(fs), ncl - 2, true); }
    if res == FrIntErr { return INSANE; }
    if res == FrDiskErr { return DISK_ERROR; }
    assert BitsOf(fs) == was[ncl - 2 := true];
  }

  /** Any other object of the volume stands for the same clusters as before. */
  lemma OthersUnaffected(a: seq<nat>, b: seq<nat>, was: seq<bool>, bits: seq<bool>, mine: seq<nat>, o: Frag,
                         ch: seq<nat>)
    requires Lazy(a, o, ch) && InUse(was, ch) && OutsideKept(a, b, mine) && MoreUsed(was, bits)
    requires forall i :: 0 <= i < |ch| ==> ch[i] !in mine
    ensures Lazy(b, o, ch) && InUse(bits, ch)
  {
    LazyFrame(a, b, o, ch);
  }
}
