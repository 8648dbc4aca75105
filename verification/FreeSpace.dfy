/** f_getfree: the free cluster count, from the cache or by a full scan. */
module FreeSpace {
  import opened Bytes
  import opened Arith
  import opened Volume
  import opened FatAccess
  import opened Forest
  import opened Chains
  import opened Bitmap
  import opened ExFatChain
  import opened ExFat

  // ---------- FAT12 ----------

  /** The scan of a FAT12 volume, entry by entry. */
  method ScanFat12(fs: Fatfs) returns (res: FResult, nfree: u32)
    requires fs.Valid() && fs.g.fsType == Fat12
    modifies fs`disk, fs`wflag, fs`medium, fs`winsect, fs.win
    ensures fs.Valid() && FatOnly(fs.g, old(fs.St()), fs.St()) && |fs.fat| >= 2
    ensures res == FrOk ==> nfree == FreeCount(fs.fat)
    ensures res == FrIntErr ==> exists c :: 2 <= c < |fs.fat| && fs.fat[c] == 1
    ensures res == FrOk || res == FrIntErr || res == FrDiskErr
    ensures Onward(old(fs.medium), fs.medium)
    ensures res == FrDiskErr ==> Faulted(old(fs.medium), fs.medium)
  {
    hide Fatfs.Valid, FatOnly, Geometry.WellFormed;
    ValidBasics(fs);
    MediumBound(fs.g, |fs.disk|);
    ghost var a := fs.St();
    FatOnlySelf(fs.g, a);
    nfree := 0;
    var clst: u32 := 2;
    while true
      invariant fs.Valid() && FatOnly(fs.g, a, fs.St()) && Onward(old(fs.medium), fs.medium)
      invariant 2 <= clst < fs.g.nFatent == |fs.fat| && nfree <= clst
      invariant FreeCount(fs.fat) == nfree + FreeFrom(fs.fat, clst)
      decreases fs.g.nFatent - clst
    {
      ghost var b := fs.St();
      var stat := GetFat(fs, clst);
      FatOnlyTrans(fs.g, a, b, fs.St());
      if stat == DISK_ERROR { return FrDiskErr, nfree; }
      if stat == 1 { return FrIntErr, nfree; }
      if stat == 0 { nfree := nfree + 1; }
      clst := clst + 1;
      if clst >= fs.g.nFatent { break; }
    }
    res := FrOk;
  }

  // ---------- FAT16 and FAT32 ----------

  /** Bytes per entry. */
  function Width(g: Geometry): nat {
    if g.fsType == Fat16 then 2 else 4
  }

  /** The window shows the FAT sector of entry `c`. */
  ghost predicate ShowsEntry(fs: Fatfs, c: nat)
    reads fs, fs.win
  {
    && fs.win.Length == 512 && fs.winsect == fs.g.fatbase + c * Width(fs.g) / 512 < |fs.disk|
    && fs.win[..] == fs.St().Logical()[fs.winsect]
  }

  /** Is the entry at offset `i` of the window zero? (On FAT32 the upper four bits do not count.) */
  predicate ZeroAtOffset(g: Geometry, win: seq<byte>, i: nat)
    requires |win| == 512 && i + Width(g) <= 512
  {
    if g.fsType == Fat16 then LdWord(win, i) == 0 else LdDword(win, i) % 0x1000_0000 == 0
  }

  lemma EntryOffset(g: Geometry, c: nat)
    requires g.fsType == Fat16 || g.fsType == Fat32
    ensures c * Width(g) % 512 + Width(g) <= 512
    ensures (c + 1) * Width(g) % 512 == (c * Width(g) % 512 + Width(g)) % 512
    ensures c * Width(g) % 512 + Width(g) < 512 ==> (c + 1) * Width(g) / 512 == c * Width(g) / 512
  {
    if g.fsType == Fat16 { OffsetStep(c, 2, 256); } else { OffsetStep(c, 4, 128); }
  }

  lemma OffsetStep(c: nat, w: nat, m: nat)
    requires (w == 2 && m == 256) || (w == 4 && m == 128)
    ensures c * w % 512 + w <= 512
    ensures (c + 1) * w % 512 == (c * w % 512 + w) % 512
    ensures c * w % 512 + w < 512 ==> (c + 1) * w / 512 == c * w / 512
  {
    var q, r := c / m, c % m;
    DivMod(c, m);
    DivModIs(c * w, 512, q, r * w);
    if r + 1 < m {
      DivModIs((c + 1) * w, 512, q, (r + 1) * w);
    } else {
      DivModIs((c + 1) * w, 512, q + 1, 0);
    }
  }

  /** The window tells whether the cluster is free. */
  lemma ZeroEntry(fs: Fatfs, c: nat)
    requires fs.Valid() && (fs.g.fsType == Fat16 || fs.g.fsType == Fat32) && c < fs.g.nFatent && ShowsEntry(fs, c)
    ensures c * Width(fs.g) % 512 + Width(fs.g) <= 512
    ensures ZeroAtOffset(fs.g, fs.win[..], c * Width(fs.g) % 512) <==> fs.fat[c] == 0
  {
    hide FatByte, WinState.Logical, WordOfs, DwordOfs, LdDword;
    ValidBasics(fs);
    EntryInside(fs.g, |fs.disk|, c);
    EntryOffset(fs.g, c);
    if fs.g.fsType == Fat16 {
      var o := WordOfs(c);
      WinByte(fs, c * 2);
      assert (c * 2 + 1) / 512 == c * 2 / 512;
      WinByte(fs, c * 2 + 1);
    } else {
      var o := DwordOfs(c);
      WinDword(fs, c);
      EntryIs32(fs.g, fs.St().Logical(), fs.fat, c);
    }
  }

  /** The scan of a FAT16/32 volume, sector by sector: it counts every zero entry, entries 0 and 1 included. */
  method ScanFat(fs: Fatfs) returns (res: FResult, nfree: u32)
    requires fs.Valid() && (fs.g.fsType == Fat16 || fs.g.fsType == Fat32)
    modifies fs`disk, fs`wflag, fs`medium, fs`winsect, fs.win
    ensures fs.Valid() && FatOnly(fs.g, old(fs.St()), fs.St()) && |fs.fat| >= 2
    ensures res == FrOk ==> nfree == FreeFrom(fs.fat, 0)
    ensures res == FrOk || res == FrDiskErr
    ensures Onward(old(fs.medium), fs.medium)
    ensures res == FrDiskErr ==> Faulted(old(fs.medium), fs.medium)
  {
    hide Fatfs.Valid, FatOnly, Geometry.WellFormed, ShowsEntry, ZeroAtOffset, WinState.Logical;
    ValidBasics(fs);
    MediumBound(fs.g, |fs.disk|);
    ghost var a := fs.St();
    FatOnlySelf(fs.g, a);
    nfree := 0;
    var clst: u32 := fs.g.nFatent;
    var i: nat, c: nat := 0, 0;
    while true
      invariant fs.Valid() && FatOnly(fs.g, a, fs.St()) && Onward(old(fs.medium), fs.medium) && fs.win.Length == 512
      invariant 0 < clst <= fs.g.nFatent == |fs.fat| && c == fs.g.nFatent - clst && nfree <= c
      invariant FreeFrom(fs.fat, 0) == nfree + FreeFrom(fs.fat, c)
      invariant i == c * Width(fs.g) % 512 && (i != 0 ==> ShowsEntry(fs, c))
      decreases clst
    {
      EntryOffset(fs.g, c);
      if i == 0 {
        ghost var b := fs.St();
        res := LoadFatSector(fs, c);
        FatOnlyTrans(fs.g, a, b, fs.St());
        if res != FrOk { return; }
      }
      ZeroEntry(fs, c);
      if ZeroAtOffset(fs.g, fs.win[..], i) { nfree := nfree + 1; }
      StillShown(fs, c);
      i := (i + Width(fs.g)) % 512;
      clst, c := clst - 1, c + 1;
      if clst == 0 { break; }
    }
    res := FrOk;
  }

  method LoadFatSector(fs: Fatfs, c: nat) returns (res: FResult)
    requires fs.Valid() && (fs.g.fsType == Fat16 || fs.g.fsType == Fat32) && c < fs.g.nFatent
    modifies fs`disk, fs`wflag, fs`medium, fs`winsect, fs.win
    ensures fs.Valid() && FatOnly(fs.g, old(fs.St()), fs.St()) && (res == FrOk || res == FrDiskErr)
    ensures res == FrOk ==> ShowsEntry(fs, c)
    ensures Onward(old(fs.medium), fs.medium)
    ensures res == FrDiskErr ==> Faulted(old(fs.medium), fs.medium)
  {
    ValidBasics(fs);
    EntryInside(fs.g, |fs.disk|, c);
    hide Fatfs.Valid, FatOnly, Geometry.WellFormed, WinState.Logical, Geometry.FatBytes;
    res := MoveToFatByte(fs, c * Width(fs.g));
    if res == FrOk { ValidBasics(fs); }
  }

  lemma StillShown(fs: Fatfs, c: nat)
    requires (fs.g.fsType == Fat16 || fs.g.fsType == Fat32) && ShowsEntry(fs, c)
    ensures (c * Width(fs.g) % 512 + Width(fs.g)) % 512 != 0 ==> ShowsEntry(fs, c + 1)
  {
    hide WinState.Logical;
    EntryOffset(fs.g, c);
  }

  // ---------- exFAT ----------

  lemma MaskNext(k: nat)
    requires k < 7
    ensures Mask(k + 1) == 2 * Mask(k)
  {
  }

  /** Counting the clear bits of one byte of the bitmap, at most as many as there are clusters left. */
  method CountByte(b: byte, left: u32, ghost bits: seq<bool>, ghost at: nat) returns (zeros: nat, used: nat)
    requires left > 0 && |bits| == at + left
    requires forall j :: 0 <= j < 8 && j < left ==> bits[at + j] == BitSet(b, j)
    ensures used == if left < 8 then left else 8
    ensures zeros <= used && FreeBits(bits[..at + used]) == FreeBits(bits[..at]) + zeros
  {
    hide Mask;
    var bm: nat := b;
    zeros, used := 0, 0;
    assert Mask(0) == 1 by { MaskZero(); }
    while used < 8 && used < left
      invariant used <= 8 && used <= left && zeros <= used && (used < 8 ==> bm == (b as int) / Mask(used))
      invariant FreeBits(bits[..at + used]) == FreeBits(bits[..at]) + zeros
    {
      assert bits[..at + used + 1][..at + used] == bits[..at + used];
      assert bits[at + used] == BitSet(b, used);
      if bm % 2 == 0 { zeros := zeros + 1; }
      if used < 7 {
        MaskNext(used);
        SplitDigits(b, Mask(used), 2);
        assert Mask(used) * 2 == Mask(used + 1);
      }
      bm := bm / 2;
      used := used + 1;
    }
  }

  lemma MaskZero()
    ensures Mask(0) == 1
  {
  }

  /** The window shows the bitmap sector `s`. */
  ghost predicate ShowsBits(fs: Fatfs, s: nat)
    reads fs, fs.win
  {
    && fs.win.Length == 512 && fs.winsect == fs.g.bitbase + s < |fs.disk| && fs.g.nFatent >= 2
    && fs.win[..] == fs.St().Logical()[fs.winsect]
  }

  /** One byte of the bitmap in the window. */
  lemma ByteBits(fs: Fatfs, s: nat, i: nat, at: nat, left: nat)
    requires ShowsBits(fs, s) && i < 512 && at == 8 * (512 * s + i) && at + left == fs.g.nFatent - 2
    ensures |BitsOf(fs)| == at + left && forall j :: 0 <= j < 8 && j < left ==>
      BitsOf(fs)[at + j] == BitSet(fs.win[i], j)
  {
    hide BitSet, Bits, WinState.Logical;
    WinBits(fs, s);
    forall j | 0 <= j < 8 && j < left
      ensures BitsOf(fs)[at + j] == BitSet(fs.win[i], j)
    {
      assert BitSet(fs.win[..][i], j) == Bits(fs.g, fs.St().Logical())[8 * (512 * s + i) + j];
    }
  }

  /** The scan of the allocation bitmap of an exFAT volume. */
  method ScanBitmap(fs: Fatfs) returns (res: FResult, nfree: u32)
    requires fs.Valid() && BitmapPlace(fs.g)
    modifies fs`disk, fs`wflag, fs`medium, fs`winsect, fs.win
    ensures fs.Valid() && fs.g.nFatent >= 2 && BitsOf(fs) == old(BitsOf(fs))
    ensures res == FrOk ==> nfree == FreeBits(BitsOf(fs))
    ensures res == FrOk || res == FrDiskErr
    ensures Onward(old(fs.medium), fs.medium)
    ensures res == FrDiskErr ==> Faulted(old(fs.medium), fs.medium)
  {
    hide Fatfs.Valid, Geometry.WellFormed, BitmapPlace, WinState.Logical, Bits, BitAt, BitSet, ShowsBits, FreeBits;
    ValidBasics(fs);
    HeapBound(fs.g, |fs.disk|);
    ghost var bits := BitsOf(fs);
    NoBits(bits);
    nfree := 0;
    var clst: u32 := fs.g.nFatent - 2;
    var i: nat, s: nat := 0, 0;
    ghost var at := 0;
    while true
      invariant fs.Valid() && BitsOf(fs) == bits && Onward(old(fs.medium), fs.medium) && fs.win.Length == 512
      invariant fs.g.nFatent >= 2
      invariant 0 < clst && at + clst == |bits| == fs.g.nFatent - 2 && nfree <= at && nfree == FreeBits(bits[..at])
      invariant i < 512
      invariant (if i == 0 then at == 8 * (512 * s) else s > 0 && at == 8 * (512 * (s - 1) + i) && ShowsBits(fs, s - 1))
      decreases clst
    {
      if i == 0 {
        res := MoveToBits(fs, s);
        if res != FrOk { res := FrDiskErr; return; }
        ShownBits(fs, s);
        s := s + 1;
      }
      ByteBits(fs, s - 1, i, at, clst);
      var zeros, used := CountByte(fs.win[i], clst, bits, at);
      nfree := nfree + zeros;
      clst := clst - used;
      at := at + used;
      i := (i + 1) % 512;
      if clst == 0 { break; }
    }
    assert bits[..at] == bits;
    res := FrOk;
  }

  lemma NoBits(bits: seq<bool>)
    ensures FreeBits(bits[..0]) == 0
  {
  }

  lemma ShownBits(fs: Fatfs, s: nat)
    requires fs.win.Length == 512 && fs.winsect == fs.g.bitbase + s < |fs.disk| && fs.g.nFatent >= 2
    requires fs.win[..] == fs.St().Logical()[fs.winsect]
    ensures ShowsBits(fs, s)
  {
  }

  // ---------- f_getfree ----------

  /** The number of free clusters. */
  ghost function TrueFree(fs: Fatfs): nat
    requires |fs.fat| >= 2 && fs.g.nFatent >= 2
    reads fs, fs.win
  {
    if fs.g.fsType == ExFat then FreeBits(BitsOf(fs)) else FreeCount(fs.fat)
  }

  /** free_clst is unknown (out of range) or right. */
  ghost predicate FreeKnown(fs: Fatfs)
    requires |fs.fat| >= 2 && fs.g.nFatent >= 2
    reads fs, fs.win
  {
    fs.freeClst <= fs.g.nFatent - 2 ==> fs.freeClst == TrueFree(fs)
  }

  /** Entries 0 and 1 hold the media byte and the end mark, never zero, on a properly formatted FAT16/32 volume. */
  predicate HeadSet(g: Geometry, fat: seq<nat>) {
    g.fsType == Fat16 || g.fsType == Fat32 ==> |fat| >= 2 && fat[0] != 0 && fat[1] != 0
  }

  /** How many of the entries 0 and 1 a FAT16/32 scan takes for free clusters. */
  function HeadZeros(g: Geometry, fat: seq<nat>): (z: nat)
    requires |fat| >= 2
    ensures z == 0 <==> HeadSet(g, fat)
  {
    if g.fsType == Fat16 || g.fsType == Fat32 then (if fat[0] == 0 then 1 else 0) + (if fat[1] == 0 then 1 else 0)
    else 0
  }

  lemma HeadCounts(fat: seq<nat>)
    requires |fat| >= 2
    ensures FreeFrom(fat, 0) == FreeCount(fat) + (if fat[0] == 0 then 1 else 0) + (if fat[1] == 0 then 1 else 0)
  {
    assert FreeFrom(fat, 0) == (if fat[0] == 0 then 1 else 0) + FreeFrom(fat, 1);
  }

  /** f_getfree behind the mount: with a right cache and without one the answer is the number of free clusters - on
      FAT16/32 exactly if entries 0 and 1 are not zero, each of them being counted otherwise - and the cache is right
      afterwards. */
  method FGetFree(fs: Fatfs) returns (res: FResult, nclst: u32)
    requires fs.Valid() && (fs.g.fsType == ExFat ==> BitmapPlace(fs.g))
    modifies fs`disk, fs`wflag, fs`medium, fs`winsect, fs.win, fs`freeClst, fs`fsiDirty
    ensures fs.Valid() && |fs.fat| >= 2 && fs.g.nFatent >= 2 && TrueFree(fs) == old(TrueFree(fs))
    // a count that is known is the answer
    ensures old(fs.freeClst) <= fs.g.nFatent - 2 ==>
      res == FrOk && nclst == old(fs.freeClst) && fs.St() == old(fs.St()) && fs.medium == old(fs.medium)
    ensures res == FrOk && old(FreeKnown(fs)) && HeadSet(fs.g, fs.fat) ==> nclst == TrueFree(fs)
    ensures res == FrOk && old(fs.freeClst) > fs.g.nFatent - 2 ==>
      nclst == TrueFree(fs) + HeadZeros(fs.g, fs.fat) && (nclst == TrueFree(fs) <==> HeadSet(fs.g, fs.fat))
    ensures old(FreeKnown(fs)) && HeadSet(fs.g, fs.fat) ==> FreeKnown(fs)
    ensures res == FrOk ==> nclst == fs.freeClst
    ensures res == FrIntErr ==> fs.g.fsType == Fat12 && exists c :: 2 <= c < |fs.fat| && fs.fat[c] == 1
    ensures res == FrOk || res == FrIntErr || res == FrDiskErr
    ensures Onward(old(fs.medium), fs.medium)
    ensures res == FrDiskErr ==> Faulted(old(fs.medium), fs.medium)
  {
    hide Fatfs.Valid, Geometry.WellFormed, BitmapPlace, WinState.Logical, Bits, FreeBits, FreeFrom, FatOnly;
    ValidBasics(fs);
    MediumBound(fs.g, |fs.disk|);
    HeadCounts(fs.fat);
    if fs.freeClst <= fs.g.nFatent - 2 { return FrOk, fs.freeClst; }
    if fs.g.fsType == Fat12 {
      res, nclst := ScanFat12(fs);
    } else if fs.g.fsType == ExFat {
      res, nclst := ScanBitmap(fs);
    } else {
      res, nclst := ScanFat(fs);
    }
    if res == FrOk {
      SetFree(fs, nclst);
    }
  }

  lemma {:induction false} AllZeroFree(fat: seq<nat>, lo: nat)
    requires lo <= |fat| && forall c :: lo <= c < |fat| ==> fat[c] == 0
    ensures FreeFrom(fat, lo) == |fat| - lo
    decreases |fat| - lo
  {
    if lo < |fat| { AllZeroFree(fat, lo + 1); }
  }

  /** A FAT16 volume of 18 clusters whose sectors are all zero: unless the disk fails, f_getfree reports 20. */
  method ZeroHead() returns (fs: Fatfs, res: FResult, nclst: u32)
    ensures fs.Valid() && fs.g.nFatent == |fs.fat| == 20 && TrueFree(fs) == 18
    ensures res == FrDiskErr || (res == FrOk && nclst == 20)
  {
    hide Fatfs.Valid, WinState.Logical, FreeFrom;
    var g := Geometry(Fat16, 1, 1, 16, 20, 1, 0, 1, 2, 3, 21, 0, false);
    var zero: Sector := seq(512, _ => 0);
    var medium: seq<Sector> := seq(21, _ => zero);
    fs := new Fatfs(g, medium, 0xFFFF_FFFF, 0xFFFF_FFFF);
    ZeroFat(fs);
    AllZeroFree(fs.fat, 2);
    res, nclst := FGetFree(fs);
  }

  lemma ZeroFat(fs: Fatfs)
    requires fs.Valid() && !fs.wflag && fs.g.fsType == Fat16
    requires forall s, i :: 0 <= s < |fs.disk| && 0 <= i < 512 ==> fs.disk[s][i] == 0
    ensures |fs.fat| == fs.g.nFatent && forall c :: 0 <= c < |fs.fat| ==> fs.fat[c] == 0
  {
    forall c | 0 <= c < fs.g.nFatent
      ensures fs.fat[c] == 0
    {
      EntryInside(fs.g, |fs.disk|, c);
      assert fs.fat[c] == Entry(fs.g, fs.disk, c);
    }
  }

  // ---------- whole runs ----------

  /** create_chain behind a cluster (0: a new chain), remove_chain with a predecessor (0: none), f_getfree. */
  datatype Request = Take(behind: u32) | Give(first: u32, behind: u32) | Ask

  /** The answer to a request: of f_getfree its result and count. */
  datatype Reply = Reply(res: FResult, n: u32)

  /** What one request may do to the FAT. */
  ghost predicate Served(g: Geometry, req: Request, a: seq<nat>, b: seq<nat>) {
    match req
    case Take(behind) => b == a || exists c :: Appended(g, a, b, behind, c)
    case Give(_, behind) => b == a || CutOrFreed(g, a, b, behind)
    case Ask => b == a
  }

  /** Cluster `n` followed `behind`, or was appended there. */
  ghost predicate Handed(g: Geometry, behind: u32, n: u32, a: seq<nat>, b: seq<nat>) {
    2 <= n < |a|
    && if 2 <= behind < |a| && 2 <= a[behind] < |a| then a[behind] == n as nat else Appended(g, a, b, behind, n)
  }

  /** The reply is the right one: create_chain returned the next cluster or one it appended, or the volume was full;
      f_getfree told the number of free clusters, or met a cluster of value 1 on a FAT12 volume; an internal error means
      a request for no cluster, or the value 1 in the FAT. */
  ghost predicate Told(g: Geometry, req: Request, reply: Reply, a: seq<nat>, b: seq<nat>) {
    && |a| >= 2
    && match req
       case Take(behind) =>
         && (reply.res == FrOk ==> Handed(g, behind, reply.n, a, b))
         && (reply.res == FrDenied ==> Full(a))
         && (reply.res == FrIntErr ==> (behind != 0 && !(2 <= behind < |a| && 2 <= a[behind])) || HasReserved(a))
       case Give(first, behind) =>
         reply.res != FrDenied && (reply.res == FrOk ==> first < |b| && b[first] == 0)
         && (reply.res == FrIntErr ==> !(2 <= first < |a| && (behind == 0 || 2 <= behind < |a|)) || HasReserved(a))
       case Ask =>
         if reply.res == FrOk then reply.n as nat == FreeCount(a)
         else reply.res == FrIntErr && g.fsType == Fat12 && exists c :: 2 <= c < |a| && a[c] == 1
  }

  /** `fats` lists the FAT before each request, and at the end. */
  ghost predicate History(g: Geometry, requests: seq<Request>, fats: seq<seq<nat>>) {
    && |fats| == |requests| + 1
    && forall i :: 0 <= i < |requests| ==> Served(g, requests[i], fats[i], fats[i + 1])
  }

  ghost predicate AllTold(g: Geometry, requests: seq<Request>, replies: seq<Reply>, fats: seq<seq<nat>>) {
    && |replies| == |requests| < |fats|
    && forall i :: 0 <= i < |requests| ==> Told(g, requests[i], replies[i], fats[i], fats[i + 1])
  }

  /** The predecessor a remove_chain is given is in use. */
  predicate Proper(req: Request, fat: seq<nat>) {
    req.Give? && 2 <= req.behind < |fat| ==> fat[req.behind] != 0
  }

  ghost predicate AllProper(requests: seq<Request>, fats: seq<seq<nat>>)
    requires |fats| >= |requests|
  {
    forall i :: 0 <= i < |requests| ==> Proper(requests[i], fats[i])
  }

  /** FAT12/16/32: in any run of create_chain, remove_chain and f_getfree calls every answer of f_getfree is the number
      of free clusters at that moment, cached or scanned, if no remove_chain was given a free cluster as predecessor:
      its end mark would take that cluster from the free ones uncounted, see CutBehind. The run ends early only by a
      failure of the device, in the request behind the `done` ones. */
  method CountRun(fs: Fatfs, requests: seq<Request>)
    returns (res: FResult, done: nat, replies: seq<Reply>, ghost fats: seq<seq<nat>>)
    requires fs.Valid() && fs.g.fsType != ExFat && CountKnown(fs.fat, fs.freeClst) && HeadSet(fs.g, fs.fat)
    modifies fs, fs.win
    ensures fs.Valid() && ((res == FrOk && done == |requests|) || (res == FrDiskErr && done < |requests|))
    ensures History(fs.g, requests[..done], fats) && fats[0] == old(fs.fat)
    ensures AllProper(requests[..done], fats) ==> AllTold(fs.g, requests[..done], replies, fats)
    ensures res == FrOk ==> fats[done] == fs.fat && (AllProper(requests, fats) ==> CountKnown(fs.fat, fs.freeClst))
    ensures res == FrDiskErr ==> Faulted(old(fs.medium), fs.medium)
    ensures Onward(old(fs.medium), fs.medium)
  {
    hide Fatfs.Valid, Geometry.WellFormed, WinState.Logical, FatOnly, FreeCount, IsForest, CrashSafe, IsChain,
         Freed, Appended, CutAt, Served, CountKnown, HeadSet, Told;
    res, done, replies, fats := FrOk, 0, [], [fs.fat];
    while done < |requests|
      invariant done <= |requests| && fs.Valid() && HeadSet(fs.g, fs.fat) && Onward(old(fs.medium), fs.medium)
      invariant History(fs.g, requests[..done], fats) && fats[0] == old(fs.fat) && fats[done] == fs.fat
      invariant AllProper(requests[..done], fats) ==>
        CountKnown(fs.fat, fs.freeClst) && AllTold(fs.g, requests[..done], replies, fats)
      decreases |requests| - done
    {
      var r, n := Serve(fs, requests[done]);
      if r == FrDiskErr { return r, done, replies, fats; }
      HistoryNext(fs.g, requests, fats, done, fs.fat);
      TellNext(fs.g, requests, replies, fats, done, Reply(r, n), fs.fat);
      replies, fats := replies + [Reply(r, n)], fats + [fs.fat];
      done := done + 1;
    }
    assert requests[..done] == requests;
  }

  lemma TellNext(g: Geometry, requests: seq<Request>, replies: seq<Reply>, fats: seq<seq<nat>>, i: nat, reply: Reply,
                 fat: seq<nat>)
    requires i < |requests| && |fats| == i + 1
    ensures AllTold(g, requests[..i], replies, fats) && Told(g, requests[i], reply, fats[i], fat) ==>
      AllTold(g, requests[..i + 1], replies + [reply], fats + [fat])
  {
    hide Told;
    if AllTold(g, requests[..i], replies, fats) && Told(g, requests[i], reply, fats[i], fat) {
      var r1, p1, f1 := requests[..i + 1], replies + [reply], fats + [fat];
      forall j | 0 <= j < i + 1
        ensures Told(g, r1[j], p1[j], f1[j], f1[j + 1])
      {
        if j < i { assert Told(g, requests[..i][j], replies[j], fats[j], fats[j + 1]); }
      }
    }
  }

  /** One request. After an internal error the volume can be gone on with. */
  method Serve(fs: Fatfs, req: Request) returns (r: FResult, n: u32)
    requires fs.Valid() && fs.g.fsType != ExFat && HeadSet(fs.g, fs.fat)
    modifies fs, fs.win
    ensures fs.Valid() && (r == FrOk || r == FrIntErr || r == FrDiskErr || r == FrDenied)
    ensures r == FrDiskErr ==> Faulted(old(fs.medium), fs.medium)
    ensures r != FrDiskErr ==> HeadSet(fs.g, fs.fat) && Served(fs.g, req, old(fs.fat), fs.fat)
    ensures r != FrDiskErr && CountKnown(old(fs.fat), old(fs.freeClst)) && Proper(req, old(fs.fat)) ==>
      CountKnown(fs.fat, fs.freeClst) && Told(fs.g, req, Reply(r, n), old(fs.fat), fs.fat)
    ensures Onward(old(fs.medium), fs.medium)
  {
    hide Fatfs.Valid, Geometry.WellFormed, WinState.Logical, FatOnly, FreeCount, IsForest, CrashSafe, IsChain,
         Freed, Appended, CutAt;
    ghost var before := fs.fat;
    r, n := FrOk, 0;
    ValidBasics(fs);
    MediumBound(fs.g, |fs.disk|);
    match req {
      case Take(behind) =>
        var ncl := CreateChain(fs, behind);
        if ncl == DISK_ERROR { return FrDiskErr, n; }
        if ncl == 0 { return FrDenied, n; }
        if ncl == 1 { return FrIntErr, n; }
        n := ncl;
        if fs.fat != before { AppendedHead(fs.g, before, fs.fat, behind, ncl); }
      case Give(first, behind) =>
        r := RemoveChain(fs, first, behind, []);
        CutHead(fs.g, before, behind);
      case Ask =>
        r, n := FGetFree(fs);
    }
  }

  lemma HistoryNext(g: Geometry, requests: seq<Request>, fats: seq<seq<nat>>, i: nat, fat: seq<nat>)
    requires i < |requests| && History(g, requests[..i], fats) && Served(g, requests[i], fats[i], fat)
    ensures History(g, requests[..i + 1], fats + [fat])
    ensures AllProper(requests[..i + 1], fats + [fat]) ==>
      AllProper(requests[..i], fats) && Proper(requests[i], fats[i])
  {
    hide Served, Proper;
    var r1, f1 := requests[..i + 1], fats + [fat];
    forall j | 0 <= j < i + 1
      ensures Served(g, r1[j], f1[j], f1[j + 1])
    {
      if j < i { assert requests[..i][j] == r1[j] && fats[j] == f1[j] && fats[j + 1] == f1[j + 1]; }
    }
    if AllProper(r1, f1) {
      assert r1[i] == requests[i] && f1[i] == fats[i] && Proper(r1[i], f1[i]);
      forall j | 0 <= j < i
        ensures Proper(requests[..i][j], fats[j])
      {
        assert requests[..i][j] == r1[j] && fats[j] == f1[j] && Proper(r1[j], f1[j]);
      }
    }
  }

  lemma AppendedHead(g: Geometry, a: seq<nat>, b: seq<nat>, p: nat, c: nat)
    requires Appended(g, a, b, p, c)
    ensures |b| == |a| && b[0] == a[0] && b[1] == a[1]
  {
  }

  lemma CutHead(g: Geometry, fat: seq<nat>, p: nat)
    requires |fat| >= 2
    ensures CutAt(g, fat, p)[0] == fat[0] && CutAt(g, fat, p)[1] == fat[1]
  {
  }
}
