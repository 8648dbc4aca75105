/** The invariant of an open file and what the single physical steps of the file functions do to it. */
module FileSteps {
  import opened Bytes
  import opened Volume
  import opened Window
  import opened FatAccess
  import opened Forest
  import opened Chains
  import opened FileBytes

  /** What holds of an open file at every point where no error has been reported. */
  ghost predicate Core(g: Geometry, fat: seq<nat>, st: WinState, f: FileState) {
    && Readable(g, st.disk, f)
    && |fat| == g.nFatent
    && (|f.ch| == 0 ==> f.sclust == 0)
    && (|f.ch| > 0 ==> IsChain(fat, f.ch) && f.sclust as nat == f.ch[0])
    && f.fptr <= f.objsize <= Capacity(g, f.ch) && f.objsize <= 0xFFFF_FFFF
    && (f.dirty ==> InFile(g, f.ch, f.sect))
    && (f.sect != 0 ==> g.database <= f.sect < g.dataEnd)
    && (!f.dirty && f.sect != 0 ==> st.disk[f.sect] == f.buf)
    && !InFile(g, f.ch, st.winsect)
    && (f.sect != 0 ==> st.winsect != f.sect)
  }

  /** The file without its sector buffer, unless that is dirty: after a failed read the buffer may hold anything. */
  function Unbuffered(f: FileState): FileState {
    if f.dirty then f else f.(sect := 0)
  }

  /** A clean buffer plays no part in what the file contains. */
  lemma UnbufferedSame(g: Geometry, fat: seq<nat>, st: WinState, f: FileState)
    requires Core(g, fat, st, f)
    ensures Core(g, fat, st, Unbuffered(f)) && Content(g, st.disk, Unbuffered(f)) == Content(g, st.disk, f)
  {
    hide Idx, Off, SectorOf, Geometry.WellFormed, Capacity, IsChain, GoodChain, Layout, InFile;
    var f1 := Unbuffered(f);
    forall p | 0 <= p < f.objsize
      ensures ByteAt(g, st.disk, f1, p) == ByteAt(g, st.disk, f, p)
    {
    }
    assert Content(g, st.disk, f1) == Content(g, st.disk, f);
  }

  /** `clust` is the cluster the byte before fptr lies in, and mid-sector the buffer shows fptr's sector. */
  ghost predicate AtRest(g: Geometry, f: FileState) {
    && g.csize > 0
    && (f.fptr > 0 ==> Idx(g, (f.fptr - 1) / 512) < |f.ch| && f.clust as nat == f.ch[Idx(g, (f.fptr - 1) / 512)])
    && (f.fptr % 512 != 0 ==> Idx(g, f.fptr / 512) < |f.ch| && f.sect as int == SectorOf(g, f.ch, f.fptr / 512))
  }

  lemma FileSectorFacts(g: Geometry, disk: seq<Sector>, f: FileState)
    requires Readable(g, disk, f)
    ensures forall k: nat {:trigger SectorOf(g, f.ch, k)} :: Idx(g, k) < |f.ch| ==>
      g.database <= SectorOf(g, f.ch, k) < g.dataEnd <= |disk|
      && !g.InFats(SectorOf(g, f.ch, k)) && SectorOf(g, f.ch, k) > 0
      && InFile(g, f.ch, SectorOf(g, f.ch, k))
  {
    hide Idx, Off, Sect, SectorOf, Geometry.WellFormed;
    forall k: nat | Idx(g, k) < |f.ch|
      ensures g.database <= SectorOf(g, f.ch, k) < g.dataEnd <= |disk| && !g.InFats(SectorOf(g, f.ch, k))
        && SectorOf(g, f.ch, k) > 0 && InFile(g, f.ch, SectorOf(g, f.ch, k))
    {
      SectorOfRange(g, |disk|, f.ch, k);
    }
  }

  lemma NotInFats(g: Geometry, nsect: nat, s: int)
    requires g.WellFormed(nsect) && g.database <= s < g.dataEnd
    ensures 0 < s < nsect && !g.InFats(s) && s != INVALID_SECTOR
  {
  }

  /** Work on the FAT that keeps the chain keeps the file. */
  lemma FatStep(g: Geometry, fat0: seq<nat>, st0: WinState, fat1: seq<nat>, st1: WinState, f: FileState)
    requires Core(g, fat0, st0, f) && FatOnly(g, st0, st1) && |fat1| == |fat0|
    requires |f.ch| > 0 ==> IsChain(fat1, f.ch)
    ensures Core(g, fat1, st1, f) && SameSectors(g, st0.disk, f, st1.disk, f)
  {
    hide Idx, Off, Sect, SectorOf, Geometry.WellFormed, Capacity, WinState.Logical, IsChain, GoodChain, Layout;
    FileSectorFacts(g, st0.disk, f);
    if f.sect != 0 {
      NotInFats(g, |st0.disk|, f.sect);
    }
    forall k: nat | Idx(g, k) < |f.ch|
      ensures SectorData(g, st1.disk, f, k) == SectorData(g, st0.disk, f, k)
    {
      assert InFile(g, f.ch, SectorOf(g, f.ch, k));
    }
    if InFile(g, f.ch, st1.winsect) {
      var k: nat :| Idx(g, k) < |f.ch| && SectorOf(g, f.ch, k) == st1.winsect as int;
      assert !g.InFats(SectorOf(g, f.ch, k));
      assert g.WellFormed(|st0.disk|);
      BelowInvalid(g, |st0.disk|);
    }
  }

  lemma BelowInvalid(g: Geometry, nsect: nat)
    requires g.WellFormed(nsect)
    ensures nsect < INVALID_SECTOR
  {
  }

  // ---------- growing the chain ----------

  /** The file with one more cluster at the end of its chain. */
  function Grown(f: FileState, c: u32): FileState {
    f.(ch := f.ch + [c], sclust := if |f.ch| == 0 then c else f.sclust)
  }

  lemma GrownChain(g: Geometry, fat0: seq<nat>, fat1: seq<nat>, ch: seq<nat>, c: nat)
    requires |fat0| == g.nFatent <= g.MaxEntry() && GoodChain(g, ch)
    requires |ch| > 0 ==> IsChain(fat0, ch)
    requires Appended(g, fat0, fat1, if |ch| == 0 then 0 else ch[|ch| - 1], c)
    ensures IsChain(fat1, ch + [c]) && GoodChain(g, ch + [c])
  {
    if |ch| == 0 {
      assert IsChain(fat1, [c]);
      assert ch + [c] == [c];
    } else {
      FreeNotInChain(fat0, ch, c);
      ChainFrame(fat0, ch, c, g.MaxEntry());
      ChainStretch(fat0[c := g.MaxEntry()], ch, c);
    }
  }

  lemma GrowStep(g: Geometry, fat0: seq<nat>, st0: WinState, fat1: seq<nat>, st1: WinState, f: FileState, c: u32)
    requires Core(g, fat0, st0, f) && FatOnly(g, st0, st1) && |fat1| == |fat0| && g.InFat1(st1.winsect)
    requires Appended(g, fat0, fat1, if |f.ch| == 0 then 0 else f.ch[|f.ch| - 1], c)
    ensures Core(g, fat1, st1, Grown(f, c)) && SameSectors(g, st0.disk, f, st1.disk, Grown(f, c))
  {
    hide Idx, Off, Sect, Geometry.WellFormed, Capacity, WinState.Logical, IsChain, GoodChain, Layout, Appended;
    var f1 := Grown(f, c);
    MaxAbove(g, |st0.disk|);
    GrownChain(g, fat0, fat1, f.ch, c);
    CapacityMono(g, f.ch, f1.ch);
    FileSectorFacts(g, st0.disk, f);
    FileSectorFacts(g, st0.disk, f1);
    if f.sect != 0 {
      NotInFats(g, |st0.disk|, f.sect);
    }
    forall k: nat | Idx(g, k) < |f.ch|
      ensures SectorOf(g, f1.ch, k) == SectorOf(g, f.ch, k)
    {
    }
    forall k: nat | Idx(g, k) < |f.ch|
      ensures SectorData(g, st1.disk, f1, k) == SectorData(g, st0.disk, f, k)
    {
      assert InFile(g, f.ch, SectorOf(g, f.ch, k));
    }
    assert Readable(g, st1.disk, f1);
    if f.dirty {
      var k: nat :| Idx(g, k) < |f.ch| && SectorOf(g, f.ch, k) == f.sect as int;
      assert SectorOf(g, f1.ch, k) == f.sect as int;
    }
  }

  lemma MaxAbove(g: Geometry, nsect: nat)
    requires g.WellFormed(nsect)
    ensures g.nFatent <= g.MaxEntry()
  {
  }

  // ---------- data transfers ----------

  /** Writing the dirty buffer back. */
  lemma WriteBackStep(g: Geometry, fat: seq<nat>, st0: WinState, st1: WinState, f: FileState)
    requires Core(g, fat, st0, f) && f.dirty
    requires st1 == st0.(disk := st1.disk) && |st1.disk| == |st0.disk| && f.sect < |st1.disk|
    requires st1.disk[f.sect] == f.buf
    requires forall s :: 0 <= s < |st0.disk| && s != f.sect ==> st1.disk[s] == st0.disk[s]
    ensures Core(g, fat, st1, f.(dirty := false)) && SameSectors(g, st0.disk, f, st1.disk, f.(dirty := false))
  {
    hide Idx, Off, Sect, SectorOf, Geometry.WellFormed, Capacity, WinState.Logical, IsChain, GoodChain, Layout;
    FileSectorFacts(g, st0.disk, f);
    var f1 := f.(dirty := false);
    forall k: nat | Idx(g, k) < |f.ch|
      ensures SectorData(g, st1.disk, f1, k) == SectorData(g, st0.disk, f, k)
    {
    }
  }

  /** A write-back that failed: the dirty buffer hides what became of the sector. */
  lemma FailedBackStep(g: Geometry, fat: seq<nat>, st0: WinState, st1: WinState, f: FileState)
    requires Core(g, fat, st0, f) && f.dirty && st1 == st0.(disk := st1.disk) && |st1.disk| == |st0.disk|
    requires forall s :: 0 <= s < |st0.disk| && s != f.sect ==> st1.disk[s] == st0.disk[s]
    ensures Core(g, fat, st1, f) && SameSectors(g, st0.disk, f, st1.disk, f)
  {
    hide Idx, Off, Sect, SectorOf, Geometry.WellFormed, Capacity, WinState.Logical, IsChain, GoodChain, Layout;
    FileSectorFacts(g, st0.disk, f);
    forall k: nat | Idx(g, k) < |f.ch|
      ensures SectorData(g, st1.disk, f, k) == SectorData(g, st0.disk, f, k)
    {
    }
  }

  /** A read into the clean buffer that failed. */
  lemma FailedLoadStep(g: Geometry, fat: seq<nat>, st: WinState, f: FileState, b: seq<byte>)
    requires Core(g, fat, st, f) && !f.dirty && |b| == 512
    ensures var f1 := Unbuffered(f.(buf := b));
      Core(g, fat, st, f1) && Content(g, st.disk, f1) == Content(g, st.disk, f)
  {
    hide Idx, Off, SectorOf, Geometry.WellFormed, Capacity, IsChain, GoodChain, Layout, InFile;
    var f1 := Unbuffered(f.(buf := b));
    forall p | 0 <= p < f.objsize
      ensures ByteAt(g, st.disk, f1, p) == ByteAt(g, st.disk, f, p)
    {
    }
    assert Content(g, st.disk, f1) == Content(g, st.disk, f);
  }

  /** The bytes outside `pos..pos+n` are the same. */
  ghost predicate Spared(c0: seq<byte>, c1: seq<byte>, pos: nat, n: nat) {
    |c1| == |c0| && forall p :: 0 <= p < |c0| && !(pos <= p < pos + n) ==> c1[p] == c0[p]
  }

  /** From (d0, f0) to (d1, f1) the file sectors `k0..k0+cc` became `data` and all others stayed. */
  ghost predicate Replaced(g: Geometry, d0: seq<Sector>, f0: FileState, d1: seq<Sector>, f1: FileState,
                           k0: nat, cc: nat, data: seq<byte>)
  {
    && Readable(g, d0, f0) && Readable(g, d1, f1) && f1.ch == f0.ch && |data| == 512 * cc
    && (forall k: nat {:trigger SectorOf(g, f0.ch, k)} :: Idx(g, k) < |f0.ch| ==>
         && 0 <= SectorOf(g, f0.ch, k) < |d1| && SectorOf(g, f0.ch, k) < |d0|
         && SectorData(g, d1, f1, k) == if k0 <= k < k0 + cc then Slice(data, k - k0) else SectorData(g, d0, f0, k))
  }

  /** Filling the buffer with file sector `k0`. */
  lemma LoadStep(g: Geometry, fat: seq<nat>, st: WinState, f: FileState, k0: nat)
    requires Core(g, fat, st, f) && !f.dirty && Idx(g, k0) < |f.ch|
    ensures var s := SectorOf(g, f.ch, k0);
      0 <= s < |st.disk| && s <= 0xFFFF_FFFF
      && var f1 := f.(sect := s, buf := st.disk[s]); Core(g, fat, st, f1) && SameSectors(g, st.disk, f, st.disk, f1)
  {
    hide Idx, Off, Sect, SectorOf, Geometry.WellFormed, Capacity, WinState.Logical, IsChain, GoodChain, Layout;
    FileSectorFacts(g, st.disk, f);
    BelowInvalid(g, |st.disk|);
  }

  /** Putting new data for file sector `k0` into the buffer. */
  lemma BufferStep(g: Geometry, fat: seq<nat>, st: WinState, f: FileState, k0: nat, s: u32, b: seq<byte>)
    requires Core(g, fat, st, f) && Idx(g, k0) < |f.ch| && s as int == SectorOf(g, f.ch, k0) && |b| == 512
    requires f.dirty ==> f.sect == s
    ensures var f1 := f.(sect := s, buf := b, dirty := true);
      Core(g, fat, st, f1) && Replaced(g, st.disk, f, st.disk, f1, k0, 1, b)
  {
    hide Idx, Off, Sect, SectorOf, Geometry.WellFormed, Capacity, WinState.Logical, IsChain, GoodChain, Layout;
    FileSectorFacts(g, st.disk, f);
    var f1 := f.(sect := s, buf := b, dirty := true);
    forall k: nat | Idx(g, k) < |f.ch|
      ensures SectorData(g, st.disk, f1, k) ==
        if k0 <= k < k0 + 1 then Slice(b, k - k0) else SectorData(g, st.disk, f, k)
    {
      if k != k0 && SectorOf(g, f.ch, k) == s as int {
        SectorOfInjective(g, f.ch, k, k0);
      }
    }
  }

  /** The buffer after a direct transfer: refilled if its sector was overwritten. */
  function Refilled(f: FileState, s0: nat, cc: nat, data: seq<byte>): FileState
    requires |data| == 512 * cc
  {
    if s0 <= f.sect < s0 + cc then f.(buf := Slice(data, f.sect - s0), dirty := false) else f
  }

  /** Writing `cc` whole sectors of one cluster directly, from file sector `k0` on. */
  lemma DirectStep(g: Geometry, fat: seq<nat>, st0: WinState, st1: WinState, f: FileState, k0: nat, cc: nat,
                   data: seq<byte>)
    requires Core(g, fat, st0, f) && !f.dirty && Idx(g, k0) < |f.ch| && cc > 0 && Off(g, k0) + cc <= g.csize
    requires var s0 := SectorOf(g, f.ch, k0); s0 >= 0 && Transferred(st0.disk, st1.disk, s0, cc, data)
    requires st1 == st0.(disk := st1.disk)
    ensures var f1 := Refilled(f, SectorOf(g, f.ch, k0), cc, data);
      Core(g, fat, st1, f1) && Replaced(g, st0.disk, f, st1.disk, f1, k0, cc, data)
  {
    hide Idx, Off, Sect, SectorOf, Geometry.WellFormed, Capacity, WinState.Logical, IsChain, GoodChain, Layout;
    FileSectorFacts(g, st0.disk, f);
    var s0: nat := SectorOf(g, f.ch, k0);
    var f1 := Refilled(f, s0, cc, data);
    forall k: nat | Idx(g, k) < |f.ch|
      ensures SectorData(g, st1.disk, f1, k) ==
        if k0 <= k < k0 + cc then Slice(data, k - k0) else SectorData(g, st0.disk, f, k)
    {
      if k0 <= k < k0 + cc {
        SectorOfNext(g, f.ch, k0, k - k0);
      } else if s0 <= SectorOf(g, f.ch, k) < s0 + cc {
        var d := SectorOf(g, f.ch, k) - s0;
        SectorOfNext(g, f.ch, k0, d);
        SectorOfInjective(g, f.ch, k, k0 + d);
      }
    }
  }

  /** A direct transfer that failed half-way damages the sectors it was to write, and no others. */
  lemma FailedDirectStep(g: Geometry, fat: seq<nat>, st0: WinState, st1: WinState, f: FileState, cc: nat)
    requires Core(g, fat, st0, f) && !f.dirty && f.fptr % 512 == 0
    requires Idx(g, f.fptr / 512) < |f.ch| && cc > 0 && Off(g, f.fptr / 512) + cc <= g.csize
    requires st1 == st0.(disk := st1.disk) && |st1.disk| == |st0.disk|
    requires var s0 := SectorOf(g, f.ch, f.fptr / 512);
      forall s :: 0 <= s < |st0.disk| && !(s0 <= s < s0 + cc) ==> st1.disk[s] == st0.disk[s]
    ensures var f1 := Unbuffered(f);
      Core(g, fat, st1, f1) && Spared(Content(g, st0.disk, f), Content(g, st1.disk, f1), f.fptr, 512 * cc)
  {
    hide Idx, Off, Sect, SectorOf, Geometry.WellFormed, Capacity, WinState.Logical, IsChain, GoodChain, Layout,
         InFile, Content;
    FileSectorFacts(g, st0.disk, f);
    var f1 := Unbuffered(f);
    var k0 := f.fptr / 512;
    assert Core(g, fat, st1, f1);
    forall p | 0 <= p < f.objsize && !(f.fptr <= p < f.fptr + 512 * cc)
      ensures Content(g, st1.disk, f1)[p] == Content(g, st0.disk, f)[p]
    {
      ByteIs(g, st0.disk, f, p);
      ByteIs(g, st1.disk, f1, p);
      var s0, s := SectorOf(g, f.ch, k0), SectorOf(g, f.ch, p / 512);
      if s0 <= s < s0 + cc {
        SectorOfNext(g, f.ch, k0, s - s0);
        SectorOfInjective(g, f.ch, p / 512, k0 + (s - s0));
        assert false;
      }
    }
  }

  // ---------- from sectors to bytes ----------

  /** Sectors `k0..k0+cc` replaced: the bytes there are the new ones, all others stand. */
  lemma DirectBytes(g: Geometry, d0: seq<Sector>, f0: FileState, d1: seq<Sector>, f1: FileState, k0: nat, cc: nat,
                    data: seq<byte>)
    requires Replaced(g, d0, f0, d1, f1, k0, cc, data)
    requires f0.objsize <= Capacity(g, f0.ch) && 512 * k0 <= f0.objsize
    requires f1.objsize == if 512 * k0 + |data| > f0.objsize then 512 * k0 + |data| else f0.objsize
    requires f1.objsize <= Capacity(g, f0.ch)
    ensures Content(g, d1, f1) == Overwrite(Content(g, d0, f0), 512 * k0, data)
  {
    hide Idx, Off, SectorOf, Geometry.WellFormed, Capacity, GoodChain, Layout, SectorData, Overwrite;
    var c0, c1 := Content(g, d0, f0), Content(g, d1, f1);
    assert |Overwrite(c0, 512 * k0, data)| == |c1|;
    forall p | 0 <= p < f1.objsize
      ensures c1[p] == Overwrite(c0, 512 * k0, data)[p]
    {
      OverwriteAt(c0, 512 * k0, data, p);
      ByteIndex(g, f0.ch, p);
      assert 0 <= SectorOf(g, f0.ch, p / 512);
    }
  }

  /** The buffer patched with `d` at offset `o`. */
  function Patch(b: seq<byte>, o: nat, d: seq<byte>): (r: seq<byte>)
    requires o + |d| <= |b|
    ensures |r| == |b| && forall i :: 0 <= i < |b| ==> r[i] == if o <= i < o + |d| then d[i - o] else b[i]
  {
    b[..o] + d + b[o + |d|..]
  }

  /** One sector patched at fptr's place: the bytes there are the new ones, all others stand. What the sector
      held beyond the end of the file does not matter. */
  lemma PatchBytes(g: Geometry, d0: seq<Sector>, f0: FileState, d1: seq<Sector>, f1: FileState, pos: nat,
                   b: seq<byte>, d: seq<byte>)
    requires |b| == 512 && pos % 512 + |d| <= 512
    requires Replaced(g, d0, f0, d1, f1, pos / 512, 1, Patch(b, pos % 512, d))
    requires f0.objsize <= Capacity(g, f0.ch) && pos <= f0.objsize
    requires f1.objsize == (if pos + |d| > f0.objsize then pos + |d| else f0.objsize) <= Capacity(g, f0.ch)
    // the patched buffer held the sector, unless the file has no byte in it yet
    requires Idx(g, pos / 512) < |f0.ch| && 0 <= SectorOf(g, f0.ch, pos / 512) < |d0|
    requires b == SectorData(g, d0, f0, pos / 512) || (pos % 512 == 0 && pos >= f0.objsize)
    ensures Content(g, d1, f1) == Overwrite(Content(g, d0, f0), pos, d)
  {
    hide Idx, Off, SectorOf, Geometry.WellFormed, Capacity, GoodChain, Layout, SectorData, Overwrite, Patch;
    var c0, c1 := Content(g, d0, f0), Content(g, d1, f1);
    assert |Overwrite(c0, pos, d)| == |c1|;
    assert Slice(Patch(b, pos % 512, d), 0) == Patch(b, pos % 512, d);
    forall p | 0 <= p < f1.objsize
      ensures c1[p] == Overwrite(c0, pos, d)[p]
    {
      OverwriteAt(c0, pos, d, p);
      ByteIndex(g, f0.ch, p);
      assert 0 <= SectorOf(g, f0.ch, p / 512);
      SameSectorOffset(p, pos, |d|);
    }
  }

  lemma SameSectorOffset(p: nat, pos: nat, n: nat)
    requires pos % 512 + n <= 512
    ensures p / 512 == pos / 512 ==> p % 512 - pos % 512 == p - pos
    ensures pos <= p < pos + n ==> p / 512 == pos / 512
  {
  }

  /** The current cluster number plays no part in what the file contains. */
  lemma ClustOnly(g: Geometry, fat: seq<nat>, st: WinState, d0: seq<Sector>, f0: FileState, f: FileState, c: u32)
    requires Core(g, fat, st, f) && SameSectors(g, d0, f0, st.disk, f)
    ensures Core(g, fat, st, f.(clust := c)) && SameSectors(g, d0, f0, st.disk, f.(clust := c))
  {
    hide Idx, Off, SectorOf, Geometry.WellFormed, Capacity, IsChain, GoodChain, Layout, InFile;
    var f1 := f.(clust := c);
    forall k: nat | Idx(g, k) < |f0.ch|
      ensures 0 <= SectorOf(g, f0.ch, k) < |d0| && 0 <= SectorOf(g, f1.ch, k) < |st.disk|
        && SectorData(g, st.disk, f1, k) == SectorData(g, d0, f0, k)
    {
    }
  }

  // ---------- moving the pointer ----------

  /** The loop increment of f_write: fptr moves on, the size follows it. */
  function Advanced(f: FileState, w: nat): FileState {
    f.(fptr := f.fptr + w, objsize := if f.fptr + w > f.objsize then f.fptr + w else f.objsize)
  }

  lemma AdvanceCore(g: Geometry, fat: seq<nat>, st: WinState, f: FileState, w: nat)
    requires Core(g, fat, st, f) && f.fptr + w <= Capacity(g, f.ch) && f.fptr + w <= 0xFFFF_FFFF
    ensures Core(g, fat, st, Advanced(f, w))
  {
    hide Idx, Off, SectorOf, Geometry.WellFormed, Capacity, IsChain, GoodChain, Layout, InFile;
  }

  lemma ReplacedAdvanced(g: Geometry, d0: seq<Sector>, f0: FileState, d1: seq<Sector>, f1: FileState,
                         k0: nat, cc: nat, data: seq<byte>, w: nat)
    requires Replaced(g, d0, f0, d1, f1, k0, cc, data)
    ensures Replaced(g, d0, f0, d1, Advanced(f1, w), k0, cc, data)
  {
    hide Idx, Off, SectorOf, Geometry.WellFormed, Layout, GoodChain;
    var f2 := Advanced(f1, w);
    forall k: nat | Idx(g, k) < |f0.ch|
      ensures 0 <= SectorOf(g, f0.ch, k) < |d1| && SectorOf(g, f0.ch, k) < |d0|
        && SectorData(g, d1, f2, k) == if k0 <= k < k0 + cc then Slice(data, k - k0) else SectorData(g, d0, f0, k)
    {
    }
  }

  /** A direct transfer of `cc` sectors at fptr, fptr moved on. */
  lemma DirectDone(g: Geometry, fat: seq<nat>, d0: seq<Sector>, f0: FileState, st1: WinState, f1: FileState, cc: nat,
                   data: seq<byte>)
    requires f0.fptr % 512 == 0 && Replaced(g, d0, f0, st1.disk, f1, f0.fptr / 512, cc, data) && cc > 0
    requires Core(g, fat, st1, f1) && f1.fptr == f0.fptr && f1.objsize == f0.objsize
    requires f0.fptr <= f0.objsize <= Capacity(g, f0.ch)
    requires Idx(g, f0.fptr / 512) < |f0.ch| && Off(g, f0.fptr / 512) + cc <= g.csize
    requires f0.fptr + 512 * cc <= 0xFFFF_FFFF
    requires f1.clust as nat == f0.ch[Idx(g, f0.fptr / 512)]
    ensures var f2 := Advanced(f1, 512 * cc);
      Core(g, fat, st1, f2) && AtRest(g, f2) && Content(g, st1.disk, f2) == Overwrite(Content(g, d0, f0), f0.fptr, data)
  {
    hide Sect, Geometry.WellFormed, IsChain, GoodChain, Layout, InFile, Idx, Off, Capacity, Replaced, Readable,
         SectorOf;
    var k0 := f0.fptr / 512;
    assert Readable(g, d0, f0) && f1.ch == f0.ch && |data| == 512 * cc && g.csize > 0 by {
      ReplacedBasics(g, d0, f0, st1.disk, f1, k0, cc, data);
    }
    SectorOfNext(g, f0.ch, k0, cc - 1);
    ByteIndex(g, f0.ch, f0.fptr + 512 * cc - 1);
    assert (f0.fptr + 512 * cc - 1) / 512 == k0 + cc - 1;
    AdvanceCore(g, fat, st1, f1, 512 * cc);
    ReplacedAdvanced(g, d0, f0, st1.disk, f1, k0, cc, data, 512 * cc);
    DirectBytes(g, d0, f0, st1.disk, Advanced(f1, 512 * cc), k0, cc, data);
  }

  /** The direct branch of f_write, all in one. */
  lemma TransferDone(g: Geometry, fat: seq<nat>, st0: WinState, st1: WinState, f: FileState, cc: nat, data: seq<byte>)
    requires Core(g, fat, st0, f) && !f.dirty && f.fptr % 512 == 0 && cc > 0 && f.fptr + 512 * cc <= 0xFFFF_FFFF
    requires Idx(g, f.fptr / 512) < |f.ch| && Off(g, f.fptr / 512) + cc <= g.csize
    requires f.clust as nat == f.ch[Idx(g, f.fptr / 512)] && st1 == st0.(disk := st1.disk)
    requires var s0 := SectorOf(g, f.ch, f.fptr / 512); s0 >= 0 && Transferred(st0.disk, st1.disk, s0, cc, data)
    ensures var f2 := Advanced(Refilled(f, SectorOf(g, f.ch, f.fptr / 512), cc, data), 512 * cc);
      Core(g, fat, st1, f2) && AtRest(g, f2)
      && Content(g, st1.disk, f2) == Overwrite(Content(g, st0.disk, f), f.fptr, data)
  {
    hide Idx, Off, Sect, SectorOf, Geometry.WellFormed, IsChain, GoodChain, Layout, Content, Overwrite, AtRest,
         InFile, Replaced, Slice, Capacity;
    var f1 := Refilled(f, SectorOf(g, f.ch, f.fptr / 512), cc, data);
    DirectStep(g, fat, st0, st1, f, f.fptr / 512, cc, data);
    DirectDone(g, fat, st0.disk, f, st1, f1, cc, data);
  }

  lemma ReplacedBasics(g: Geometry, d0: seq<Sector>, f0: FileState, d1: seq<Sector>, f1: FileState, k0: nat, cc: nat,
                       data: seq<byte>)
    requires Replaced(g, d0, f0, d1, f1, k0, cc, data)
    ensures Readable(g, d0, f0) && Readable(g, d1, f1) && f1.ch == f0.ch && |data| == 512 * cc && g.csize > 0
  {
  }

  /** A partial sector put into the buffer at fptr, fptr moved on. */
  lemma PatchDone(g: Geometry, fat: seq<nat>, d0: seq<Sector>, f0: FileState, st1: WinState, f1: FileState,
                  b: seq<byte>, d: seq<byte>)
    requires |b| == 512 && f0.fptr % 512 + |d| <= 512 && |d| > 0
    requires Replaced(g, d0, f0, st1.disk, f1, f0.fptr / 512, 1, Patch(b, f0.fptr % 512, d))
    requires Core(g, fat, st1, f1) && f1.fptr == f0.fptr && f1.objsize == f0.objsize
    requires f0.fptr <= f0.objsize <= Capacity(g, f0.ch)
    requires Idx(g, f0.fptr / 512) < |f0.ch| && f0.fptr + |d| <= 0xFFFF_FFFF
    requires f1.clust as nat == f0.ch[Idx(g, f0.fptr / 512)] && f1.sect as int == SectorOf(g, f0.ch, f0.fptr / 512)
    requires 0 <= SectorOf(g, f0.ch, f0.fptr / 512) < |d0|
    requires b == SectorData(g, d0, f0, f0.fptr / 512) || (f0.fptr % 512 == 0 && f0.fptr >= f0.objsize)
    ensures var f2 := Advanced(f1, |d|);
      Core(g, fat, st1, f2) && AtRest(g, f2) && Content(g, st1.disk, f2) == Overwrite(Content(g, d0, f0), f0.fptr, d)
  {
    hide Sect, Geometry.WellFormed, IsChain, GoodChain, Layout, InFile, Idx, Off, Capacity, Replaced, Readable,
         SectorOf, SectorData, Patch;
    var k0 := f0.fptr / 512;
    ReplacedBasics(g, d0, f0, st1.disk, f1, k0, 1, Patch(b, f0.fptr % 512, d));
    ByteIndex(g, f0.ch, f0.fptr + |d| - 1);
    SameSectorOffset(f0.fptr + |d| - 1, f0.fptr, |d|);
    AdvanceCore(g, fat, st1, f1, |d|);
    ReplacedAdvanced(g, d0, f0, st1.disk, f1, k0, 1, Patch(b, f0.fptr % 512, d), |d|);
    PatchBytes(g, d0, f0, st1.disk, Advanced(f1, |d|), f0.fptr, b, d);
    EndInSector(f0.fptr, |d|);
  }

  /** The buffered branch of f_write: the buffer shows fptr's sector, or there is nothing of the file in that yet. */
  lemma PartialDone(g: Geometry, fat: seq<nat>, st: WinState, f: FileState, s: u32, d: seq<byte>)
    requires Core(g, fat, st, f) && 0 < |d| <= 512 - f.fptr % 512 && f.fptr + |d| <= 0xFFFF_FFFF
    requires Idx(g, f.fptr / 512) < |f.ch| && f.clust as nat == f.ch[Idx(g, f.fptr / 512)]
    requires s as int == SectorOf(g, f.ch, f.fptr / 512)
    requires f.sect == s || (!f.dirty && f.fptr % 512 == 0 && f.fptr >= f.objsize)
    ensures var f2 := Advanced(f.(sect := s, buf := Patch(f.buf, f.fptr % 512, d), dirty := true), |d|);
      Core(g, fat, st, f2) && AtRest(g, f2) && Content(g, st.disk, f2) == Overwrite(Content(g, st.disk, f), f.fptr, d)
  {
    hide Idx, Off, Sect, SectorOf, Geometry.WellFormed, Capacity, IsChain, GoodChain, Layout, Overwrite,
         WinState.Logical, Content, Replaced, AtRest, InFile;
    var b := Patch(f.buf, f.fptr % 512, d);
    FileSectorFacts(g, st.disk, f);
    BufferStep(g, fat, st, f, f.fptr / 512, s, b);
    PatchDone(g, fat, st.disk, f, st, f.(sect := s, buf := b, dirty := true), f.buf, d);
  }

  lemma EndInSector(p: nat, n: nat)
    requires p % 512 + n <= 512 && n > 0
    ensures (p + n) % 512 != 0 ==> (p + n) / 512 == p / 512
    ensures (p + n - 1) / 512 == p / 512
  {
  }
}
