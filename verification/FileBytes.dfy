/** A file's bytes as a function of its cluster chain, the medium and the file's sector buffer. */
module FileBytes {
  import opened Bytes
  import opened Volume
  import opened Arith

  /** The data area holds exactly the clusters 2..nFatent. */
  ghost predicate Layout(g: Geometry) {
    g.dataEnd == g.database + g.csize * (g.nFatent - 2)
  }

  /** clst2sect plus a sector offset inside the cluster. */
  function Sect(g: Geometry, c: nat, j: nat): int {
    g.database + g.csize * (c - 2) + j
  }

  lemma SectRange(g: Geometry, nsect: nat, c: nat, j: nat)
    requires g.WellFormed(nsect) && Layout(g) && 2 <= c < g.nFatent && j < g.csize
    ensures g.database <= Sect(g, c, j) < g.dataEnd <= nsect
    ensures !g.InFats(Sect(g, c, j)) && Sect(g, c, j) > 0
  {
    NonNegProduct(g.csize, c - 2);
    NonNegProduct(g.csize, g.nFatent - 1 - c);
    assert g.csize * (g.nFatent - 2) == g.csize * (c - 2) + g.csize + g.csize * (g.nFatent - 1 - c) by {
      assert g.nFatent - 2 == (c - 2) + 1 + (g.nFatent - 1 - c);
    }
  }

  /** Different clusters or offsets are different sectors. */
  lemma SectInjective(g: Geometry, c: nat, j: nat, d: nat, k: nat)
    requires 2 <= c && 2 <= d && j < g.csize && k < g.csize && Sect(g, c, j) == Sect(g, d, k)
    ensures c == d && j == k
  {
    assert g.csize * (c - 2) - g.csize * (d - 2) == g.csize * (c - d);
    SmallMultiple(g.csize, c - d, k - j);
  }

  /** Which cluster of the file holds its sector `k`, and where in the cluster: the code's division by the
      cluster size and its mask `& (csize - 1)`, csize being a power of two. */
  function Idx(g: Geometry, k: nat): nat
    requires g.csize > 0
  {
    k / g.csize
  }

  function Off(g: Geometry, k: nat): nat
    requires g.csize > 0
  {
    k % g.csize
  }

  /** Bytes the chain has room for. */
  function Capacity(g: Geometry, ch: seq<nat>): nat {
    g.csize * |ch| * 512
  }

  /** The chain's clusters are cluster numbers of the volume, each occurring once. */
  ghost predicate GoodChain(g: Geometry, ch: seq<nat>) {
    && g.csize > 0
    && (forall i :: 0 <= i < |ch| ==> 2 <= ch[i] < g.nFatent)
    && (forall i, j :: 0 <= i < j < |ch| ==> ch[i] != ch[j])
  }

  /** Sector number of the file's sector `k`. */
  function SectorOf(g: Geometry, ch: seq<nat>, k: nat): int
    requires g.csize > 0 && Idx(g, k) < |ch|
  {
    Sect(g, ch[Idx(g, k)], Off(g, k))
  }

  lemma SectorIndex(g: Geometry, n: nat, k: nat)
    requires g.csize > 0
    ensures k < g.csize * n <==> Idx(g, k) < n
    ensures 0 <= Off(g, k) < g.csize && k == g.csize * (Idx(g, k)) + Off(g, k)
  {
    DivMod(k, g.csize);
    if Idx(g, k) >= n {
      MulMono(g.csize, n, Idx(g, k));
    } else {
      MulMono(g.csize, Idx(g, k) + 1, n);
    }
  }

  lemma OffRange(g: Geometry, k: nat)
    requires g.csize > 0
    ensures Off(g, k) < g.csize
  {
  }

  lemma SameIndex(g: Geometry, k: nat, l: nat)
    requires g.csize > 0
    ensures Idx(g, k) == Idx(g, l) && Off(g, k) == Off(g, l) ==> k == l
  {
    if Idx(g, k) == Idx(g, l) && Off(g, k) == Off(g, l) {
      SameDivMod(k, l, g.csize);
    }
  }

  /** At a cluster boundary the next sector opens the next cluster; elsewhere it stays in the cluster. */
  lemma NextCluster(g: Geometry, k: nat)
    requires g.csize > 0 && k > 0
    ensures Off(g, k) == 0 ==> Idx(g, k) == Idx(g, k - 1) + 1
    ensures Off(g, k) != 0 ==> Idx(g, k) == Idx(g, k - 1)
  {
    DivMod(k, g.csize);
    if k % g.csize == 0 {
      DivModIs(k - 1, g.csize, k / g.csize - 1, g.csize - 1) by {
        assert g.csize * (k / g.csize - 1) == g.csize * (k / g.csize) - g.csize;
      }
    } else {
      DivModIs(k - 1, g.csize, k / g.csize, k % g.csize - 1);
    }
  }

  lemma FirstIndex(g: Geometry)
    requires g.csize > 0
    ensures Idx(g, 0) == 0 && Off(g, 0) == 0
  {
  }

  lemma ByteIndex(g: Geometry, ch: seq<nat>, p: nat)
    requires g.csize > 0
    ensures p < Capacity(g, ch) <==> Idx(g, p / 512) < |ch|
  {
    SectorIndex(g, |ch|, p / 512);
    var cap := g.csize * |ch|;
    assert p < cap * 512 <==> p / 512 < cap;
  }

  /** Sector of a file sector index: inside the data area, and different for different indices. */
  lemma SectorOfRange(g: Geometry, nsect: nat, ch: seq<nat>, k: nat)
    requires g.WellFormed(nsect) && Layout(g) && GoodChain(g, ch) && Idx(g, k) < |ch|
    ensures g.database <= SectorOf(g, ch, k) < g.dataEnd <= nsect
    ensures !g.InFats(SectorOf(g, ch, k)) && SectorOf(g, ch, k) > 0
  {
    hide Geometry.WellFormed, Sect, Idx, Off;
    OffRange(g, k);
    SectRange(g, nsect, ch[Idx(g, k)], Off(g, k));
  }

  lemma SectorOfInjective(g: Geometry, ch: seq<nat>, k: nat, l: nat)
    requires GoodChain(g, ch) && Idx(g, k) < |ch| && Idx(g, l) < |ch| && SectorOf(g, ch, k) == SectorOf(g, ch, l)
    ensures k == l
  {
    hide Sect, Idx, Off;
    OffRange(g, k);
    OffRange(g, l);
    SectInjective(g, ch[Idx(g, k)], Off(g, k), ch[Idx(g, l)], Off(g, l));
    SameIndex(g, k, l);
  }

  /** Consecutive file sectors inside one cluster are consecutive on the medium. */
  lemma SectorOfNext(g: Geometry, ch: seq<nat>, k: nat, d: nat)
    requires g.csize > 0 && Idx(g, k) < |ch| && Off(g, k) + d < g.csize
    ensures Idx(g, k + d) == Idx(g, k) && SectorOf(g, ch, k + d) == SectorOf(g, ch, k) + d
  {
    hide Sect;
    DivMod(k, g.csize);
    DivModIs(k + d, g.csize, k / g.csize, k % g.csize + d);
    SectAdd(g, ch[Idx(g, k)], Off(g, k), d);
  }

  lemma SectAdd(g: Geometry, c: nat, j: nat, d: nat)
    ensures Sect(g, c, j + d) == Sect(g, c, j) + d
  {
  }

  /** `s` is one of the file's sectors. */
  ghost predicate InFile(g: Geometry, ch: seq<nat>, s: int) {
    g.csize > 0 && exists k: nat :: Idx(g, k) < |ch| && SectorOf(g, ch, k) == s
  }

  // ---------- the file object, as a value ----------

  /** FIL without its constant parts: `ch` is the chain starting at `sclust`. */
  datatype FileState = FileState(
    ch: seq<nat>, sclust: u32, objsize: nat, fptr: nat, clust: u32, sect: u32, dirty: bool, buf: seq<byte>)

  /** File sector `k`: in the buffer if that is dirty and shows it, else on the medium. */
  function SectorData(g: Geometry, disk: seq<Sector>, f: FileState, k: nat): seq<byte>
    requires g.csize > 0 && Idx(g, k) < |f.ch| && 0 <= SectorOf(g, f.ch, k) < |disk|
  {
    var s := SectorOf(g, f.ch, k);
    if f.dirty && f.sect == s then f.buf else disk[s]
  }

  /** The chain and the medium are such that the file's bytes are defined. */
  ghost predicate Readable(g: Geometry, disk: seq<Sector>, f: FileState) {
    g.WellFormed(|disk|) && Layout(g) && g.csize > 0 && GoodChain(g, f.ch) && |f.buf| == 512
  }

  ghost function ByteAt(g: Geometry, disk: seq<Sector>, f: FileState, p: nat): byte
    requires Readable(g, disk, f) && p < Capacity(g, f.ch)
  {
    ByteIndex(g, f.ch, p);
    SectorOfRange(g, |disk|, f.ch, p / 512);
    SectorData(g, disk, f, p / 512)[p % 512]
  }

  lemma ByteIs(g: Geometry, disk: seq<Sector>, f: FileState, p: nat)
    requires Readable(g, disk, f) && p < Capacity(g, f.ch)
    ensures Idx(g, p / 512) < |f.ch| && 0 <= SectorOf(g, f.ch, p / 512) < |disk|
    ensures ByteAt(g, disk, f, p) == SectorData(g, disk, f, p / 512)[p % 512]
  {
    ByteIndex(g, f.ch, p);
    SectorOfRange(g, |disk|, f.ch, p / 512);
  }

  /** The bytes of the file. */
  ghost function Content(g: Geometry, disk: seq<Sector>, f: FileState): (c: seq<byte>)
    requires Readable(g, disk, f) && f.objsize <= Capacity(g, f.ch)
    ensures |c| == f.objsize && forall p :: 0 <= p < f.objsize ==> c[p] == ByteAt(g, disk, f, p)
  {
    seq(f.objsize, p requires 0 <= p < f.objsize => ByteAt(g, disk, f, p))
  }

  // ---------- the plain byte sequence it stands for ----------

  /** `c` with `d` written over it from `pos` on, growing it if need be. */
  function Overwrite(c: seq<byte>, pos: nat, d: seq<byte>): (r: seq<byte>)
    requires pos <= |c|
    ensures |r| == if pos + |d| > |c| then pos + |d| else |c|
  {
    c[..pos] + d + (if pos + |d| < |c| then c[pos + |d|..] else [])
  }

  lemma OverwriteTwice(c: seq<byte>, pos: nat, d: seq<byte>, e: seq<byte>)
    requires pos <= |c|
    ensures Overwrite(Overwrite(c, pos, d), pos + |d|, e) == Overwrite(c, pos, d + e)
  {
  }

  lemma OverwriteAt(c: seq<byte>, pos: nat, d: seq<byte>, p: nat)
    requires pos <= |c| && p < |Overwrite(c, pos, d)|
    ensures Overwrite(c, pos, d)[p] == if pos <= p < pos + |d| then d[p - pos] else c[p]
  {
  }

  // ---------- what each physical step does to the bytes ----------

  /** From (d0, f0) to (d1, f1) the file sectors below `n` clusters are the same. */
  ghost predicate SameSectors(g: Geometry, d0: seq<Sector>, f0: FileState, d1: seq<Sector>, f1: FileState) {
    && Readable(g, d0, f0) && Readable(g, d1, f1) && |f0.ch| <= |f1.ch|
    && (forall k: nat {:trigger SectorOf(g, f0.ch, k)} :: Idx(g, k) < |f0.ch| ==>
         && 0 <= SectorOf(g, f0.ch, k) < |d0| && 0 <= SectorOf(g, f1.ch, k) < |d1|
         && SectorData(g, d1, f1, k) == SectorData(g, d0, f0, k))
  }

  lemma SameSectorsByte(g: Geometry, d0: seq<Sector>, f0: FileState, d1: seq<Sector>, f1: FileState, p: nat)
    requires SameSectors(g, d0, f0, d1, f1) && p < Capacity(g, f0.ch)
    ensures p < Capacity(g, f1.ch) && ByteAt(g, d1, f1, p) == ByteAt(g, d0, f0, p)
  {
    hide Capacity, SectorOf, SectorData, Layout, Geometry.WellFormed, Idx, Off;
    ByteIndex(g, f0.ch, p);
    ByteIndex(g, f1.ch, p);
    assert 0 <= SectorOf(g, f0.ch, p / 512);
  }

  lemma SameContent(g: Geometry, d0: seq<Sector>, f0: FileState, d1: seq<Sector>, f1: FileState)
    requires SameSectors(g, d0, f0, d1, f1) && f0.objsize <= Capacity(g, f0.ch) && f1.objsize == f0.objsize
    ensures f1.objsize <= Capacity(g, f1.ch) && Content(g, d1, f1) == Content(g, d0, f0)
  {
    hide Capacity, SameSectors, ByteAt;
    SameReadable(g, d0, f0, d1, f1);
    CapacityMono(g, f0.ch, f1.ch);
    forall p | 0 <= p < f0.objsize
      ensures Content(g, d1, f1)[p] == Content(g, d0, f0)[p]
    {
      SameSectorsByte(g, d0, f0, d1, f1, p);
    }
  }

  lemma SameReadable(g: Geometry, d0: seq<Sector>, f0: FileState, d1: seq<Sector>, f1: FileState)
    requires SameSectors(g, d0, f0, d1, f1)
    ensures Readable(g, d0, f0) && Readable(g, d1, f1) && |f0.ch| <= |f1.ch|
  {
  }

  lemma CapacityMono(g: Geometry, a: seq<nat>, b: seq<nat>)
    requires |a| <= |b|
    ensures Capacity(g, a) <= Capacity(g, b)
  {
    NonNegProduct(g.csize, |b| - |a|);
    assert g.csize * |b| == g.csize * |a| + g.csize * (|b| - |a|);
  }
}
