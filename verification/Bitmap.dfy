/** find_bitmap and change_bitmap: the allocation bitmap of an exFAT volume behind the window. */
module Bitmap {
  import opened Bytes
  import opened ByteBits
  import opened Arith
  import opened Volume
  import opened Window

  /** 1 << k. */
  function Mask(k: nat): (m: nat)
    requires k < 8
    ensures 1 <= m <= 128
  {
    match k
    case 0 => 1
    case 1 => 2
    case 2 => 4
    case 3 => 8
    case 4 => 16
    case 5 => 32
    case 6 => 64
    case 7 => 128
  }

  /** `(b & (1 << k)) != 0`. */
  predicate BitSet(b: byte, k: nat)
    requires k < 8
  {
    (b as int) / Mask(k) % 2 == 1
  }

  /** Bit `k` counted from the lowest. */
  lemma {:induction false} BitSetBits(x: bv8, k: nat)
    requires k < 8
    ensures BitSet(Value(x), k) <==> (x >> k) & 1 == 1
    decreases k
  {
    hide Value, BitSet;
    if k == 0 {
      LowestBit(x);
    } else {
      BitSetBits(x >> 1, k - 1);
      ShiftTwice(x, k);
      HalfValue(x);
      MaskHalf(Value(x), k);
    }
  }

  lemma LowestBit(x: bv8)
    ensures BitSet(Value(x), 0) <==> (x >> 0) & 1 == 1
  {
    OddValue(x);
  }

  lemma ShiftTwice(x: bv8, k: nat)
    requires 1 <= k < 8
    ensures (x >> 1) >> (k - 1) == x >> k
  {
  }

  lemma MaskHalf(b: byte, k: nat)
    requires 1 <= k < 8
    ensures BitSet(b, k) <==> BitSet((b as int) / 2, k - 1)
  {
  }

  /** Mask(j) is an even multiple of Mask(k) for k < j. */
  lemma MaskRatio(k: nat, j: nat) returns (h: nat)
    requires k < j < 8
    ensures h > 0 && Mask(j) == Mask(k) * (2 * h)
  {
    h := Mask(j - k - 1);
    if k == 0 {
    } else {
      var h1 := MaskRatio(k - 1, j - 1);
      assert Mask(j) == 2 * Mask(j - 1) && Mask(k) == 2 * Mask(k - 1);
      assert Mask(j) == Mask(k) * (2 * h1);
      h := h1;
    }
  }

  lemma FlipRange(b: byte, k: nat)
    requires k < 8
    ensures BitSet(b, k) ==> (b as int) >= Mask(k)
    ensures !BitSet(b, k) ==> (b as int) + Mask(k) < 0x100
  {
    var m := Mask(k);
    DivMod(b, m);
    if !BitSet(b, k) && k < 7 {
      var h := MaskRatio(k, 7);
      AddBelow(b, m, 2 * h);
    }
  }

  /** With an even quotient below the even number 2 * e, one more `m` still fits below `m * 2 * e`. */
  lemma AddBelow(b: nat, m: nat, e: nat)
    requires m > 0 && e > 0 && b < m * e * 2 && b / m % 2 == 0
    ensures b + m < m * e * 2 + 1 && b + m <= m * e * 2 && (b + m) / m == b / m + 1 && b / m + 1 < 2 * e
  {
    DivMod(b, m);
    var q := b / m;
    if q >= 2 * e { MulMono(m, 2 * e, q); }
    MulMono(m, q + 2, 2 * e);
    assert m * (q + 2) == m * q + 2 * m && m * (2 * e) == m * e * 2;
    DivModIs(b + m, m, q + 1, b % m) by { assert m * (q + 1) == m * q + m; }
  }

  /** Shifting by an even multiple of `n` keeps bit values above; by an odd one flips the parity. */
  lemma ShiftQuotient(b: int, n: int, d: int)
    requires n > 0 && b >= 0 && b + n * d >= 0
    ensures (b + n * d) / n == b / n + d
  {
    DivMod(b, n);
    assert n * (b / n + d) == n * (b / n) + n * d;
    DivModIs(b + n * d, n, b / n + d, b % n);
  }

  lemma ParityShift(q: int, d: int)
    ensures (q + 2 * d) % 2 == q % 2
  {
  }

  /** The quotient by Mask(j) after flipping bit k. */
  lemma FlipQuotient(b: byte, k: nat, j: nat, x: int)
    requires k < 8 && j < 8 && x == (if BitSet(b, k) then -1 else 1)
    ensures (b as int) + Mask(k) * x >= 0
    ensures ((b as int) + Mask(k) * x) / Mask(j) % 2 ==
      if j == k then 1 - (b as int) / Mask(j) % 2 else (b as int) / Mask(j) % 2
  {
    hide Mask;
    FlipRange(b, k);
    var m, n := Mask(k), Mask(j);
    if j == k {
      ShiftQuotient(b, m, x);
    } else if j < k {
      var h := MaskRatio(j, k);
      BelowQuotient(b, n, h, x);
    } else {
      var h := MaskRatio(k, j);
      FlipAbove(b, m, 2 * h, x);
    }
  }

  lemma BelowQuotient(b: nat, n: nat, h: nat, x: int)
    requires n > 0 && b + n * (2 * h) * x >= 0
    ensures (b + n * (2 * h) * x) / n % 2 == b / n % 2
  {
    var d := h * x;
    assert n * (2 * h) * x == n * (2 * d);
    ShiftQuotient(b, n, 2 * d);
    ParityShift(b / n, d);
  }

  /** Flipping a bit flips that bit and no other. */
  lemma FlipBit(b: byte, k: nat, j: nat)
    requires k < 8 && j < 8
    ensures BitSet(Flip(b, k), j) == if j == k then !BitSet(b, k) else BitSet(b, j)
  {
    hide Mask;
    var x := if BitSet(b, k) then -1 else 1;
    FlipQuotient(b, k, j, x);
    assert (Flip(b, k) as int) == (b as int) + Mask(k) * x;
  }

  lemma FlipDigit(m: nat, e: nat, q: nat, t: nat, u: nat, x: int)
    requires 0 < m && t < e && u < m && 0 <= t + x < e
    ensures m * e > 0 && m * e * q + m * t + u + m * x >= 0 && (m * e * q + m * t + u + m * x) / (m * e) == q
  {
    Regroup(m, e, q, t + x);
    MulMono(m, 0, t + x);
    assert m * t + m * x == m * (t + x);
    NonNegProduct(m * e, q);
    DivModIs(m * e * q + m * (t + x) + u, m * e, q, m * (t + x) + u);
  }

  lemma SameParity(e: nat, p: nat, t: nat)
    requires e % 2 == 0
    ensures (e * p + t) % 2 == t % 2
  {
    var h := e / 2;
    assert e * p == 2 * (h * p);
    ParityShift(t, h * p);
  }

  /** The digits of `b` to the bases `m` and `e`. */
  lemma Digits(b: nat, m: nat, e: nat) returns (q: nat, t: nat, u: nat)
    requires m > 0 && e > 0
    ensures t < e && u < m && b == m * e * q + m * t + u && b / m == e * q + t && m * e > 0 && q == b / (m * e)
  {
    SplitDigits(b, m, e);
    q, t, u := b / m / e, b / m % e, b % m;
    DivMod(b, m);
    DivMod(b / m, e);
    assert m * (e * q + t) == m * e * q + m * t;
  }

  /** Flipping a low bit does not reach the quotient by a higher power. */
  lemma FlipAbove(b: nat, m: nat, e: nat, x: int)
    requires m > 0 && e > 0 && e % 2 == 0 && (if b / m % 2 == 1 then x == -1 else x == 1)
    ensures m * e > 0 && b + m * x >= 0 && (b + m * x) / (m * e) == b / (m * e)
  {
    var q, t, u := Digits(b, m, e);
    SameParity(e, q, t);
    FlipDigit(m, e, q, t, u, x);
  }

  /** `b ^ (1 << k)`. */
  function Flip(b: byte, k: nat): (r: byte)
    requires k < 8
  {
    FlipRange(b, k);
    if BitSet(b, k) then (b as int) - Mask(k) else (b as int) + Mask(k)
  }

  // ---------- the bitmap in the sector image ----------

  /** The bitmap lies in the cluster heap. */
  ghost predicate BitmapPlace(g: Geometry) {
    && g.fsType == ExFat && g.database <= g.bitbase
    && g.bitbase + (g.nFatent - 2 + 4095) / 4096 <= g.dataEnd
  }

  /** Bit `b`: is cluster `b + 2` in use? */
  predicate BitAt(g: Geometry, img: seq<Sector>, b: nat) {
    var s := g.bitbase + b / 8 / 512;
    s < |img| && BitSet(img[s][b / 8 % 512], b % 8)
  }

  /** The bitmap as a sequence over the clusters 2..nFatent. */
  ghost function Bits(g: Geometry, img: seq<Sector>): (r: seq<bool>)
    requires g.nFatent >= 2
    ensures |r| == g.nFatent - 2 && forall b :: 0 <= b < |r| ==> r[b] == BitAt(g, img, b)
  {
    seq(g.nFatent - 2, b requires 0 <= b < g.nFatent - 2 => BitAt(g, img, b))
  }

  lemma BitInside(g: Geometry, nsect: nat, b: nat)
    requires g.WellFormed(nsect) && BitmapPlace(g) && b < g.nFatent - 2
    ensures g.database <= g.bitbase + b / 8 / 512 < g.dataEnd <= nsect < 0xFFFF_FFFF
    ensures Plain(g, g.bitbase + b / 8 / 512) && !g.InFats(g.bitbase + b / 8 / 512)
  {
    assert b / 8 / 512 == b / 4096 by { SplitDigits(b, 8, 512); }
    assert b / 4096 + 1 <= (g.nFatent - 2 + 4095) / 4096;
  }

  /** The bitmap depends on sectors outside the FAT only. */
  lemma BitsFrame(g: Geometry, a: seq<Sector>, b: seq<Sector>)
    requires g.WellFormed(|a|) && BitmapPlace(g) && |a| == |b|
    requires forall s :: 0 <= s < |a| && !g.InFats(s) ==> a[s] == b[s]
    ensures Bits(g, a) == Bits(g, b)
  {
    hide BitSet, Geometry.WellFormed, BitmapPlace;
    forall c | 0 <= c < g.nFatent - 2
      ensures BitAt(g, a, c) == BitAt(g, b, c)
    {
      BitInside(g, |a|, c);
    }
  }

  /** Flipping one bit through the window over its sector. */
  lemma FlipInImage(g: Geometry, a: seq<Sector>, e: seq<Sector>, b: nat, c: nat)
    requires var s := g.bitbase + b / 8 / 512;
      s < |a| && |e| == |a| && e == a[s := a[s][b / 8 % 512 := Flip(a[s][b / 8 % 512], b % 8)]]
    ensures BitAt(g, e, c) == if c == b then !BitAt(g, a, b) else BitAt(g, a, c)
  {
    hide BitSet, Flip;
    var s := g.bitbase + b / 8 / 512;
    FlipBit(a[s][b / 8 % 512], b % 8, c % 8);
    BitPlaces(b, c);
  }

  /** A bit number is its sector, byte and bit in the byte. */
  lemma BitPlaces(b: nat, c: nat)
    ensures b / 8 / 512 == c / 8 / 512 && b / 8 % 512 == c / 8 % 512 && b % 8 == c % 8 ==> b == c
  {
    if b / 8 / 512 == c / 8 / 512 && b / 8 % 512 == c / 8 % 512 && b % 8 == c % 8 {
      SameDivMod(b / 8, c / 8, 512);
      SameDivMod(b, c, 8);
    }
  }

  // ---------- find_bitmap ----------

  /** Moves the window to the bitmap sector `k`. */
  method MoveToBits(fs: Fatfs, k: nat) returns (res: FResult)
    requires fs.Valid() && BitmapPlace(fs.g) && 8 * 512 * k < fs.g.nFatent - 2
    modifies fs`disk, fs`wflag, fs`medium, fs`winsect, fs.win
    ensures fs.Valid() && |fs.disk| == old(|fs.disk|) && fs.win.Length == 512
    ensures res == FrOk || res == FrDiskErr
    ensures res == FrOk ==> fs.winsect == fs.g.bitbase + k < |fs.disk| && fs.win[..] == fs.St().Logical()[fs.winsect]
    ensures res == FrOk ==> Plain(fs.g, fs.winsect) && fs.winsect != INVALID_SECTOR
    ensures Bits(fs.g, fs.St().Logical()) == old(Bits(fs.g, fs.St().Logical()))
    ensures Onward(old(fs.medium), fs.medium)
    ensures res != FrOk ==> Faulted(old(fs.medium), fs.medium)
  {
    hide FatOf, MirroredBut, WellLogged, WinState.Logical, BitAt, Bits;
    ghost var a := fs.St();
    BitInside(fs.g, |fs.disk|, 8 * 512 * k);
    assert 8 * 512 * k / 8 / 512 == k;
    res := MoveWindow(fs, fs.g.bitbase + k);
    BitsFrame(fs.g, a.Logical(), fs.St().Logical());
  }

  lemma WinBit(fs: Fatfs, s: nat, i: nat, k: nat)
    requires fs.win.Length == 512 && fs.winsect == fs.g.bitbase + s < |fs.disk| && i < 512 && k < 8
    requires fs.win[..] == fs.St().Logical()[fs.winsect]
    ensures BitSet(fs.win[i], k) == BitAt(fs.g, fs.St().Logical(), 8 * (512 * s + i) + k)
  {
    hide BitSet, WinState.Logical;
    BitNumber(s, i, k);
  }

  lemma BitNumber(s: nat, i: nat, k: nat)
    requires i < 512 && k < 8
    ensures var b := 8 * (512 * s + i) + k; b % 8 == k && b / 8 % 512 == i && b / 8 / 512 == s
  {
    DivModIs(8 * (512 * s + i) + k, 8, 512 * s + i, k);
    DivModIs(512 * s + i, 512, s, i);
  }

  /** The scan goes round the bitmap once: step `u` looks at this bit. */
  function Cyc(n: nat, u: nat): nat {
    if u < n then u else u - n
  }

  /** The `len` steps from `lo` on see clear bits only. */
  ghost predicate FreeStretch(bits: seq<bool>, lo: nat, len: nat)
    requires lo + len <= 2 * |bits|
  {
    forall k :: lo <= k < lo + len ==> !bits[Cyc(|bits|, k)]
  }

  /** No `ncl` steps in a row, between `start` and `hi`, see clear bits only. */
  ghost predicate NoStretch(bits: seq<bool>, start: nat, hi: nat, ncl: nat)
    requires hi <= 2 * |bits|
  {
    forall v: nat :: start <= v && v + ncl <= hi ==> !FreeStretch(bits, v, ncl)
  }

  /** The first `ncl` clear bits in a row, in the order of a scan that starts at `start` and goes round once, are those
      of the steps from `v` on. */
  ghost predicate FirstStretch(bits: seq<bool>, start: nat, v: nat, ncl: nat) {
    && ncl > 0 && start < |bits| && start <= v && v + ncl <= start + |bits|
    && FreeStretch(bits, v, ncl) && NoStretch(bits, start, v + ncl - 1, ncl)
  }

  /** Where the scan stands before step `u`: `ctr` clear bits in a row, from bit `scl` on, were seen last. */
  ghost predicate ScanAt(bits: seq<bool>, start: nat, u: nat, scl: nat, ctr: nat, ncl: nat) {
    && start < |bits| && start + ctr <= u < start + |bits| && ctr < ncl && scl == Cyc(|bits|, u - ctr)
    && FreeStretch(bits, u - ctr, ctr) && (u - ctr > start ==> bits[Cyc(|bits|, u - ctr - 1)])
    && NoStretch(bits, start, u, ncl)
  }

  lemma ScanStart(bits: seq<bool>, start: nat, ncl: nat)
    requires start < |bits| && ncl > 0
    ensures ScanAt(bits, start, start, start, 0, ncl)
  {
  }

  /** A clear bit lengthens the stretch, which may then be long enough. */
  lemma ScanFree(bits: seq<bool>, start: nat, u: nat, scl: nat, ctr: nat, ncl: nat)
    requires ScanAt(bits, start, u, scl, ctr, ncl) && !bits[Cyc(|bits|, u)]
    ensures ctr + 1 == ncl ==> FirstStretch(bits, start, u - ctr, ncl)
    ensures ctr + 1 < ncl ==> NoStretch(bits, start, u + 1, ncl)
    ensures ctr + 1 < ncl && u + 1 < start + |bits| ==> ScanAt(bits, start, u + 1, scl, ctr + 1, ncl)
  {
    if ctr + 1 < ncl {
      forall v: nat | start <= v && v + ncl <= u + 1
        ensures !FreeStretch(bits, v, ncl)
      {
        if v + ncl == u + 1 { assert v <= u - ctr - 1 < v + ncl; }
      }
    }
  }

  /** A set bit ends the stretch. */
  lemma ScanStep(bits: seq<bool>, start: nat, u: nat, scl: nat, ctr: nat, ncl: nat)
    requires ScanAt(bits, start, u, scl, ctr, ncl) && bits[Cyc(|bits|, u)]
    ensures NoStretch(bits, start, u + 1, ncl)
    ensures u + 1 < start + |bits| ==> ScanAt(bits, start, u + 1, Cyc(|bits|, u + 1), 0, ncl)
  {
    forall v: nat | start <= v && v + ncl <= u + 1
      ensures !FreeStretch(bits, v, ncl)
    {
      if v + ncl == u + 1 { assert v <= u < v + ncl; }
    }
  }

  lemma NextBit(n: nat, start: nat, u: nat)
    requires start < n && start <= u < start + n
    ensures Cyc(n, u) < n
    ensures Cyc(n, u + 1) == if Cyc(n, u) + 1 >= n then 0 else Cyc(n, u) + 1
    ensures Cyc(n, u + 1) == start <==> u + 1 == start + n
  {
  }

  /** The scan of find_bitmap inside the bitmap sector `s` in the window, bit by bit from `val` on. `done`: the
      answer is `r`; otherwise the scan goes on in the sector of `val`. */
  method ScanSector(win: seq<byte>, s: nat, n: u32, start: u32, val0: nat, scl0: nat, ctr0: nat, ncl: u32,
                    ghost bits: seq<bool>, ghost u0: nat)
    returns (done: bool, r: u32, val: nat, scl: nat, ctr: nat, ghost u: nat)
    requires |win| == 512 && |bits| == n as int && 0 < n <= 0x7FFF_FFFD
    requires ScanAt(bits, start, u0, scl0, ctr0, ncl) && val0 == Cyc(n, u0) && val0 / 8 / 512 == s
    requires forall i, k :: 0 <= i < 512 && 0 <= k < 8 && 8 * (512 * s + i) + k < n ==>
      BitSet(win[i], k) == bits[8 * (512 * s + i) + k]
    ensures !done ==> ScanAt(bits, start, u, scl, ctr, ncl) && val == Cyc(n, u) < n && u > u0
    ensures done && r == 0 ==> NoStretch(bits, start, start + n, ncl)
    ensures done && r != 0 ==> FirstStretch(bits, start, u, ncl) && r == Cyc(n, u) + 2
  {
    hide BitSet, ScanAt, Cyc, NoStretch, FirstStretch;
    done, r, val, scl, ctr, u := false, 0, val0, scl0, ctr0, u0;
    BitPosition(val);
    ScanRange(bits, start, u0, scl0, ctr0, ncl);
    NextBit(n, start, u);
    var i: nat, k: nat := val / 8 % 512, val % 8;
    while i < 512
      invariant i <= 512 && !done && start as int < n as int && start <= u < start + n
      invariant ScanAt(bits, start, u, scl, ctr, ncl) && val == Cyc(n, u) < n && u >= u0
      invariant i < 512 ==> k < 8 && val == 8 * (512 * s + i) + k
      invariant i == 512 ==> u > u0
      decreases 512 - i, 8 - k
    {
      var used := BitSet(win[i], k);
      ScanRange(bits, start, u, scl, ctr, ncl);
      NextBit(n, start, u);
      if used { ScanStep(bits, start, u, scl, ctr, ncl); } else { ScanFree(bits, start, u, scl, ctr, ncl); }
      k := k + 1;
      val := val + 1;
      if k == 8 { k, i := 0, i + 1; }
      if val >= n { val, i := 0, 512; }
      if !used {
        ctr := ctr + 1;
        if ctr == ncl as int {
          done, r, u := true, scl + 2, u + 1 - ctr;
          return;
        }
      } else {
        scl, ctr := val, 0;
      }
      u := u + 1;
      if val == start as int {
        done := true;
        return;
      }
      NextBit(n, start, u);
    }
  }

  lemma ScanRange(bits: seq<bool>, start: nat, u: nat, scl: nat, ctr: nat, ncl: nat)
    requires ScanAt(bits, start, u, scl, ctr, ncl)
    ensures start < |bits| && start <= u < start + |bits| && ctr < ncl && scl < |bits|
    ensures start + ctr <= u && scl == Cyc(|bits|, u - ctr)
  {
  }

  /** Where find_bitmap starts to scan. */
  function ScanFrom(g: Geometry, clst: u32): (start: nat)
    requires g.nFatent > 2
    ensures start < g.nFatent - 2
  {
    if Sub32(clst, 2) as int >= g.nFatent - 2 then 0 else Sub32(clst, 2)
  }

  /** Cluster `r` is where the first `ncl` clear bits in a row start that a scan from cluster `clst` on comes to. */
  ghost predicate PickedAt(g: Geometry, bits: seq<bool>, clst: u32, ncl: nat, r: nat)
    requires g.nFatent > 2
  {
    exists v :: FirstStretch(bits, ScanFrom(g, clst), v, ncl) && r == Cyc(g.nFatent - 2, v) + 2
  }

  /** find_bitmap: the first `ncl` clear bits in a row from cluster `clst` on, going round the bitmap once; 0 if there
      are none. For a single cluster: a free one, or 0 only if the bitmap is full. */
  method FindBitmap(fs: Fatfs, clst: u32, ncl: u32) returns (r: u32)
    requires fs.Valid() && BitmapPlace(fs.g) && ncl >= 1
    modifies fs`disk, fs`wflag, fs`medium, fs`winsect, fs.win
    ensures fs.Valid() && |fs.disk| == old(|fs.disk|) && fs.g.nFatent > 2
    ensures Bits(fs.g, fs.St().Logical()) == old(Bits(fs.g, fs.St().Logical()))
    ensures r == 0 ==> var start := ScanFrom(fs.g, clst);
      NoStretch(Bits(fs.g, fs.St().Logical()), start, start + (fs.g.nFatent - 2), ncl)
    ensures r != 0 && r != 0xFFFF_FFFF ==> PickedAt(fs.g, Bits(fs.g, fs.St().Logical()), clst, ncl, r)
    ensures ncl == 1 && r == 0 ==> forall b :: 0 <= b < fs.g.nFatent - 2 ==> Bits(fs.g, fs.St().Logical())[b]
    ensures ncl == 1 && r != 0 && r != 0xFFFF_FFFF ==>
      2 <= r < fs.g.nFatent && !Bits(fs.g, fs.St().Logical())[r - 2]
    ensures Onward(old(fs.medium), fs.medium)
    ensures r == 0xFFFF_FFFF ==> Faulted(old(fs.medium), fs.medium)
  {
    hide Fatfs.Valid, BitAt, Bits, WinState.Logical, BitSet, BitmapPlace, Geometry.WellFormed, ScanAt, Plain, Cyc,
         NoStretch, FirstStretch;
    ValidBasics(fs);
    HeapBound(fs.g, |fs.disk|);
    ghost var bits := Bits(fs.g, fs.St().Logical());
    var n: u32 := fs.g.nFatent - 2;
    var start := Sub32(clst, 2);
    if start >= n { start := 0; }
    var scl: nat, val: nat, ctr: nat := start, start, 0;
    ghost var u: nat := start;
    ScanStart(bits, start, ncl);
    StartBit(n, start);
    while true
      invariant fs.Valid() && Bits(fs.g, fs.St().Logical()) == bits && |fs.disk| == old(|fs.disk|)
      invariant Onward(old(fs.medium), fs.medium)
      invariant ScanAt(bits, start, u, scl, ctr, ncl) && val == Cyc(n, u) < n && u < start + n
      decreases start + n - u
    {
      BitPosition(val);
      var res := MoveToBits(fs, val / 8 / 512);
      if res != FrOk { return 0xFFFF_FFFF; }
      WinBits(fs, val / 8 / 512);
      var done;
      done, r, val, scl, ctr, u := ScanSector(fs.win[..], val / 8 / 512, n, start, val, scl, ctr, ncl, bits, u);
      if done {
        if r == 0 {
          if ncl == 1 { NoSingle(bits, start); }
        } else {
          StretchOfOne(bits, start, u, ncl);
          assert FirstStretch(bits, ScanFrom(fs.g, clst), u, ncl) && r == Cyc(fs.g.nFatent - 2, u) + 2;
        }
        return;
      }
      ScanRange(bits, start, u, scl, ctr, ncl);
    }
  }

  lemma StartBit(n: nat, start: nat)
    requires start < n
    ensures Cyc(n, start) == start
  {
  }

  lemma NoSingle(bits: seq<bool>, start: nat)
    requires start < |bits| && NoStretch(bits, start, start + |bits|, 1)
    ensures forall b :: 0 <= b < |bits| ==> bits[b]
  {
    forall b | 0 <= b < |bits|
      ensures bits[b]
    {
      var v := if b >= start then b else b + |bits|;
      assert !FreeStretch(bits, v, 1);
      assert Cyc(|bits|, v) == b;
    }
  }

  lemma StretchOfOne(bits: seq<bool>, start: nat, v: nat, ncl: nat)
    requires FirstStretch(bits, start, v, ncl)
    ensures Cyc(|bits|, v) < |bits| && !bits[Cyc(|bits|, v)]
  {
  }

  /** A block found is a block of consecutive free clusters if and only if it does not run over the end of the bitmap:
      the run counter is not reset where the scan wraps around. */
  lemma BlockExact(bits: seq<bool>, start: nat, v: nat, ncl: nat)
    requires FirstStretch(bits, start, v, ncl)
    ensures var b := Cyc(|bits|, v);
      (forall k: nat :: b <= k < b + ncl ==> ClusterFree(bits, k)) <==> b + ncl <= |bits|
  {
    var b := Cyc(|bits|, v);
    if b + ncl <= |bits| {
      forall k: nat | b <= k < b + ncl
        ensures ClusterFree(bits, k)
      {
        assert Cyc(|bits|, v + (k - b)) == k;
      }
    } else {
      assert !ClusterFree(bits, |bits|);
    }
  }

  /** There is a cluster number `k + 2`, and it is free. */
  predicate ClusterFree(bits: seq<bool>, k: nat) {
    k < |bits| && !bits[k]
  }

  /** Such a block: clusters 2 and 4 of three are free; from cluster 3 on, two in a row are found at cluster 4. */
  lemma BlockOverEnd()
    ensures FirstStretch([false, true, false], 1, 2, 2) && Cyc(3, 2) + 2 > 3
  {
    var bits := [false, true, false];
    assert Cyc(3, 1) == 1 && Cyc(3, 2) == 2 && Cyc(3, 3) == 0;
    assert !FreeStretch(bits, 1, 2) by { assert bits[Cyc(|bits|, 1)]; }
  }

  /** The window over bitmap sector `s` shows that stretch of the bitmap. */
  lemma WinBits(fs: Fatfs, s: nat)
    requires fs.win.Length == 512 && fs.winsect == fs.g.bitbase + s < |fs.disk| && fs.g.nFatent >= 2
    requires fs.win[..] == fs.St().Logical()[fs.winsect]
    ensures forall i, k :: 0 <= i < 512 && 0 <= k < 8 && 8 * (512 * s + i) + k < fs.g.nFatent - 2 ==>
      BitSet(fs.win[..][i], k) == Bits(fs.g, fs.St().Logical())[8 * (512 * s + i) + k]
  {
    hide BitSet, WinState.Logical, BitAt, Bits;
    forall i, k | 0 <= i < 512 && 0 <= k < 8 && 8 * (512 * s + i) + k < fs.g.nFatent - 2
      ensures BitSet(fs.win[..][i], k) == Bits(fs.g, fs.St().Logical())[8 * (512 * s + i) + k]
    {
      WinBit(fs, s, i, k);
    }
  }

  lemma HeapBound(g: Geometry, nsect: nat)
    requires g.WellFormed(nsect)
    ensures 2 < g.nFatent <= 0x7FFF_FFFF
  {
  }

  lemma BitPosition(b: nat)
    ensures b == 8 * (512 * (b / 8 / 512) + b / 8 % 512) + b % 8 && 8 * 512 * (b / 8 / 512) <= b
  {
    DivMod(b, 8);
    DivMod(b / 8, 512);
  }

  lemma BitsAt(g: Geometry, img: seq<Sector>, b: nat)
    requires b < g.nFatent - 2
    ensures Bits(g, img)[b] == BitAt(g, img, b)
  {
  }

  // ---------- change_bitmap ----------

  /** Flips bit `b` of the bitmap in the window, which gets dirty. */
  method FlipWinBit(fs: Fatfs, s: nat, i: nat, k: nat, ghost b: nat)
    requires fs.Valid() && BitmapPlace(fs.g) && i < 512 && k < 8 && b == 8 * (512 * s + i) + k < fs.g.nFatent - 2
    requires fs.win.Length == 512 && fs.winsect == fs.g.bitbase + s < |fs.disk| && Plain(fs.g, fs.winsect)
    requires fs.win[..] == fs.St().Logical()[fs.winsect] && fs.winsect != INVALID_SECTOR
    modifies fs`wflag, fs.win
    ensures fs.Valid() && fs.win[..] == fs.St().Logical()[fs.winsect]
    ensures var was := old(Bits(fs.g, fs.St().Logical()));
      Bits(fs.g, fs.St().Logical()) == was[b := !was[b]]
  {
    hide FatOf, Mirrored, BitAt, BitSet, Geometry.WellFormed, BitmapPlace, WinState.Coherent, Plain, Flip,
         WinState.Logical;
    ghost var a := fs.St();
    ghost var img := a.Logical();
    fs.win[i] := Flip(fs.win[i], k);
    fs.wflag := true;
    EditStep(fs.g, a, fs.St(), fs.fat);
    BitNumber(s, i, k);
    ghost var e := fs.St().Logical();
    assert e == img[fs.winsect := img[fs.winsect][i := Flip(img[fs.winsect][i], k)]] by {
      EditedImage(a, fs.St(), i, Flip(img[fs.winsect][i], k));
    }
    forall c | 0 <= c < fs.g.nFatent - 2
      ensures BitAt(fs.g, e, c) == if c == b then !BitAt(fs.g, img, b) else BitAt(fs.g, img, c)
    {
      FlipInImage(fs.g, img, e, b, c);
    }
  }

  lemma EditedImage(a: WinState, b: WinState, i: nat, v: byte)
    requires a.winsect < |a.disk| && |a.win| == 512 && a.win == a.Logical()[a.winsect] && i < 512
    requires b == a.(win := a.win[i := v], wflag := true)
    ensures b.Logical() == a.Logical()[a.winsect := a.Logical()[a.winsect][i := v]]
  {
  }

  /** `bits` with lo..hi set to `v`. */
  ghost predicate Filled(was: seq<bool>, bits: seq<bool>, lo: nat, hi: nat, v: bool) {
    |bits| == |was| && forall b :: 0 <= b < |was| ==> bits[b] == if lo <= b < hi then v else was[b]
  }

  lemma FilledNext(was: seq<bool>, bits: seq<bool>, lo: nat, hi: nat, v: bool)
    requires Filled(was, bits, lo, hi, v) && lo <= hi < |was| && bits[hi] != v
    ensures was[hi] == !v && Filled(was, bits[hi := !bits[hi]], lo, hi + 1, v)
  {
  }

  /** change_bitmap on the sector `s` in the window: from bit `b0` on, until `hi` or the end of the sector. */
  method ChangeSector(fs: Fatfs, s: nat, b0: nat, hi: nat, bv: bool, ghost lo: nat, ghost was: seq<bool>)
    returns (res: FResult, b: nat)
    requires fs.Valid() && BitmapPlace(fs.g) && fs.g.nFatent >= 2 && b0 < hi <= fs.g.nFatent - 2 && b0 / 8 / 512 == s
    requires fs.win.Length == 512 && fs.winsect == fs.g.bitbase + s < |fs.disk| && Plain(fs.g, fs.winsect)
    requires fs.win[..] == fs.St().Logical()[fs.winsect] && fs.winsect != INVALID_SECTOR
    requires lo <= b0 && |was| == fs.g.nFatent - 2 && Filled(was, Bits(fs.g, fs.St().Logical()), lo, b0, bv)
    modifies fs`wflag, fs.win
    ensures fs.Valid() && (res == FrOk || res == FrIntErr)
    ensures b0 <= b <= hi && Filled(was, Bits(fs.g, fs.St().Logical()), lo, b, bv)
    ensures res == FrOk ==> b0 < b
    ensures res == FrIntErr ==> b < hi && was[b] == bv
  {
    hide Fatfs.Valid, BitAt, Bits, WinState.Logical, BitSet, BitmapPlace, Geometry.WellFormed, Filled, Plain;
    b := b0;
    BitPosition(b);
    var i: nat, k: nat := b / 8 % 512, b % 8;
    while i < 512
      invariant i <= 512 && b0 <= b < hi && fs.Valid() && (i == 512 ==> b0 < b)
      invariant i < 512 ==> k < 8 && b == 8 * (512 * s + i) + k
      invariant fs.win.Length == 512 && fs.win[..] == fs.St().Logical()[fs.winsect]
      invariant Filled(was, Bits(fs.g, fs.St().Logical()), lo, b, bv)
      decreases 512 - i, 8 - k
    {
      ghost var bits := Bits(fs.g, fs.St().Logical());
      WinBit(fs, s, i, k);
      BitsAt(fs.g, fs.St().Logical(), b);
      if bv == BitSet(fs.win[i], k) {
        FilledAt(was, bits, lo, b, bv);
        return FrIntErr, b;
      }
      FlipWinBit(fs, s, i, k, b);
      FilledNext(was, bits, lo, b, bv);
      b := b + 1;
      if b == hi { return FrOk, b; }
      k := k + 1;
      if k == 8 { k, i := 0, i + 1; }
    }
    res := FrOk;
  }

  lemma FilledAt(was: seq<bool>, bits: seq<bool>, lo: nat, hi: nat, v: bool)
    requires Filled(was, bits, lo, hi, v) && hi < |was|
    ensures bits[hi] == was[hi]
  {
  }

  /** change_bitmap: on FR_OK exactly the `ncl` bits from cluster `clst` on went from !bv to bv; FR_INT_ERR reports
      that one of them had that value already. */
  method ChangeBitmap(fs: Fatfs, clst: u32, ncl: u32, bv: bool) returns (res: FResult)
    requires fs.Valid() && BitmapPlace(fs.g) && ncl >= 1 && 2 <= clst && clst as int + ncl as int <= fs.g.nFatent
    modifies fs`disk, fs`wflag, fs`medium, fs`winsect, fs.win
    ensures fs.Valid() && |fs.disk| == old(|fs.disk|)
    ensures res == FrOk || res == FrIntErr || res == FrDiskErr
    ensures res == FrOk ==>
      Filled(old(Bits(fs.g, fs.St().Logical())), Bits(fs.g, fs.St().Logical()), clst - 2, clst - 2 + ncl, bv)
    ensures res == FrIntErr ==>
      exists b :: clst - 2 <= b < clst - 2 + ncl && old(Bits(fs.g, fs.St().Logical()))[b] == bv
    ensures OthersKept(old(Bits(fs.g, fs.St().Logical())), Bits(fs.g, fs.St().Logical()), clst - 2, clst - 2 + ncl)
    // a failure leaves the bits from some point on as they were
    ensures res != FrOk ==>
      PartFilled(old(Bits(fs.g, fs.St().Logical())), Bits(fs.g, fs.St().Logical()), clst - 2, clst - 2 + ncl, bv)
    ensures Onward(old(fs.medium), fs.medium)
    ensures res == FrDiskErr ==> Faulted(old(fs.medium), fs.medium)
  {
    hide Fatfs.Valid, BitAt, Bits, WinState.Logical, BitSet, BitmapPlace, Geometry.WellFormed, Filled, Plain,
         OthersKept;
    ValidBasics(fs);
    HeapBound(fs.g, |fs.disk|);
    ghost var was := Bits(fs.g, fs.St().Logical());
    var lo: nat, hi: nat := clst - 2, clst - 2 + ncl;
    var b: nat := lo;
    FilledNothing(was, lo, bv);
    while true
      invariant fs.Valid() && |fs.disk| == old(|fs.disk|) && Onward(old(fs.medium), fs.medium)
      invariant lo <= b < hi && Filled(was, Bits(fs.g, fs.St().Logical()), lo, b, bv)
      decreases hi - b
    {
      BitPosition(b);
      res := MoveToBits(fs, b / 8 / 512);
      FilledOthers(was, Bits(fs.g, fs.St().Logical()), lo, b, hi, bv);
      if res != FrOk { return FrDiskErr; }
      res, b := ChangeSector(fs, b / 8 / 512, b, hi, bv, lo, was);
      FilledOthers(was, Bits(fs.g, fs.St().Logical()), lo, b, hi, bv);
      if res != FrOk || b == hi { return; }
    }
  }

  ghost predicate PartFilled(was: seq<bool>, bits: seq<bool>, lo: nat, hi: nat, v: bool) {
    exists b :: lo <= b < hi && Filled(was, bits, lo, b, v)
  }

  lemma NoneFilled(was: seq<bool>, bits: seq<bool>, lo: nat, v: bool)
    requires PartFilled(was, bits, lo, lo + 1, v)
    ensures bits == was
  {
  }

  /** The bits outside lo..hi are the same. */
  ghost predicate OthersKept(was: seq<bool>, bits: seq<bool>, lo: nat, hi: nat) {
    |bits| == |was| && forall b :: 0 <= b < |was| && !(lo <= b < hi) ==> bits[b] == was[b]
  }

  lemma FilledOthers(was: seq<bool>, bits: seq<bool>, lo: nat, m: nat, hi: nat, v: bool)
    requires Filled(was, bits, lo, m, v) && m <= hi
    ensures OthersKept(was, bits, lo, hi)
  {
  }

  lemma FilledNothing(was: seq<bool>, lo: nat, v: bool)
    ensures Filled(was, was, lo, lo, v)
  {
  }
}
