/** get_fat and put_fat: packed FAT entries behind the window. */
module FatAccess {
  import opened Bytes
  import opened Volume
  import opened Window
  import opened Arith

  // ---------- bytes of the FAT image ----------

  /** Offsets of a word or double word entry in its sector: it never straddles the sector end. */
  function WordOfs(c: nat): (o: nat)
    ensures o + 1 < 512 && o == c * 2 % 512 && (c * 2 + 1) % 512 == o + 1
  {
    DivModIs(c * 2, 512, c / 256, c % 256 * 2);
    DivModIs(c * 2 + 1, 512, c / 256, c % 256 * 2 + 1);
    c * 2 % 512
  }

  function DwordOfs(c: nat): (o: nat)
    ensures o + 3 < 512 && o == c * 4 % 512
    ensures (c * 4 + 1) % 512 == o + 1 && (c * 4 + 2) % 512 == o + 2 && (c * 4 + 3) % 512 == o + 3
  {
    DivModIs(c * 4, 512, c / 128, c % 128 * 4);
    DivModIs(c * 4 + 1, 512, c / 128, c % 128 * 4 + 1);
    DivModIs(c * 4 + 2, 512, c / 128, c % 128 * 4 + 2);
    DivModIs(c * 4 + 3, 512, c / 128, c % 128 * 4 + 3);
    c * 4 % 512
  }

  function SetByte(g: Geometry, img: seq<Sector>, k: nat, v: byte): (r: seq<Sector>)
    ensures |r| == |img|
  {
    var s := g.fatbase + k / 512;
    if s < |img| then img[s := img[s][k % 512 := v]] else img
  }

  lemma SetByteRead(g: Geometry, img: seq<Sector>, k: nat, v: byte, j: nat)
    requires g.fatbase + k / 512 < |img| && g.fatbase + j / 512 < |img|
    ensures FatByte(g, SetByte(g, img, k, v), j) == if j == k then v else FatByte(g, img, j)
  {
  }

  /** What get_fat returns for an entry that was set to `v`. */
  function Stored(g: Geometry, v: u32): nat {
    match g.fsType
    case Fat12 => v % 0x1000
    case Fat16 => v % 0x1_0000
    case Fat32 => v % 0x1000_0000
    case ExFat => v % 0x8000_0000
  }

  lemma EntryInside(g: Geometry, nsect: nat, c: nat)
    requires g.WellFormed(nsect) && c < g.nFatent
    ensures g.fsType == Fat12 ==> c + c / 2 + 1 < g.FatBytes()
    ensures g.fsType == Fat16 ==> c * 2 + 1 < g.FatBytes()
    ensures g.fsType == Fat32 || g.fsType == ExFat ==> c * 4 + 3 < g.FatBytes()
  {
  }

  lemma Inside12(g: Geometry, nsect: nat, c: nat)
    requires g.WellFormed(nsect) && g.fsType == Fat12 && c < g.nFatent
    ensures g.fatbase + (c + c / 2) / 512 < nsect && g.fatbase + (c + c / 2 + 1) / 512 < nsect
  {
    EntryInside(g, nsect, c);
    FatByteInside(g, nsect, c + c / 2);
    FatByteInside(g, nsect, c + c / 2 + 1);
  }

  lemma Inside16(g: Geometry, nsect: nat, c: nat)
    requires g.WellFormed(nsect) && g.fsType == Fat16 && c < g.nFatent
    ensures g.fatbase + c * 2 / 512 < nsect && g.fatbase + (c * 2 + 1) / 512 < nsect
  {
    EntryInside(g, nsect, c);
    FatByteInside(g, nsect, c * 2);
    FatByteInside(g, nsect, c * 2 + 1);
  }

  lemma Inside32(g: Geometry, nsect: nat, c: nat)
    requires g.WellFormed(nsect) && (g.fsType == Fat32 || g.fsType == ExFat) && c < g.nFatent
    ensures g.fatbase + c * 4 / 512 < nsect && g.fatbase + (c * 4 + 1) / 512 < nsect
    ensures g.fatbase + (c * 4 + 2) / 512 < nsect && g.fatbase + (c * 4 + 3) / 512 < nsect
  {
    EntryInside(g, nsect, c);
    FatByteInside(g, nsect, c * 4);
    FatByteInside(g, nsect, c * 4 + 1);
    FatByteInside(g, nsect, c * 4 + 2);
    FatByteInside(g, nsect, c * 4 + 3);
  }

  // ---------- FAT12: two entries share three bytes ----------

  function First12(c: nat, was: byte, v: u32): byte {
    if c % 2 == 1 then (was as int) % 0x10 + v % 0x10 * 0x10 else v % 0x100
  }

  function Second12(c: nat, was: byte, v: u32): byte {
    if c % 2 == 1 then v / 0x10 % 0x100 else (was as int) / 0x10 * 0x10 + v / 0x100 % 0x10
  }

  /** Writing the first byte disturbs no other entry. */
  lemma Put12First(g: Geometry, img: seq<Sector>, c: nat, v: u32, d: nat)
    requires g.WellFormed(|img|) && g.fsType == Fat12 && c < g.nFatent && d < g.nFatent && d != c
    ensures var k := c + c / 2;
      Entry12(g, SetByte(g, img, k, First12(c, FatByte(g, img, k), v)), d) == Entry12(g, img, d)
  {
    hide FatByte, SetByte, Geometry.WellFormed;
    Inside12(g, |img|, c);
    Inside12(g, |img|, d);
    var k := c + c / 2;
    var was := FatByte(g, img, k);
    var w := First12(c, was, v);
    SetByteRead(g, img, k, w, d + d / 2);
    SetByteRead(g, img, k, w, d + d / 2 + 1);
    Offset12(c);
    Offset12(d);
    if c % 2 == 1 && d == c - 1 {
      var x := FatByte(g, img, d + d / 2);
      assert d + d / 2 + 1 == k;
      LowNibble(w, v % 0x10, was, x);
    } else {
      assert d + d / 2 != k && d + d / 2 + 1 != k;
    }
  }

  lemma Offset12(c: nat)
    ensures c % 2 == 0 ==> c == 2 * (c / 2) && c + c / 2 == 3 * (c / 2)
    ensures c % 2 == 1 ==> c == 2 * (c / 2) + 1 && c + c / 2 == 3 * (c / 2) + 1
  {
  }

  /** Replacing the high nibble of the high byte does not change the lower 12 bits. */
  lemma LowNibble(w: byte, t: int, was: byte, x: byte)
    requires 0 <= t < 0x10 && w as int == (was as int) % 0x10 + t * 0x10
    ensures (x as int + 0x100 * (w as int)) % 0x1000 == (x as int + 0x100 * (was as int)) % 0x1000
  {
    var low: int := x as int + 0x100 * ((was as int) % 0x10);
    DivModIs(x as int + 0x100 * (w as int), 0x1000, t, low);
    DivModIs(x as int + 0x100 * (was as int), 0x1000, (was as int) / 0x10, low);
  }

  lemma Put12Second(g: Geometry, img: seq<Sector>, c: nat, v: u32, d: nat)
    requires g.WellFormed(|img|) && g.fsType == Fat12 && c < g.nFatent && d < g.nFatent && d != c
    ensures var k := c + c / 2 + 1;
      Entry12(g, SetByte(g, img, k, Second12(c, FatByte(g, img, k), v)), d) == Entry12(g, img, d)
  {
    hide FatByte, SetByte, Geometry.WellFormed;
    Inside12(g, |img|, c);
    Inside12(g, |img|, d);
    var k := c + c / 2 + 1;
    var was := FatByte(g, img, k);
    var w := Second12(c, was, v);
    SetByteRead(g, img, k, w, d + d / 2);
    SetByteRead(g, img, k, w, d + d / 2 + 1);
    Offset12(c);
    Offset12(d);
    if c % 2 == 0 && d == c + 1 {
      var y := FatByte(g, img, k + 1);
      assert d + d / 2 == k;
      HighNibble(w, v / 0x100 % 0x10, was, y);
    } else {
      assert d + d / 2 != k && d + d / 2 + 1 != k;
    }
  }

  /** Replacing the low nibble of the low byte does not change the upper 12 bits. */
  lemma HighNibble(w: byte, t: int, was: byte, y: byte)
    requires 0 <= t < 0x10 && w == was / 0x10 * 0x10 + t
    ensures (w as int + 0x100 * (y as int)) / 0x10 == (was as int + 0x100 * (y as int)) / 0x10
  {
    var hi: int := was / 0x10 + 0x10 * (y as int);
    DivModIs(w as int + 0x100 * (y as int), 0x10, hi, t);
    DivModIs(was as int + 0x100 * (y as int), 0x10, hi, was % 0x10);
  }

  /** With the first byte in place, writing the second makes the entry `v` cut to 12 bits. */
  lemma Put12Both(g: Geometry, mid: seq<Sector>, c: nat, v: u32, was: byte)
    requires g.WellFormed(|mid|) && g.fsType == Fat12 && c < g.nFatent
    requires FatByte(g, mid, c + c / 2) == First12(c, was, v)
    ensures var k := c + c / 2 + 1;
      Entry12(g, SetByte(g, mid, k, Second12(c, FatByte(g, mid, k), v)), c) == v % 0x1000
  {
    hide FatByte, SetByte, Geometry.WellFormed;
    Inside12(g, |mid|, c);
    var k := c + c / 2;
    var x := Second12(c, FatByte(g, mid, k + 1), v);
    SetByteRead(g, mid, k + 1, x, k);
    SetByteRead(g, mid, k + 1, x, k + 1);
    NibbleSplit(v);
    if c % 2 == 1 {
      DivModIs(First12(c, was, v) as int + 0x100 * (x as int), 0x10, v % 0x10 + 0x10 * (x as int), was % 0x10);
    } else {
      DivModIs(First12(c, was, v) as int + 0x100 * (x as int), 0x1000, FatByte(g, mid, k + 1) / 0x10,
               v % 0x100 + 0x100 * (v / 0x100 % 0x10));
    }
  }

  lemma NibbleSplit(v: u32)
    ensures v % 0x10 + v / 0x10 % 0x100 * 0x10 == v % 0x1000
    ensures v % 0x100 + v / 0x100 % 0x10 * 0x100 == v % 0x1000
  {
    SplitDigits(v, 0x10, 0x100);
    SplitDigits(v, 0x100, 0x10);
  }

  // ---------- FAT16 and FAT32 ----------

  function Put16(g: Geometry, img: seq<Sector>, c: nat, v: u32): seq<Sector>
    requires g.WellFormed(|img|) && g.fsType == Fat16 && c < g.nFatent
  {
    SetByte(g, SetByte(g, img, c * 2, v % 0x100), c * 2 + 1, v / 0x100 % 0x100)
  }

  lemma Put16Entry(g: Geometry, img: seq<Sector>, c: nat, v: u32, d: nat)
    requires g.WellFormed(|img|) && g.fsType == Fat16 && c < g.nFatent && d < g.nFatent
    ensures Entry16(g, Put16(g, img, c, v), d) == if d == c then v % 0x1_0000 else Entry16(g, img, d)
  {
    hide FatByte, SetByte, Geometry.WellFormed;
    Inside16(g, |img|, c);
    Inside16(g, |img|, d);
    var mid := SetByte(g, img, c * 2, v % 0x100);
    SetByteRead(g, mid, c * 2 + 1, v / 0x100 % 0x100, d * 2);
    SetByteRead(g, mid, c * 2 + 1, v / 0x100 % 0x100, d * 2 + 1);
    SetByteRead(g, img, c * 2, v % 0x100, d * 2);
    SetByteRead(g, img, c * 2, v % 0x100, d * 2 + 1);
    WordSplit(v);
  }

  function Put32(g: Geometry, img: seq<Sector>, c: nat, v: u32): (r: seq<Sector>)
    requires g.WellFormed(|img|) && (g.fsType == Fat32 || g.fsType == ExFat) && c < g.nFatent
    ensures |r| == |img|
  {
    var a := SetByte(g, img, c * 4, v % 0x100);
    var b := SetByte(g, a, c * 4 + 1, v / 0x100 % 0x100);
    var e := SetByte(g, b, c * 4 + 2, v / 0x1_0000 % 0x100);
    SetByte(g, e, c * 4 + 3, v / 0x100_0000)
  }

  lemma Put32Byte(g: Geometry, img: seq<Sector>, c: nat, v: u32, j: nat)
    requires g.WellFormed(|img|) && (g.fsType == Fat32 || g.fsType == ExFat) && c < g.nFatent && j < g.FatBytes()
    ensures FatByte(g, Put32(g, img, c, v), j) ==
      if j == c * 4 then v % 0x100
      else if j == c * 4 + 1 then v / 0x100 % 0x100
      else if j == c * 4 + 2 then v / 0x1_0000 % 0x100
      else if j == c * 4 + 3 then v / 0x100_0000
      else FatByte(g, img, j)
  {
    hide FatByte, SetByte, Geometry.WellFormed;
    Inside32(g, |img|, c);
    FatByteInside(g, |img|, j);
    var a := SetByte(g, img, c * 4, v % 0x100);
    var b := SetByte(g, a, c * 4 + 1, v / 0x100 % 0x100);
    var e := SetByte(g, b, c * 4 + 2, v / 0x1_0000 % 0x100);
    SetByteRead(g, img, c * 4, v % 0x100, j);
    SetByteRead(g, a, c * 4 + 1, v / 0x100 % 0x100, j);
    SetByteRead(g, b, c * 4 + 2, v / 0x1_0000 % 0x100, j);
    SetByteRead(g, e, c * 4 + 3, v / 0x100_0000, j);
  }

  lemma Put32Entry(g: Geometry, img: seq<Sector>, c: nat, v: u32, d: nat)
    requires g.WellFormed(|img|) && (g.fsType == Fat32 || g.fsType == ExFat) && c < g.nFatent && d < g.nFatent
    ensures Entry32(g, Put32(g, img, c, v), d) == if d == c then v else Entry32(g, img, d)
  {
    hide FatByte, SetByte, Put32;
    Put32Byte(g, img, c, v, d * 4);
    Put32Byte(g, img, c, v, d * 4 + 1);
    Put32Byte(g, img, c, v, d * 4 + 2);
    Put32Byte(g, img, c, v, d * 4 + 3);
    DwordSplit(v);
  }

  // ---------- frames ----------

  /** From `a` to `b` nothing outside the FAT copies changed, except that the sector dirty in the window at `a`
      may have been written out. If the window is dirty at `b`, it is still that sector or lies in the FAT. */
  ghost predicate FatOnly(g: Geometry, a: WinState, b: WinState) {
    && |b.disk| == |a.disk|
    && (forall s {:trigger b.disk[s]} :: 0 <= s < |a.disk| && !g.InFats(s) && !(a.wflag && s == a.winsect)
          ==> b.disk[s] == a.disk[s])
    && (forall s {:trigger b.Logical()[s]} :: 0 <= s < |a.disk| && !g.InFats(s) ==> b.Logical()[s] == a.Logical()[s])
    && (b.wflag ==> g.InFat1(b.winsect) || (a.wflag && b.winsect == a.winsect))
    && (b.winsect == a.winsect || g.InFat1(b.winsect) || b.winsect == INVALID_SECTOR)
  }

  lemma FatOnlySelf(g: Geometry, a: WinState)
    ensures FatOnly(g, a, a)
  {
  }

  lemma FatOnlyTrans(g: Geometry, a: WinState, b: WinState, c: WinState)
    requires FatOnly(g, a, b) && FatOnly(g, b, c)
    ensures FatOnly(g, a, c)
  {
    hide WinState.Logical;
    forall s | 0 <= s < |a.disk| && !g.InFats(s)
      ensures c.Logical()[s] == a.Logical()[s]
    {
      assert c.Logical()[s] == b.Logical()[s];
    }
  }

  lemma MovedFatOnly(g: Geometry, a: WinState, b: WinState)
    requires Flushed(g, a, b) && (b.wflag ==> a.wflag && b.winsect == a.winsect)
    requires b.winsect == a.winsect || g.InFat1(b.winsect) || b.winsect == INVALID_SECTOR
    ensures FatOnly(g, a, b)
  {
    hide WinState.Logical;
    forall s | 0 <= s < |a.disk| && !g.InFats(s)
      ensures b.Logical()[s] == a.Logical()[s]
    {
      assert !g.InFat2(s);
    }
  }

  /** Moves the window to the FAT sector holding byte `k` of the FAT. */
  method MoveToFatByte(fs: Fatfs, k: nat) returns (res: FResult)
    requires fs.Valid() && k < fs.g.FatBytes()
    modifies fs`disk, fs`wflag, fs`medium, fs`winsect, fs.win
    ensures fs.Valid()
    ensures res == FrOk || res == FrDiskErr
    ensures res != FrOk ==> Faulted(old(fs.medium), fs.medium)
    ensures FatOnly(fs.g, old(fs.St()), fs.St())
    ensures SameFatBytes(fs.g, old(fs.St()), fs.St())
    ensures res == FrOk ==> fs.g.InFat1(fs.winsect)
    ensures res == FrOk ==>
      fs.winsect == fs.g.fatbase + k / 512 < |fs.disk| && fs.win[..] == fs.St().Logical()[fs.winsect]
    ensures Onward(old(fs.medium), fs.medium)
    ensures !old(fs.wflag) ==> !fs.wflag && SameShown(old(fs.medium), fs.medium)
    ensures res == FrOk && old(fs.wflag) && old(fs.winsect) != fs.g.fatbase + k / 512 ==>
      fs.medium.at == |fs.log| - 1 && !fs.medium.damaged
    ensures res == FrOk ==> Refreshed(old(fs.medium), fs.medium, |fs.log|)
  {
    hide FatOf, MirroredBut, WellLogged, FatOnly, Flushed, WinState.Logical, SameFatBytes;
    FatByteInside(fs.g, |fs.disk|, k);
    res := MoveWindow(fs, fs.g.fatbase + k / 512);
    MovedFatOnly(fs.g, old(fs.St()), fs.St());
    FlushedSameBytes(fs.g, old(fs.St()), fs.St());
  }

  /** The bytes of the first FAT, as the file system sees them, are the same at `a` and `b`. */
  ghost predicate SameFatBytes(g: Geometry, a: WinState, b: WinState) {
    && g.WellFormed(|a.disk|) && |b.disk| == |a.disk|
    && (forall k :: 0 <= k < g.FatBytes() ==>
         g.fatbase + k / 512 < |a.disk| && FatByte(g, b.Logical(), k) == FatByte(g, a.Logical(), k))
  }

  lemma SameByteAt(g: Geometry, a: WinState, b: WinState, k: nat)
    requires SameFatBytes(g, a, b) && k < g.FatBytes()
    ensures g.fatbase + k / 512 < |a.disk| == |b.disk| && FatByte(g, b.Logical(), k) == FatByte(g, a.Logical(), k)
  {
  }

  lemma FlushedSameBytes(g: Geometry, a: WinState, b: WinState)
    requires g.WellFormed(|a.disk|) && Flushed(g, a, b)
    ensures SameFatBytes(g, a, b)
  {
    hide WinState.Logical;
    forall k | 0 <= k < g.FatBytes()
      ensures g.fatbase + k / 512 < |a.disk| && FatByte(g, b.Logical(), k) == FatByte(g, a.Logical(), k)
    {
      FatByteInside(g, |a.disk|, k);
      assert !g.InFat2(g.fatbase + k / 512);
    }
  }

  lemma WinByte(fs: Fatfs, k: nat)
    requires fs.win.Length == 512 && fs.winsect == fs.g.fatbase + k / 512 < |fs.disk|
    requires fs.win[..] == fs.St().Logical()[fs.winsect]
    ensures fs.win[k % 512] == FatByte(fs.g, fs.St().Logical(), k)
  {
  }

  /** get_fat, case FS_FAT12. */
  method GetFat12(fs: Fatfs, clst: u32) returns (val: u32)
    requires fs.Valid() && fs.g.fsType == Fat12 && 2 <= clst < fs.g.nFatent
    modifies fs`disk, fs`wflag, fs`medium, fs`winsect, fs.win
    ensures fs.Valid()
    ensures FatOnly(fs.g, old(fs.St()), fs.St())
    ensures val == fs.fat[clst] || val == 0xFFFF_FFFF
    ensures val == 0xFFFF_FFFF ==> Faulted(old(fs.medium), fs.medium)
    ensures val != 0xFFFF_FFFF ==> Refreshed(old(fs.medium), fs.medium, |fs.log|)
    ensures Onward(old(fs.medium), fs.medium) && (!old(fs.wflag) ==> SameShown(old(fs.medium), fs.medium))
  {
    hide InfoKept, MirroredBut, WellLogged, FatOnly, WinState.Logical, WinState.Coherent, Geometry.WellFormed, FatByte;
    EntryInside(fs.g, |fs.disk|, clst);
    val := 0xFFFF_FFFF;
    var bc: nat := clst + clst / 2;
    var res := MoveToFatByte(fs, bc);
    if res != FrOk { return; }
    ghost var mid := fs.St();
    var wc: nat := fs.win[bc % 512];
    WinByte(fs, bc);
    res := MoveToFatByte(fs, bc + 1);
    FatOnlyTrans(fs.g, old(fs.St()), mid, fs.St());
    if res != FrOk { return; }
    WinByte(fs, bc + 1);
    wc := wc + 0x100 * (fs.win[(bc + 1) % 512] as int);
    assert wc / 0x10 < 0x1000;
    val := if clst % 2 == 1 then wc / 0x10 else wc % 0x1000;
  }

  /** get_fat, case FS_FAT16. */
  method GetFat16(fs: Fatfs, clst: u32) returns (val: u32)
    requires fs.Valid() && fs.g.fsType == Fat16 && 2 <= clst < fs.g.nFatent
    modifies fs`disk, fs`wflag, fs`medium, fs`winsect, fs.win
    ensures fs.Valid()
    ensures FatOnly(fs.g, old(fs.St()), fs.St())
    ensures val == fs.fat[clst] || val == 0xFFFF_FFFF
    ensures val == 0xFFFF_FFFF ==> Faulted(old(fs.medium), fs.medium)
    ensures val != 0xFFFF_FFFF ==> Refreshed(old(fs.medium), fs.medium, |fs.log|)
    ensures Onward(old(fs.medium), fs.medium) && (!old(fs.wflag) ==> SameShown(old(fs.medium), fs.medium))
  {
    hide InfoKept, MirroredBut, WellLogged, FatOnly, WinState.Logical, WinState.Coherent, Geometry.WellFormed, FatByte,
         SameFatBytes, WordOfs;
    EntryInside(fs.g, |fs.disk|, clst);
    val := 0xFFFF_FFFF;
    var o := WordOfs(clst);
    var res := MoveToFatByte(fs, clst * 2);
    if res != FrOk { return; }
    WinByte(fs, clst * 2);
    assert (clst * 2 + 1) / 512 == clst * 2 / 512;
    WinByte(fs, clst * 2 + 1);
    val := LdWord(fs.win[..], o);
  }

  /** get_fat, case FS_FAT32 (the mask 0x0FFFFFFF) and the raw FAT of exFAT (the mask 0x7FFFFFFF). */
  method GetFat32(fs: Fatfs, clst: u32) returns (val: u32)
    requires fs.Valid() && (fs.g.fsType == Fat32 || fs.g.fsType == ExFat) && 2 <= clst < fs.g.nFatent
    modifies fs`disk, fs`wflag, fs`medium, fs`winsect, fs.win
    ensures fs.Valid()
    ensures FatOnly(fs.g, old(fs.St()), fs.St())
    ensures val == fs.fat[clst] || val == 0xFFFF_FFFF
    ensures val == 0xFFFF_FFFF ==> Faulted(old(fs.medium), fs.medium)
    ensures val != 0xFFFF_FFFF ==> Refreshed(old(fs.medium), fs.medium, |fs.log|)
    ensures Onward(old(fs.medium), fs.medium) && (!old(fs.wflag) ==> SameShown(old(fs.medium), fs.medium))
  {
    hide InfoKept, MirroredBut, WellLogged, FatOnly, WinState.Logical, WinState.Coherent, Geometry.WellFormed, FatByte,
         SameFatBytes, FatOf, Entry32, DwordOfs;
    ValidBasics(fs);
    EntryInside(fs.g, |fs.disk|, clst);
    val := 0xFFFF_FFFF;
    var res := MoveToFatByte(fs, clst * 4);
    if res != FrOk { return; }
    ValidBasics(fs);
    WinDword(fs, clst);
    EntryIs32(fs.g, fs.St().Logical(), fs.fat, clst);
    var d: nat := LdDword(fs.win[..], DwordOfs(clst));
    val := if fs.g.fsType == Fat32 then d % 0x1000_0000 else d % 0x8000_0000;
  }

  lemma EntryIs32(g: Geometry, img: seq<Sector>, fat: seq<nat>, c: nat)
    requires FatOf(g, img, fat) && (g.fsType == Fat32 || g.fsType == ExFat) && c < g.nFatent
    ensures fat[c] == if g.fsType == Fat32 then Entry32(g, img, c) % 0x1000_0000 else Entry32(g, img, c) % 0x8000_0000
  {
  }

  /** get_fat on FAT12/16/32; on exFAT, the value the raw FAT holds. */
  method GetFat(fs: Fatfs, clst: u32) returns (val: u32)
    requires fs.Valid()
    modifies fs`disk, fs`wflag, fs`medium, fs`winsect, fs.win
    ensures fs.Valid()
    ensures FatOnly(fs.g, old(fs.St()), fs.St())
    ensures !(2 <= clst < fs.g.nFatent) ==> val == 1
    ensures 2 <= clst < fs.g.nFatent ==> val == fs.fat[clst] || val == 0xFFFF_FFFF
    // it fails only with the device
    ensures val == 0xFFFF_FFFF ==> Faulted(old(fs.medium), fs.medium)
    ensures val != 0xFFFF_FFFF ==> Refreshed(old(fs.medium), fs.medium, |fs.log|)
    ensures Onward(old(fs.medium), fs.medium) && (!old(fs.wflag) ==> SameShown(old(fs.medium), fs.medium))
  {
    hide Fatfs.Valid, FatOnly;
    FatOnlySelf(fs.g, fs.St());
    if clst < 2 || clst >= fs.g.nFatent {
      val := 1;
    } else {
      match fs.g.fsType
      case Fat12 => val := GetFat12(fs, clst);
      case Fat16 => val := GetFat16(fs, clst);
      case Fat32 => val := GetFat32(fs, clst);
      case ExFat => val := GetFat32(fs, clst);
    }
  }

  // ---------- put_fat ----------

  /** Stores one byte through the window, which gets dirty. */
  method PokeFatByte(fs: Fatfs, k: nat, v: byte)
    requires fs.St().Coherent(fs.g) && k < fs.g.FatBytes()
    requires fs.win.Length == 512 && fs.winsect == fs.g.fatbase + k / 512 < |fs.disk|
    requires fs.win[..] == fs.St().Logical()[fs.winsect]
    modifies fs`wflag, fs.win
    ensures fs.St().Coherent(fs.g)
    ensures fs.St().Logical() == SetByte(fs.g, old(fs.St().Logical()), k, v)
    ensures fs.win[..] == fs.St().Logical()[fs.winsect]
    ensures FatOnly(fs.g, old(fs.St()), fs.St())
    ensures fs.wflag
  {
    FatByteInside(fs.g, |fs.disk|, k);
    ghost var a := fs.St();
    fs.win[k % 512] := v;
    fs.wflag := true;
    PokeStep(fs.g, a, fs.St(), k, v);
  }

  lemma PokeStep(g: Geometry, a: WinState, b: WinState, k: nat, v: byte)
    requires a.Coherent(g) && g.InFat1(a.winsect) && a.winsect == g.fatbase + k / 512 < |a.disk|
    requires a.win == a.Logical()[a.winsect] && b == a.(win := a.win[k % 512 := v], wflag := true)
    ensures b.Coherent(g) && FatOnly(g, a, b) && b.Logical() == SetByte(g, a.Logical(), k, v)
    ensures b.win == b.Logical()[b.winsect]
  {
    assert b.Logical() == SetByte(g, a.Logical(), k, v);
  }

  /** An entry that held `was` and got the first byte of `v`. */
  function Half12(c: nat, was: nat, v: u32): nat {
    if c % 2 == 1 then was / 0x10 * 0x10 + v % 0x10 else was / 0x100 * 0x100 + v % 0x100
  }

  /** With the first byte stored the entry is half old, half new. */
  lemma Put12Half(g: Geometry, img: seq<Sector>, c: nat, v: u32)
    requires g.WellFormed(|img|) && g.fsType == Fat12 && c < g.nFatent
    ensures var k := c + c / 2;
      Entry12(g, SetByte(g, img, k, First12(c, FatByte(g, img, k), v)), c) == Half12(c, Entry12(g, img, c), v)
  {
    hide FatByte, SetByte, Geometry.WellFormed;
    Inside12(g, |img|, c);
    var k := c + c / 2;
    var was, next := FatByte(g, img, k) as int, FatByte(g, img, k + 1) as int;
    var x := First12(c, was, v) as int;
    SetByteRead(g, img, k, x, k);
    SetByteRead(g, img, k, x, k + 1);
    if c % 2 == 1 {
      DivModIs(x + 0x100 * next, 0x10, v % 0x10 + 0x10 * next, was % 0x10);
      DivModIs(was + 0x100 * next, 0x10, was / 0x10 + 0x10 * next, was % 0x10);
      DivModIs(was / 0x10 + 0x10 * next, 0x10, next, was / 0x10);
    } else {
      DivModIs(x + 0x100 * next, 0x1000, next / 0x10, v % 0x100 + 0x100 * (next % 0x10));
      DivModIs(was + 0x100 * next, 0x1000, next / 0x10, was + 0x100 * (next % 0x10));
      DivModIs(was + 0x100 * (next % 0x10), 0x100, next % 0x10, was);
    }
  }

  /** FAT12 after the first byte: the entry is torn, all others stand. */
  lemma Put12FirstFat(g: Geometry, img: seq<Sector>, fat: seq<nat>, c: nat, v: u32)
    requires FatOf(g, img, fat) && g.fsType == Fat12 && c < g.nFatent
    ensures var k := c + c / 2;
      FatOf(g, SetByte(g, img, k, First12(c, FatByte(g, img, k), v)), fat[c := Half12(c, fat[c], v)])
  {
    hide SetByte, FatByte, First12, Entry12, Half12;
    var k := c + c / 2;
    var img1 := SetByte(g, img, k, First12(c, FatByte(g, img, k), v));
    forall d | 0 <= d < |fat|
      ensures fat[c := Half12(c, fat[c], v)][d] == Entry(g, img1, d)
    {
      if d == c { Put12Half(g, img, c, v); } else { Put12First(g, img, c, v, d); }
    }
  }

  lemma Put12SecondFat(g: Geometry, mid: seq<Sector>, fat: seq<nat>, torn: seq<nat>, c: nat, v: u32, was: byte)
    requires FatOf(g, mid, torn) && g.fsType == Fat12 && c < g.nFatent
    requires FatByte(g, mid, c + c / 2) == First12(c, was, v)
    requires |torn| == |fat| && forall d :: 0 <= d < |fat| && d != c ==> torn[d] == fat[d]
    ensures var k := c + c / 2 + 1;
      FatOf(g, SetByte(g, mid, k, Second12(c, FatByte(g, mid, k), v)), fat[c := v % 0x1000])
  {
    hide SetByte, FatByte, First12, Second12, Entry12;
    var k := c + c / 2 + 1;
    var end := SetByte(g, mid, k, Second12(c, FatByte(g, mid, k), v));
    forall d | 0 <= d < |fat|
      ensures Entry(g, end, d) == fat[c := v % 0x1000][d]
    {
      if d == c {
        Put12Both(g, mid, c, v, was);
      } else {
        Put12Second(g, mid, c, v, d);
      }
    }
  }

  lemma Put16Fat(g: Geometry, img: seq<Sector>, fat: seq<nat>, c: nat, v: u32)
    requires FatOf(g, img, fat) && g.fsType == Fat16 && c < g.nFatent
    ensures FatOf(g, Put16(g, img, c, v), fat[c := v % 0x1_0000])
  {
    hide Entry16, SetByte;
    forall d | 0 <= d < |fat|
      ensures Entry(g, Put16(g, img, c, v), d) == fat[c := v % 0x1_0000][d]
    {
      Put16Entry(g, img, c, v, d);
    }
  }

  lemma Put32Fat(g: Geometry, img: seq<Sector>, fat: seq<nat>, c: nat, v: u32)
    requires FatOf(g, img, fat) && (g.fsType == Fat32 || g.fsType == ExFat) && c < g.nFatent
    ensures FatOf(g, Put32(g, img, c, v), fat[c := Stored(g, v)])
  {
    hide Entry32, SetByte;
    forall d | 0 <= d < |fat|
      ensures Entry(g, Put32(g, img, c, v), d) == fat[c := Stored(g, v)][d]
    {
      Put32Entry(g, img, c, v, d);
    }
  }

  /** The DWORD put_fat stores on FAT32: 28 bits of the value under the 4 reserved bits found on the medium. */
  function Keep4(v: u32, was: u32): (r: u32)
    ensures r % 0x1000_0000 == v % 0x1000_0000 && r / 0x1000_0000 == was / 0x1000_0000
  {
    DivModIs(v % 0x1000_0000 + was / 0x1000_0000 * 0x1000_0000, 0x1000_0000, was / 0x1000_0000, v % 0x1000_0000);
    v % 0x1000_0000 + was / 0x1000_0000 * 0x1000_0000
  }

  /** How put_fat of `v` on cluster `c` extends the history of the FAT: by one state, or by none if it fails. Only an
      entry that straddles two sectors goes through a torn state, and is left in it if the second move fails. */
  ghost predicate PutLogged(g: Geometry, c: nat, v: u32, ok: bool, fat0: seq<nat>, log0: seq<LogEntry>,
                            fat1: seq<nat>, log1: seq<LogEntry>)
    requires c < |fat0|
  {
    var torn := Torn(fat0[c := Half12(c, fat0[c], v)], c);
    if !Straddles(g, c) then
      if ok then log1 == log0 + [Whole(fat1)] else log1 == log0 && fat1 == fat0
    else if ok then
      log1 == log0 + [torn, Whole(fat1)]
    else
      (log1 == log0 && fat1 == fat0) || (log1 == log0 + [torn] && fat1 == torn.fat)
  }

  /** One more state keeps the history well-formed. */
  lemma LogGrown(g: Geometry, log0: seq<LogEntry>, e: LogEntry)
    requires WellLogged(g, log0) && |log0| > 0
    requires e.Torn? ==> OneTorn(g, log0[|log0| - 1].fat, e)
    ensures WellLogged(g, log0 + [e])
  {
    hide OneTorn;
    var log1 := log0 + [e];
    forall i | 0 <= i < |log1| && log1[i].Torn?
      ensures 0 < i && OneTorn(g, log1[i - 1].fat, log1[i])
    {
      assert i > 0 ==> log1[i - 1] == log0[i - 1];
    }
  }

  /** The first store of put_fat in case FS_FAT12; `was` is the byte replaced. */
  method StoreFirst12(fs: Fatfs, clst: u32, val: u32, ghost before: seq<nat>) returns (ghost was: byte)
    requires fs.St().Coherent(fs.g) && fs.g.fsType == Fat12 && 2 <= clst < fs.g.nFatent
    requires FatOf(fs.g, fs.St().Logical(), before)
    requires fs.win.Length == 512 && fs.winsect == fs.g.fatbase + (clst + clst / 2) / 512 < |fs.disk|
    requires fs.win[..] == fs.St().Logical()[fs.winsect]
    modifies fs`wflag, fs.win
    ensures fs.St().Coherent(fs.g) && fs.wflag && FatOnly(fs.g, old(fs.St()), fs.St())
    ensures fs.win[..] == fs.St().Logical()[fs.winsect]
    ensures clst < |before| && FatOf(fs.g, fs.St().Logical(), before[clst := Half12(clst, before[clst], val)])
    ensures FatByte(fs.g, fs.St().Logical(), clst + clst / 2) == First12(clst, was, val)
  {
    hide FatOnly, WinState.Logical, WinState.Coherent, Geometry.WellFormed, FatByte, SetByte, First12, Half12;
    ghost var b := fs.St();
    var bc: nat := clst + clst / 2;
    CoherentBasics(fs.g, b);
    EntryInside(fs.g, |fs.disk|, clst);
    WinByte(fs, bc);
    was := fs.win[bc % 512];
    PokeFatByte(fs, bc, First12(clst, fs.win[bc % 512], val));
    Put12FirstFat(fs.g, b.Logical(), before, clst, val);
    SetByteRead(fs.g, b.Logical(), bc, First12(clst, was, val), bc);
  }

  /** The second store: the entry is complete. */
  method StoreSecond12(fs: Fatfs, clst: u32, val: u32, ghost before: seq<nat>, ghost was: byte)
    requires fs.St().Coherent(fs.g) && fs.g.fsType == Fat12 && 2 <= clst < fs.g.nFatent && clst < |before|
    requires FatOf(fs.g, fs.St().Logical(), before[clst := Half12(clst, before[clst], val)])
    requires FatByte(fs.g, fs.St().Logical(), clst + clst / 2) == First12(clst, was, val)
    requires fs.win.Length == 512 && fs.winsect == fs.g.fatbase + (clst + clst / 2 + 1) / 512 < |fs.disk|
    requires fs.win[..] == fs.St().Logical()[fs.winsect]
    modifies fs`wflag, fs.win
    ensures fs.St().Coherent(fs.g) && fs.wflag && FatOnly(fs.g, old(fs.St()), fs.St())
    ensures FatOf(fs.g, fs.St().Logical(), before[clst := val % 0x1000])
  {
    hide FatOnly, WinState.Logical, WinState.Coherent, Geometry.WellFormed, FatByte, SetByte, First12, Second12,
         Half12, FatOf;
    ghost var b := fs.St();
    var bc: nat := clst + clst / 2;
    CoherentBasics(fs.g, b);
    EntryInside(fs.g, |fs.disk|, clst);
    WinByte(fs, bc + 1);
    PokeFatByte(fs, bc + 1, Second12(clst, fs.win[(bc + 1) % 512], val));
    Put12SecondFat(fs.g, b.Logical(), before, before[clst := Half12(clst, before[clst], val)], clst, val, was);
  }

  /** put_fat, case FS_FAT12, first byte of an entry that straddles two sectors; `was` is the byte replaced. */
  method PutFat12First(fs: Fatfs, clst: u32, val: u32) returns (res: FResult, ghost was: byte)
    requires fs.Valid() && fs.g.fsType == Fat12 && 2 <= clst < fs.g.nFatent && Straddles(fs.g, clst)
    modifies fs`disk, fs`wflag, fs`medium, fs`winsect, fs.win, fs`fat, fs`log
    ensures fs.Valid() && fs.g.WellFormed(|fs.disk|)
    ensures res == FrOk || res == FrDiskErr
    ensures res != FrOk ==> Faulted(old(fs.medium), fs.medium)
    ensures FatOnly(fs.g, old(fs.St()), fs.St())
    ensures res == FrOk ==> FatByte(fs.g, fs.St().Logical(), clst + clst / 2) == First12(clst, was, val)
    ensures res == FrOk ==> fs.wflag && fs.winsect == fs.g.fatbase + (clst + clst / 2) / 512
    ensures if res == FrOk
            then clst < |old(fs.fat)| && fs.fat == old(fs.fat)[clst := Half12(clst, old(fs.fat)[clst], val)]
                 && fs.log == old(fs.log) + [Torn(fs.fat, clst)]
            else fs.log == old(fs.log) && fs.fat == old(fs.fat)
    ensures Onward(old(fs.medium), fs.medium)
  {
    hide InfoKept, MirroredBut, FatOnly, WinState.Logical, WinState.Coherent, Geometry.WellFormed, FatByte,
         SameFatBytes, FatOf, SetByte, First12, Half12, WellLogged;
    ghost var a := fs.St();
    was := 0;
    ValidBasics(fs);
    EntryInside(fs.g, |fs.disk|, clst);
    var bc: nat := clst + clst / 2;
    res := MoveToFatByte(fs, bc);
    ValidBasics(fs);
    if res != FrOk { return; }
    ghost var b := fs.St();
    was := StoreFirst12(fs, clst, val, fs.fat);
    fs.fat := fs.fat[clst := Half12(clst, fs.fat[clst], val)];
    LogGrown(fs.g, fs.log, Torn(fs.fat, clst));
    fs.log := fs.log + [Torn(fs.fat, clst)];
    FatOnlyTrans(fs.g, a, b, fs.St());
  }

  /** ... and its second byte, in the next sector: moving there brings the torn entry to the medium. */
  method PutFat12Second(fs: Fatfs, clst: u32, val: u32, ghost before: seq<nat>, ghost was: byte) returns (res: FResult)
    requires fs.Valid() && fs.g.fsType == Fat12 && 2 <= clst < fs.g.nFatent && Straddles(fs.g, clst)
    requires clst < |before| && fs.fat == before[clst := Half12(clst, before[clst], val)]
    requires FatByte(fs.g, fs.St().Logical(), clst + clst / 2) == First12(clst, was, val)
    requires fs.wflag && fs.winsect == fs.g.fatbase + (clst + clst / 2) / 512
    modifies fs`disk, fs`wflag, fs`medium, fs`winsect, fs.win, fs`fat, fs`log
    ensures fs.Valid() && FatOnly(fs.g, old(fs.St()), fs.St())
    ensures res == FrOk || res == FrDiskErr
    ensures res != FrOk ==> Faulted(old(fs.medium), fs.medium)
    ensures res != FrOk ==> fs.fat == old(fs.fat) && fs.log == old(fs.log)
    ensures res == FrOk ==> fs.g.InFat1(fs.winsect)
    ensures res == FrOk ==> fs.fat == before[clst := val % 0x1000] && fs.log == old(fs.log) + [Whole(fs.fat)]
    ensures res == FrOk ==> fs.medium.at == |old(fs.log)| - 1 && !fs.medium.damaged
    ensures Onward(old(fs.medium), fs.medium)
  {
    hide InfoKept, Onward, Faulted, MirroredBut, FatOnly, WinState.Logical, WinState.Coherent, Geometry.WellFormed,
         FatByte, SameFatBytes, FatOf, SetByte, First12, Second12, Half12, WellLogged;
    ValidBasics(fs);
    EntryInside(fs.g, |fs.disk|, clst);
    var bc: nat := clst + clst / 2;
    ghost var a := fs.St();
    res := MoveToFatByte(fs, bc + 1);
    if res != FrOk { return; }
    SameByteAt(fs.g, a, fs.St(), bc);
    ghost var b := fs.St();
    StoreSecond12(fs, clst, val, before, was);
    FatOnlyTrans(fs.g, a, b, fs.St());
    fs.fat := before[clst := val % 0x1000];
    LogGrown(fs.g, fs.log, Whole(fs.fat));
    fs.log := fs.log + [Whole(fs.fat)];
  }

  /** put_fat, case FS_FAT12, of an entry that straddles two sectors: its first byte is flushed, with the entry torn,
      before the second is stored. */
  method PutFat12Across(fs: Fatfs, clst: u32, val: u32) returns (res: FResult)
    requires fs.Valid() && fs.g.fsType == Fat12 && 2 <= clst < fs.g.nFatent && Straddles(fs.g, clst)
    modifies fs`disk, fs`wflag, fs`medium, fs`winsect, fs.win, fs`fat, fs`log
    ensures fs.Valid() && clst < |old(fs.fat)|
    ensures res == FrOk ==> fs.g.InFat1(fs.winsect)
    ensures res == FrOk || res == FrDiskErr
    ensures res != FrOk ==> Faulted(old(fs.medium), fs.medium)
    ensures FatOnly(fs.g, old(fs.St()), fs.St())
    ensures res == FrOk ==> fs.fat == old(fs.fat)[clst := Stored(fs.g, val)]
    ensures PutLogged(fs.g, clst, val, res == FrOk, old(fs.fat), old(fs.log), fs.fat, fs.log)
    // a success leaves the medium in the torn state
    ensures Onward(old(fs.medium), fs.medium)
    ensures res == FrOk ==> fs.medium.at == |fs.log| - 2 && !fs.medium.damaged
  {
    hide Fatfs.Valid, Onward, Faulted, FatOnly, WinState.Logical, Geometry.WellFormed, FatByte, First12, Half12;
    ghost var a, before, m0 := fs.St(), fs.fat, fs.medium;
    ghost var was: byte;
    ValidBasics(fs);
    res, was := PutFat12First(fs, clst, val);
    if res != FrOk { return; }
    ghost var b, m1 := fs.St(), fs.medium;
    res := PutFat12Second(fs, clst, val, before, was);
    OnwardTrans(m0, m1, fs.medium);
    FatOnlyTrans(fs.g, a, b, fs.St());
  }

  /** put_fat, case FS_FAT12, of an entry inside one sector: the second move_window finds its sector in the window. */
  method PutFat12Inside(fs: Fatfs, clst: u32, val: u32) returns (res: FResult)
    requires fs.Valid() && fs.g.fsType == Fat12 && 2 <= clst < fs.g.nFatent && !Straddles(fs.g, clst)
    modifies fs`disk, fs`wflag, fs`medium, fs`winsect, fs.win, fs`fat, fs`log
    ensures fs.Valid() && clst < |old(fs.fat)|
    ensures res == FrOk ==> fs.g.InFat1(fs.winsect)
    ensures res == FrOk || res == FrDiskErr
    ensures res != FrOk ==> Faulted(old(fs.medium), fs.medium)
    ensures FatOnly(fs.g, old(fs.St()), fs.St())
    ensures res == FrOk ==> fs.fat == old(fs.fat)[clst := Stored(fs.g, val)]
    ensures PutLogged(fs.g, clst, val, res == FrOk, old(fs.fat), old(fs.log), fs.fat, fs.log)
    ensures Onward(old(fs.medium), fs.medium) && (!old(fs.wflag) ==> SameShown(old(fs.medium), fs.medium))
  {
    hide InfoKept, MirroredBut, FatOnly, WinState.Logical, WinState.Coherent, Geometry.WellFormed, FatByte,
         SameFatBytes, FatOf, SetByte, First12, Second12, Half12, WellLogged;
    ghost var a, before := fs.St(), fs.fat;
    ValidBasics(fs);
    EntryInside(fs.g, |fs.disk|, clst);
    var bc: nat := clst + clst / 2;
    res := MoveToFatByte(fs, bc);
    ValidBasics(fs);
    if res != FrOk { return; }
    ghost var b := fs.St();
    ghost var was := StoreFirst12(fs, clst, val, before);
    FatOnlyTrans(fs.g, a, b, fs.St());
    b := fs.St();
    SameSector(bc);
    StoreSecond12(fs, clst, val, before, was);
    FatOnlyTrans(fs.g, a, b, fs.St());
    fs.fat := before[clst := val % 0x1000];
    LogGrown(fs.g, fs.log, Whole(fs.fat));
    fs.log := fs.log + [Whole(fs.fat)];
  }

  lemma SameSector(k: nat)
    requires k % 512 != 511
    ensures (k + 1) / 512 == k / 512
  {
  }

  /** put_fat, case FS_FAT16. */
  method PutFat16(fs: Fatfs, clst: u32, val: u32) returns (res: FResult)
    requires fs.Valid() && fs.g.fsType == Fat16 && 2 <= clst < fs.g.nFatent
    modifies fs`disk, fs`wflag, fs`medium, fs`winsect, fs.win, fs`fat, fs`log
    ensures fs.Valid()
    ensures res == FrOk ==> fs.g.InFat1(fs.winsect)
    ensures res == FrOk || res == FrDiskErr
    ensures res != FrOk ==> Faulted(old(fs.medium), fs.medium)
    ensures FatOnly(fs.g, old(fs.St()), fs.St())
    ensures res == FrOk ==> fs.fat == old(fs.fat)[clst := Stored(fs.g, val)] && fs.log == old(fs.log) + [Whole(fs.fat)]
    ensures res != FrOk ==> fs.fat == old(fs.fat) && fs.log == old(fs.log)
    ensures Onward(old(fs.medium), fs.medium) && (!old(fs.wflag) ==> SameShown(old(fs.medium), fs.medium))
  {
    hide InfoKept, MirroredBut, WellLogged, FatOnly, WinState.Logical, WinState.Coherent, Geometry.WellFormed, FatByte,
         SameFatBytes, FatOf, SetByte, Put16;
    ghost var a := fs.St();
    ValidBasics(fs);
    EntryInside(fs.g, |fs.disk|, clst);
    var k: nat := clst * 2;
    res := MoveToFatByte(fs, k);
    if res != FrOk { return; }
    ghost var b := fs.St();
    PokeFatWord(fs, clst, val);
    FatOnlyTrans(fs.g, a, b, fs.St());
    Put16Fat(fs.g, b.Logical(), fs.fat, clst, val);
    fs.fat := fs.fat[clst := val % 0x1_0000];
    LogGrown(fs.g, fs.log, Whole(fs.fat));
    fs.log := fs.log + [Whole(fs.fat)];
  }

  /** The reserved top four bits of all FAT32 entries are the same in both images. */
  ghost predicate SameReserved(g: Geometry, a: seq<Sector>, b: seq<Sector>) {
    g.fsType == Fat32 && g.WellFormed(|a|) && |b| == |a| ==>
      forall d :: 0 <= d < g.nFatent ==> Entry32(g, b, d) / 0x1000_0000 == Entry32(g, a, d) / 0x1000_0000
  }

  lemma SameBytesReserved(g: Geometry, a: WinState, b: WinState)
    requires SameFatBytes(g, a, b)
    ensures SameReserved(g, a.Logical(), b.Logical())
  {
    hide SameFatBytes, WinState.Logical, Entry32, Geometry.WellFormed;
    SameBasics(g, a, b);
    if g.fsType == Fat32 {
      forall d | 0 <= d < g.nFatent
        ensures Entry32(g, b.Logical(), d) == Entry32(g, a.Logical(), d)
      {
        SameDwordAt(g, a, b, d);
      }
    }
  }

  /** Only an entry whose own top four bits are kept is written. */
  lemma PutReserved(g: Geometry, a: seq<Sector>, b: seq<Sector>, c: nat, v: u32)
    requires g.WellFormed(|a|) && (g.fsType == Fat32 || g.fsType == ExFat) && c < g.nFatent
    requires |b| == |a| && SameReserved(g, a, b)
    requires g.fsType == Fat32 ==> v / 0x1000_0000 == Entry32(g, b, c) / 0x1000_0000
    ensures SameReserved(g, a, Put32(g, b, c, v))
  {
    hide Put32, Entry32;
    if g.fsType == Fat32 {
      forall d | 0 <= d < g.nFatent
        ensures Entry32(g, Put32(g, b, c, v), d) / 0x1000_0000 == Entry32(g, a, d) / 0x1000_0000
      {
        Put32Entry(g, b, c, v, d);
      }
    }
  }

  lemma ReservedTrans(g: Geometry, a: seq<Sector>, b: seq<Sector>, c: seq<Sector>)
    requires |b| == |a| && SameReserved(g, a, b) && SameReserved(g, b, c)
    ensures SameReserved(g, a, c)
  {
    hide Entry32;
  }

  /** The store of put_fat on FAT32 and exFAT, the window showing the entry. */
  method StoreDword(fs: Fatfs, clst: u32, val: u32)
    requires fs.Valid() && (fs.g.fsType == Fat32 || fs.g.fsType == ExFat) && 2 <= clst < fs.g.nFatent
    requires fs.winsect == fs.g.fatbase + clst * 4 / 512 < |fs.disk| && fs.g.InFat1(fs.winsect)
    requires fs.win[..] == fs.St().Logical()[fs.winsect]
    modifies fs`wflag, fs.win, fs`fat, fs`log
    ensures fs.Valid() && fs.g.InFat1(fs.winsect) && FatOnly(fs.g, old(fs.St()), fs.St())
    ensures fs.fat == old(fs.fat)[clst := Stored(fs.g, val)] && fs.log == old(fs.log) + [Whole(fs.fat)]
    ensures SameReserved(fs.g, old(fs.St().Logical()), fs.St().Logical())
  {
    hide InfoKept, MirroredBut, WellLogged, FatOnly, WinState.Logical, WinState.Coherent, Geometry.WellFormed, FatByte,
         SameFatBytes, FatOf, SetByte, Put32, Keep4, SameReserved;
    ghost var a := fs.St();
    ValidBasics(fs);
    EntryInside(fs.g, |fs.disk|, clst);
    var v := val;
    if fs.g.fsType != ExFat {
      WinDword(fs, clst);
      v := Keep4(val, LdDword(fs.win[..], DwordOfs(clst)));
    }
    PokeFatDword(fs, clst, v);
    Put32Fat(fs.g, a.Logical(), fs.fat, clst, v);
    ReservedSelf(fs.g, a.Logical());
    PutReserved(fs.g, a.Logical(), a.Logical(), clst, v);
    fs.fat := fs.fat[clst := Stored(fs.g, v)];
    LogGrown(fs.g, fs.log, Whole(fs.fat));
    fs.log := fs.log + [Whole(fs.fat)];
  }

  lemma ReservedSelf(g: Geometry, a: seq<Sector>)
    requires g.WellFormed(|a|)
    ensures SameReserved(g, a, a)
  {
    hide Entry32;
  }

  /** put_fat, cases FS_FAT32 and FS_EXFAT. */
  method PutFat32(fs: Fatfs, clst: u32, val: u32) returns (res: FResult)
    requires fs.Valid() && (fs.g.fsType == Fat32 || fs.g.fsType == ExFat) && 2 <= clst < fs.g.nFatent
    modifies fs`disk, fs`wflag, fs`medium, fs`winsect, fs.win, fs`fat, fs`log
    ensures fs.Valid()
    ensures res == FrOk ==> fs.g.InFat1(fs.winsect)
    ensures res == FrOk || res == FrDiskErr
    ensures res != FrOk ==> Faulted(old(fs.medium), fs.medium)
    ensures FatOnly(fs.g, old(fs.St()), fs.St())
    ensures res == FrOk ==> fs.fat == old(fs.fat)[clst := Stored(fs.g, val)] && fs.log == old(fs.log) + [Whole(fs.fat)]
    ensures res != FrOk ==> fs.fat == old(fs.fat) && fs.log == old(fs.log)
    ensures SameReserved(fs.g, old(fs.St().Logical()), fs.St().Logical())
    ensures Onward(old(fs.medium), fs.medium) && (!old(fs.wflag) ==> SameShown(old(fs.medium), fs.medium))
  {
    hide Fatfs.Valid, Onward, SameShown, Faulted, FatOnly, WinState.Logical, WinState.Coherent, Geometry.WellFormed,
         SameFatBytes, SameReserved, Stored;
    ghost var a := fs.St();
    ValidBasics(fs);
    EntryInside(fs.g, |fs.disk|, clst);
    res := MoveToFatByte(fs, clst * 4);
    SameBytesReserved(fs.g, a, fs.St());
    if res != FrOk { return; }
    ghost var b := fs.St();
    SameBasics(fs.g, a, b);
    StoreDword(fs, clst, val);
    FatOnlyTrans(fs.g, a, b, fs.St());
    ReservedTrans(fs.g, a.Logical(), b.Logical(), fs.St().Logical());
  }

  lemma CoherentBasics(g: Geometry, st: WinState)
    requires st.Coherent(g)
    ensures g.WellFormed(|st.disk|) && |st.win| == 512
  {
  }

  /** st_word through the window. */
  method PokeFatWord(fs: Fatfs, clst: u32, v: u32)
    requires fs.St().Coherent(fs.g) && fs.g.fsType == Fat16 && 2 <= clst < fs.g.nFatent
    requires fs.win.Length == 512 && fs.winsect == fs.g.fatbase + clst * 2 / 512 < |fs.disk|
    requires fs.win[..] == fs.St().Logical()[fs.winsect]
    modifies fs`wflag, fs.win
    ensures fs.St().Coherent(fs.g)
    ensures fs.wflag && fs.St().Logical() == Put16(fs.g, old(fs.St().Logical()), clst, v)
    ensures FatOnly(fs.g, old(fs.St()), fs.St())
  {
    hide FatOnly, WinState.Logical, FatByte, SetByte, WinState.Coherent, Geometry.WellFormed, Geometry.FatBytes,
         WordOfs;
    ghost var a := fs.St();
    CoherentBasics(fs.g, a);
    EntryInside(fs.g, |fs.disk|, clst);
    var o := WordOfs(clst);
    assert (clst * 2 + 1) / 512 == clst * 2 / 512;
    PokeFatByte(fs, clst * 2, v % 0x100);
    ghost var b := fs.St();
    PokeFatByte(fs, clst * 2 + 1, v / 0x100 % 0x100);
    FatOnlyTrans(fs.g, a, b, fs.St());
  }

  /** st_dword through the window. */
  method PokeFatDword(fs: Fatfs, clst: u32, v: u32)
    requires fs.St().Coherent(fs.g) && (fs.g.fsType == Fat32 || fs.g.fsType == ExFat) && 2 <= clst < fs.g.nFatent
    requires fs.win.Length == 512 && fs.winsect == fs.g.fatbase + clst * 4 / 512 < |fs.disk|
    requires fs.win[..] == fs.St().Logical()[fs.winsect]
    modifies fs`wflag, fs.win
    ensures fs.St().Coherent(fs.g)
    ensures fs.wflag && fs.St().Logical() == Put32(fs.g, old(fs.St().Logical()), clst, v)
    ensures FatOnly(fs.g, old(fs.St()), fs.St())
  {
    hide FatOnly, WinState.Logical, FatByte, SetByte, WinState.Coherent, Geometry.WellFormed, Geometry.FatBytes,
         DwordOfs;
    ghost var a := fs.St();
    CoherentBasics(fs.g, a);
    EntryInside(fs.g, |fs.disk|, clst);
    var k: nat := clst * 4;
    var o := DwordOfs(clst);
    assert (k + 1) / 512 == k / 512 && (k + 2) / 512 == k / 512 && (k + 3) / 512 == k / 512;
    PokeFatByte(fs, k, v % 0x100);
    ghost var b := fs.St();
    PokeFatByte(fs, k + 1, v / 0x100 % 0x100);
    FatOnlyTrans(fs.g, a, b, fs.St());
    b := fs.St();
    PokeFatByte(fs, k + 2, v / 0x1_0000 % 0x100);
    FatOnlyTrans(fs.g, a, b, fs.St());
    b := fs.St();
    PokeFatByte(fs, k + 3, v / 0x100_0000);
    FatOnlyTrans(fs.g, a, b, fs.St());
  }

  lemma SameDwordAt(g: Geometry, a: WinState, b: WinState, c: nat)
    requires SameFatBytes(g, a, b) && (g.fsType == Fat32 || g.fsType == ExFat) && c < g.nFatent
    ensures Entry32(g, b.Logical(), c) == Entry32(g, a.Logical(), c)
  {
    hide FatByte, WinState.Logical, SameFatBytes;
    assert g.WellFormed(|a.disk|) && |b.disk| == |a.disk| by { SameBasics(g, a, b); }
    EntryInside(g, |a.disk|, c);
    SameByteAt(g, a, b, c * 4);
    SameByteAt(g, a, b, c * 4 + 1);
    SameByteAt(g, a, b, c * 4 + 2);
    SameByteAt(g, a, b, c * 4 + 3);
  }

  lemma SameBasics(g: Geometry, a: WinState, b: WinState)
    requires SameFatBytes(g, a, b)
    ensures g.WellFormed(|a.disk|) && |b.disk| == |a.disk|
  {
  }

  lemma WinDword(fs: Fatfs, c: nat)
    requires fs.win.Length == 512 && fs.winsect == fs.g.fatbase + c * 4 / 512 < |fs.disk|
    requires fs.win[..] == fs.St().Logical()[fs.winsect]
    requires (fs.g.fsType == Fat32 || fs.g.fsType == ExFat) && c < fs.g.nFatent && fs.g.WellFormed(|fs.disk|)
    ensures LdDword(fs.win[..], DwordOfs(c)) == Entry32(fs.g, fs.St().Logical(), c)
  {
    hide FatByte, Geometry.WellFormed, WinState.Logical, DwordOfs;
    var o := DwordOfs(c);
    assert (c * 4 + 1) / 512 == c * 4 / 512 && (c * 4 + 2) / 512 == c * 4 / 512 && (c * 4 + 3) / 512 == c * 4 / 512;
    WinByte(fs, c * 4);
    WinByte(fs, c * 4 + 1);
    WinByte(fs, c * 4 + 2);
    WinByte(fs, c * 4 + 3);
  }

  /** put_fat. A call that fails changes nothing, unless it leaves an entry torn that straddles two sectors. */
  method PutFat(fs: Fatfs, clst: u32, val: u32) returns (res: FResult)
    requires fs.Valid()
    modifies fs`disk, fs`wflag, fs`medium, fs`winsect, fs.win, fs`fat, fs`log
    ensures fs.Valid()
    ensures res == FrOk ==> fs.g.InFat1(fs.winsect)
    ensures res == FrOk || res == FrDiskErr || res == FrIntErr
    ensures res == FrIntErr <==> !(2 <= clst < fs.g.nFatent)
    ensures res == FrDiskErr ==> Faulted(old(fs.medium), fs.medium)
    ensures FatOnly(fs.g, old(fs.St()), fs.St())
    ensures |fs.fat| == old(|fs.fat|) && forall d :: 0 <= d < |fs.fat| && d != clst ==> fs.fat[d] == old(fs.fat[d])
    ensures res == FrOk ==> clst < |fs.fat| && fs.fat == old(fs.fat)[clst := Stored(fs.g, val)]
    ensures res == FrIntErr ==> fs.fat == old(fs.fat) && fs.log == old(fs.log)
    ensures res != FrIntErr ==>
      clst < |old(fs.fat)| && PutLogged(fs.g, clst, val, res == FrOk, old(fs.fat), old(fs.log), fs.fat, fs.log)
    ensures fs.g.fsType == Fat32 ==> SameReserved(fs.g, old(fs.St().Logical()), fs.St().Logical())
    ensures Onward(old(fs.medium), fs.medium)
    ensures !old(fs.wflag) && !Straddles(fs.g, clst) ==> SameShown(old(fs.medium), fs.medium)
    // a straddling entry was flushed half-way: this is what the medium is left with
    ensures res == FrOk && Straddles(fs.g, clst) ==> fs.medium.at == |fs.log| - 2 && !fs.medium.damaged
  {
    hide Fatfs.Valid, FatOnly, SameReserved;
    ValidBasics(fs);
    FatOnlySelf(fs.g, fs.St());
    SameReservedSelf(fs.g, fs.St().Logical());
    res := FrIntErr;
    if 2 <= clst < fs.g.nFatent {
      match fs.g.fsType
      case Fat12 => if Straddles(fs.g, clst) { res := PutFat12Across(fs, clst, val); }
                    else { res := PutFat12Inside(fs, clst, val); }
      case Fat16 => res := PutFat16(fs, clst, val);
      case Fat32 => res := PutFat32(fs, clst, val);
      case ExFat => res := PutFat32(fs, clst, val);
    }
  }

  lemma SameReservedSelf(g: Geometry, a: seq<Sector>)
    ensures SameReserved(g, a, a)
  {
  }
}
