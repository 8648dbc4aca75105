/** mount_volume, the FAT branch: from the BIOS parameter block to the geometry the rest relies on. */
module Mount {
  import opened Bytes
  import opened Arith
  import opened Volume
  import opened Window
  import opened FileBytes
  import opened DirTable
  import opened FatFile

  const MAX_FAT12: nat := 0xFF5
  const MAX_FAT16: nat := 0xFFF5
  const MAX_FAT32: nat := 0xFFF_FFF5

  /** The fields of the boot sector that matter (sectors sizes in sectors of 512 bytes). */
  datatype Bpb = Bpb(bytsPerSec: u16, fatSz: u32, nFats: byte, secPerClus: byte, rootEnt: u16, totSec: u32, rsvd: u16,
                     fsVer: u16, rootClus: u32, fsInfo: u16)

  function Fields(s: Sector): Bpb {
    Bpb(LdWord(s, 11), if LdWord(s, 22) != 0 then LdWord(s, 22) else LdDword(s, 36), s[16], s[13], LdWord(s, 17),
        if LdWord(s, 19) != 0 then LdWord(s, 19) else LdDword(s, 32), LdWord(s, 14), LdWord(s, 42), LdDword(s, 44),
        LdWord(s, 48))
  }

  // ---------- powers of two ----------

  /** `c & (c - 1)` is zero, for a byte that is not. */
  predicate PowerOfTwo(c: byte) {
    c == 1 || c == 2 || c == 4 || c == 8 || c == 16 || c == 32 || c == 64 || c == 128
  }

  /** The test as the code spells it. */
  lemma PowerOfTwoTest(c: bv8)
    requires c != 0
    ensures c & (c - 1) == 0 <==> c == 1 || c == 2 || c == 4 || c == 8 || c == 16 || c == 32 || c == 64 || c == 128
  {
  }

  /** With such a cluster size the mask `& (csize - 1)` is the remainder: what dir_next, f_read and f_write rely on. */
  lemma MaskIsRemainder(x: bv32)
    ensures x & 0 == x % 1 && x & 1 == x % 2 && x & 3 == x % 4 && x & 7 == x % 8
    ensures x & 15 == x % 16 && x & 31 == x % 32 && x & 63 == x % 64 && x & 127 == x % 128
  {
  }

  // ---------- the computation ----------

  /** DWORD arithmetic. */
  function Wrap(x: nat): u32 {
    x % 0x1_0000_0000
  }

  /** Sectors of all FAT copies. */
  function FatArea(b: Bpb): nat {
    NonNegProduct(b.fatSz, b.nFats);
    (b.fatSz as int) * (b.nFats as int)
  }

  lemma FatAreaIs(b: Bpb)
    ensures b.nFats == 1 ==> FatArea(b) == b.fatSz
    ensures b.nFats == 2 ==> FatArea(b) == b.fatSz + b.fatSz
  {
  }

  /** Reserved, FAT and root directory sectors add up below 2^32. */
  predicate FitsWords(b: Bpb) {
    b.rsvd + FatArea(b) + b.rootEnt / 16 < 0x1_0000_0000
  }

  /** Sectors before the data area. */
  function SystemSectors(b: Bpb): u32 {
    Wrap(Wrap(b.rsvd + Wrap(FatArea(b))) + b.rootEnt / 16)
  }

  /** The FAT sub-type a number of clusters stands for. */
  function TypeFor(nclst: nat): FsType {
    if nclst <= MAX_FAT12 then Fat12 else if nclst <= MAX_FAT16 then Fat16 else Fat32
  }

  /** Bytes of the FAT entries of `nclst` clusters. */
  function EntryBytes(nclst: nat): nat {
    if TypeFor(nclst) == Fat12 then (nclst + 2) * 3 / 2 + nclst % 2
    else if TypeFor(nclst) == Fat16 then (nclst + 2) * 2
    else (nclst + 2) * 4
  }

  /** The boot sector describes a FAT volume mount_volume takes: consistent fields, at least one cluster and not too
      many, a root directory where the sub-type has it, and a FAT large enough for all entries. */
  predicate IsFatVolume(b: Bpb) {
    && b.bytsPerSec == 512 && (b.nFats == 1 || b.nFats == 2) && PowerOfTwo(b.secPerClus) && b.rootEnt % 16 == 0
    && b.rsvd > 0 && SystemSectors(b) <= b.totSec
    && var nclst := (b.totSec - SystemSectors(b)) / (b.secPerClus as int);
       && 0 < nclst <= MAX_FAT32
       && (if TypeFor(nclst) == Fat32 then b.fsVer == 0 && b.rootEnt == 0 else b.rootEnt != 0)
       && EntryBytes(nclst) <= b.fatSz * 512
  }

  /** A volume that passed all the checks, and what was computed from it. */
  ghost predicate Accepted(b: Bpb, bsect: u32, nclst: nat, g: Geometry) {
    && (b.nFats == 1 || b.nFats == 2) && b.secPerClus > 0 && b.rootEnt % 16 == 0 && b.rsvd > 0
    && SystemSectors(b) <= b.totSec && 0 < nclst && nclst == (b.totSec - SystemSectors(b)) / (b.secPerClus as int)
    && g.fsType == TypeFor(nclst) && nclst <= MAX_FAT32
    && g.nFats == b.nFats as int && g.csize == b.secPerClus as int && g.nRootdir == b.rootEnt && g.nFatent == nclst + 2
    && g.fsize == b.fatSz && g.volbase == bsect && g.bitbase == 0
    && (g.fsType != Fat32 ==> g.nRootdir > 0)
    && g.fatbase == Wrap(bsect + b.rsvd) && g.database == Wrap(bsect + SystemSectors(b))
    && g.dataEnd == g.database + g.csize * nclst && (g.fsinfo ==> g.fsType == Fat32)
    && g.dirbase == (if g.fsType == Fat32 then b.rootClus else Wrap(g.fatbase + Wrap(FatArea(b))))
    && g.FatBytes() <= g.fsize * 512
  }

  /** The clusters fit between the data start and the end of the volume. */
  lemma DataFits(b: Bpb, bsect: u32, nclst: nat, g: Geometry, nsect: nat)
    requires Accepted(b, bsect, nclst, g) && bsect + b.totSec <= nsect < 0xFFFF_FFFF
    ensures g.database == bsect + SystemSectors(b) && g.database <= g.dataEnd <= nsect
  {
    DivMod(b.totSec - SystemSectors(b), b.secPerClus);
    NonNegProduct(g.csize, nclst);
  }

  /** The areas lie one behind the other exactly if the sums do not wrap. */
  lemma AreasFit(b: Bpb, bsect: u32, nclst: nat, g: Geometry, nsect: nat)
    requires Accepted(b, bsect, nclst, g) && bsect + b.totSec <= nsect < 0xFFFF_FFFF
    ensures FitsWords(b) <==>
      g.volbase < g.fatbase && g.fatbase + (if g.nFats == 2 then g.fsize + g.fsize else g.fsize) <= g.database
    ensures FitsWords(b) ==> SystemSectors(b) == b.rsvd + FatArea(b) + b.rootEnt / 16 && g.fatbase == bsect + b.rsvd
  {
    hide Geometry.FatBytes, FatArea, Wrap;
    DataFits(b, bsect, nclst, g, nsect);
    FatAreaIs(b);
    if bsect + b.rsvd < 0x1_0000_0000 { NoWrap(bsect + b.rsvd); }
    WrapSum(b.rsvd, FatArea(b), b.rootEnt / 16);
    if bsect + b.rsvd >= 0x1_0000_0000 { WrapOnce(bsect + b.rsvd); }
  }

  lemma NoWrap(x: nat)
    requires x < 0x1_0000_0000
    ensures Wrap(x) == x
  {
  }

  lemma WrapOnce(x: nat)
    requires 0x1_0000_0000 <= x < 0x2_0000_0000
    ensures Wrap(x) == x - 0x1_0000_0000
  {
  }

  /** Wrapping at every step or once at the end is the same. */
  lemma WrapSum(r: nat, f: nat, d: nat)
    ensures Wrap(Wrap(r + Wrap(f)) + d) == Wrap(r + f + d)
    ensures r + f + d < 0x1_0000_0000 ==> Wrap(r + f + d) == r + f + d
    ensures r + f + d >= 0x1_0000_0000 ==> Wrap(r + f + d) <= r + f + d - 0x1_0000_0000
  {
  }

  lemma LayoutExact(b: Bpb, bsect: u32, nclst: nat, g: Geometry, nsect: nat)
    requires Accepted(b, bsect, nclst, g) && bsect + b.totSec <= nsect < 0xFFFF_FFFF
    ensures g.WellFormed(nsect) <==> FitsWords(b) && (g.fsinfo ==> b.rsvd >= 2)
  {
    hide FitsWords, SystemSectors, FatArea;
    DataFits(b, bsect, nclst, g, nsect);
    AreasFit(b, bsect, nclst, g, nsect);
  }

  /** The static root directory lies between the FATs and the data. */
  lemma RootFits(b: Bpb, bsect: u32, nclst: nat, g: Geometry, nsect: nat)
    requires Accepted(b, bsect, nclst, g) && bsect + b.totSec <= nsect < 0xFFFF_FFFF && FitsWords(b)
    ensures DirLayout(g)
  {
    hide Geometry.FatBytes, FatArea, SystemSectors, Wrap;
    DataFits(b, bsect, nclst, g, nsect);
    FatAreaIs(b);
    AreasFit(b, bsect, nclst, g, nsect);
    NoWrap(FatArea(b));
    NoWrap(g.fatbase + FatArea(b));
  }

  /** The checks and the arithmetic of mount_volume. */
  method ComputeGeometry(b: Bpb, bsect: u32, infoRead: bool) returns (res: FResult, g: Geometry, nclst: nat)
    ensures res == if IsFatVolume(b) then FrOk else FrNoFilesystem
    ensures res == FrOk ==> Accepted(b, bsect, nclst, g) && PowerOfTwo(b.secPerClus)
    ensures res == FrOk ==> (g.fsinfo <==> g.fsType == Fat32 && b.fsInfo == 1 && infoRead)
  {
    hide Wrap, Geometry.FatBytes, EntryBytes, FatArea;
    g := Geometry(Fat12, 0, 0, 0, 0, 0, 0, 0, 0, 0, 0, 0, false);
    res := FrNoFilesystem;
    nclst := 0;
    if b.bytsPerSec != 512 { return; }
    var fasize: u32 := b.fatSz;
    if b.nFats != 1 && b.nFats != 2 { return; }
    fasize := Wrap(FatArea(b));    // fasize *= n_fats
    if b.secPerClus == 0 || !PowerOfTwo(b.secPerClus) { return; }
    if b.rootEnt % 16 != 0 { return; }
    var tsect: u32 := b.totSec;
    if b.rsvd == 0 { return; }
    var sysect: u32 := Wrap(Wrap(b.rsvd + fasize) + b.rootEnt / 16);
    if tsect < sysect { return; }
    nclst := (tsect - sysect) / (b.secPerClus as int);
    if nclst == 0 { return; }
    var fmt: FsType;
    if nclst <= MAX_FAT12 {
      fmt := Fat12;
    } else if nclst <= MAX_FAT16 {
      fmt := Fat16;
    } else if nclst <= MAX_FAT32 {
      fmt := Fat32;
    } else {
      return;
    }
    var nFatent: u32 := nclst + 2;
    var fatbase, database := Wrap(bsect + b.rsvd), Wrap(bsect + sysect);
    var dirbase: u32, szbfat: u32;
    if fmt == Fat32 {
      if b.fsVer != 0 { return; }
      if b.rootEnt != 0 { return; }
      dirbase := b.rootClus;
      szbfat := Wrap(nFatent * 4);
    } else {
      if b.rootEnt == 0 { return; }
      dirbase := Wrap(fatbase + fasize);
      szbfat := if fmt == Fat16 then nFatent * 2 else nFatent * 3 / 2 + nFatent % 2;
    }
    NeededSize(nclst, b.fatSz, szbfat);
    if b.fatSz < (szbfat + 511) / 512 { return; }
    var info := fmt == Fat32 && b.fsInfo == 1 && infoRead;
    NonNegProduct(b.secPerClus, nclst);
    g := Geometry(fmt, b.nFats, b.secPerClus, b.rootEnt, nFatent, b.fatSz, bsect, fatbase, dirbase, database,
                  database + (b.secPerClus as int) * nclst, 0, info);
    FatBytesAre(g, nclst);
    res := FrOk;
  }

  /** The FAT size test is the one on whole bytes. */
  lemma NeededSize(nclst: nat, fatSz: u32, szbfat: u32)
    requires nclst <= MAX_FAT32
    requires TypeFor(nclst) == Fat12 ==> szbfat == (nclst + 2) * 3 / 2 + nclst % 2
    requires TypeFor(nclst) == Fat16 ==> szbfat == (nclst + 2) * 2
    requires TypeFor(nclst) == Fat32 ==> szbfat == Wrap((nclst + 2) * 4)
    ensures szbfat == EntryBytes(nclst)
    ensures fatSz >= (szbfat + 511) / 512 <==> EntryBytes(nclst) <= fatSz * 512
  {
  }

  lemma FatBytesAre(g: Geometry, nclst: nat)
    requires g.nFatent == nclst + 2 && g.fsType == TypeFor(nclst)
    ensures g.FatBytes() == EntryBytes(nclst)
  {
  }

  /** The FAT branch of mount_volume behind find_volume: `s` is the boot sector at `bsect`; `infoRead` tells whether the
      FSInfo sector could be read. */
  method MountFat(s: Sector, bsect: u32, infoRead: bool) returns (res: FResult, g: Geometry)
    ensures res == if IsFatVolume(Fields(s)) then FrOk else FrNoFilesystem
    ensures res == FrOk ==> exists nclst :: Accepted(Fields(s), bsect, nclst, g)
    ensures res == FrOk ==> g.fsType != ExFat && PowerOfTwo(Fields(s).secPerClus) && Layout(g)
    // the FAT type follows from the number of clusters
    ensures res == FrOk ==> 3 <= g.nFatent <= 268435447
    ensures res == FrOk ==> g.fsType == if g.nFatent <= 4087 then Fat12 else if g.nFatent <= 65527 then Fat16 else Fat32
    // a volume inside the medium: the layout is sound exactly if the sums do not wrap and FSInfo is not the first FAT
    // sector
    ensures res == FrOk ==> forall nsect: nat {:trigger g.WellFormed(nsect)} ::
      bsect + Fields(s).totSec <= nsect < 0xFFFF_FFFF ==>
        (g.WellFormed(nsect) <==> FitsWords(Fields(s)) && (g.fsinfo ==> Fields(s).rsvd >= 2))
    ensures res == FrOk && FitsWords(Fields(s)) && bsect + Fields(s).totSec < 0xFFFF_FFFF ==> DirLayout(g)
    ensures res == FrOk ==> (g.fsinfo <==> g.fsType == Fat32 && Fields(s).fsInfo == 1 && infoRead)
  {
    hide Geometry.WellFormed, FitsWords, DirLayout, Fields, SystemSectors, IsFatVolume;
    var b := Fields(s);
    var nclst;
    res, g, nclst := ComputeGeometry(b, bsect, infoRead);
    if res == FrOk {
      assert g.csize * (g.nFatent - 2) == g.csize * nclst;
      forall nsect: nat | bsect + b.totSec <= nsect < 0xFFFF_FFFF
        ensures g.WellFormed(nsect) <==> FitsWords(b) && (g.fsinfo ==> b.rsvd >= 2)
      {
        LayoutExact(b, bsect, nclst, g, nsect);
      }
      if FitsWords(b) && bsect + b.totSec < 0xFFFF_FFFF { RootFits(b, bsect, nclst, g, bsect + b.totSec); }
    }
  }

  /** A geometry mount_volume gives the volume at `bsect`. */
  ghost predicate MountedFrom(medium: seq<Sector>, bsect: u32, g: Geometry) {
    && bsect < |medium| < 0xFFFF_FFFF && IsFatVolume(Fields(medium[bsect])) && g.WellFormed(|medium|)
    && exists nclst :: Accepted(Fields(medium[bsect]), bsect, nclst, g)
  }

  /** The boot sector determines it, but for the use of FSInfo, which also depends on that sector being readable. */
  lemma SameVolume(m1: seq<Sector>, g1: Geometry, m2: seq<Sector>, g2: Geometry, bsect: u32)
    requires MountedFrom(m1, bsect, g1) && MountedFrom(m2, bsect, g2) && m1[bsect] == m2[bsect]
    ensures g2 == g1.(fsinfo := g2.fsinfo)
  {
    hide Fields, IsFatVolume, Geometry.WellFormed, SystemSectors, FatArea, TypeFor, Geometry.FatBytes;
  }

  /** The fields of a sound volume: inside the medium, no sum wraps, FSInfo not in the FAT. */
  predicate SoundFields(b: Bpb, bsect: u32, nsect: nat) {
    bsect + b.totSec <= nsect && FitsWords(b) && (b.fsInfo == 1 ==> b.rsvd >= 2)
  }

  /** Mounting the FAT volume at `bsect`. A volume that is not sound is accepted as well; this model has no object for
      one. For any other everything else in this model applies to the result. */
  method MountVolume(medium: seq<Sector>, bsect: u32) returns (res: FResult, g: Geometry, fs: Fatfs?)
    requires bsect < |medium| < 0xFFFF_FFFF
    ensures res == if IsFatVolume(Fields(medium[bsect])) then FrOk else FrNoFilesystem
    ensures fs != null <==> res == FrOk && g.WellFormed(|medium|)
    ensures res == FrOk && SoundFields(Fields(medium[bsect]), bsect, |medium|) ==> fs != null && DirLayout(g)
    ensures fs != null ==> MountedFrom(medium, bsect, g)
    ensures fs != null ==> fresh(fs) && fresh(fs.win) && fs.Valid() && fs.g == g && fs.disk == medium && Layout(g)
    ensures fs != null ==>
      FatOf(g, medium, fs.fat) && !fs.wflag && !fs.fsiDirty
      && fs.medium == Medium(0, false, Mirrored(g, medium), (fs.freeClst, fs.lastClst), true, true, fs.medium.faults)
    ensures fs != null && g.fsinfo ==>
      bsect as int + 1 < |medium| && (fs.freeClst, fs.lastClst) == InfoCounts(medium[bsect as int + 1])
    ensures fs != null && !g.fsinfo ==> fs.freeClst == fs.lastClst == 0xFFFF_FFFF
    // FSInfo is used wherever there is one, unless the device fails to read it
    ensures fs != null && fs.medium.faults == 0 ==>
      (g.fsinfo <==> g.fsType == Fat32 && Fields(medium[bsect]).fsInfo == 1)
    // the window shows the boot sector, FSInfo, or (that could not be read) nothing
    ensures fs != null ==> fs.winsect == bsect || fs.winsect as int == bsect + 1 || fs.winsect == INVALID_SECTOR
    ensures fs != null && g.fsinfo ==> fs.winsect as int == bsect + 1
    ensures fs != null && !g.fsinfo && fs.medium.faults == 0 ==> fs.winsect == bsect
  {
    hide FitsWords, Fields, DirLayout, Layout, Geometry.WellFormed, Mirrored, IsFatVolume, Accepted,
         Fatfs.Valid, FatOf, InfoCounts;
    fs := null;
    var s := medium[bsect];
    var infoRead: bool := *;
    if bsect as int + 1 >= |medium| { infoRead := false; }
    res, g := MountFat(s, bsect, infoRead);
    if res != FrOk || !g.WellFormed(|medium|) { return; }
    var free: u32, last: u32 := 0xFFFF_FFFF, 0xFFFF_FFFF;
    if g.fsinfo {
      var c := InfoCounts(medium[bsect as int + 1]);
      free, last := c.0, c.1;
    }
    ghost var nclst :| Accepted(Fields(s), bsect, nclst, g);
    AcceptedFat(Fields(s), bsect, nclst, g);
    fs := new Fatfs(g, medium, free, last);
    if g.fsType == Fat32 && Fields(s).fsInfo == 1 { Note(fs, fs.medium.After(infoRead)); }
    CleanFat(fs);
    if g.fsinfo {
      ShowSector(fs, bsect + 1);
    } else if !(g.fsType == Fat32 && Fields(s).fsInfo == 1) {
      ShowSector(fs, bsect);
    }
  }

  /** A sector read into the clean window. */
  method ShowSector(fs: Fatfs, sect: u32)
    requires fs.Valid() && !fs.wflag && sect < |fs.disk|
    modifies fs`winsect, fs.win
    ensures fs.Valid() && fs.winsect == sect && fs.win[..] == fs.disk[sect]
  {
    ghost var a := fs.St();
    ValidBasics(fs);
    CopyInto(fs.win, 0, fs.disk[sect]);
    assert fs.win[..] == fs.disk[sect];
    fs.winsect := sect;
    ShownValid(fs.g, a, fs.St(), fs.fat);
  }

  lemma ShownValid(g: Geometry, a: WinState, b: WinState, fat: seq<nat>)
    requires a.Coherent(g) && !a.wflag && FatOf(g, a.Logical(), fat)
    requires b == a.(winsect := b.winsect, win := b.win) && b.winsect < |a.disk| && b.win == a.disk[b.winsect]
    requires b.winsect != INVALID_SECTOR
    ensures b.Coherent(g) && FatOf(g, b.Logical(), fat)
  {
    hide FatOf;
    assert b.Logical() == a.Logical() == a.disk;
  }

  // ---------- the two ways an accepted volume can be unsound ----------

  /** A boot sector with the given fields. */
  function BootSector(b: Bpb): (s: Sector) {
    var z: seq<byte> := seq(512, _ => 0);
    var a := StWord(z[13 := b.secPerClus][16 := b.nFats], 11, b.bytsPerSec);
    var c := StWord(StWord(StWord(a, 14, b.rsvd), 17, b.rootEnt), 42, b.fsVer);
    var d := StDword(StDword(StDword(c, 32, b.totSec), 36, b.fatSz), 44, b.rootClus);
    StWord(d, 48, b.fsInfo)
  }

  lemma BootFields(b: Bpb)
    ensures Fields(BootSector(b)) == b
  {
    var s := BootSector(b);
    DwordSplit(b.totSec);
    DwordSplit(b.fatSz);
    DwordSplit(b.rootClus);
    assert LdWord(s, 22) == 0 && LdWord(s, 19) == 0;
    assert LdDword(s, 32) == b.totSec && LdDword(s, 36) == b.fatSz && LdDword(s, 44) == b.rootClus;
  }

  /** A FAT size whose double wraps to zero: the volume is accepted, although the second FAT would end 2^32 sectors
      on. */
  method WrappedFat() returns (s: Sector, res: FResult, g: Geometry)
    ensures !FitsWords(Fields(s)) && Fields(s).totSec == 1000
    ensures res == FrOk && !g.WellFormed(1000) && g.fatbase + g.fsize > 1000
  {
    hide Accepted, Fields, BootSector;
    var b := Bpb(512, 0x8000_0000, 2, 1, 512, 1000, 1, 0, 0, 0);
    FatAreaIs(b);
    assert SystemSectors(b) == 33;
    assert IsFatVolume(b);
    BootFields(b);
    s := BootSector(b);
    res, g := MountFat(s, 0, false);
    ghost var nclst :| Accepted(b, 0, nclst, g);
    AcceptedFat(b, 0, nclst, g);
  }

  lemma AcceptedFat(b: Bpb, bsect: u32, nclst: nat, g: Geometry)
    requires Accepted(b, bsect, nclst, g)
    ensures g.fsize == b.fatSz && g.volbase == bsect && g.fatbase == Wrap(bsect + b.rsvd) && g.fsType == TypeFor(nclst)
    ensures SystemSectors(b) <= b.totSec && b.secPerClus > 0
    ensures nclst == (b.totSec - SystemSectors(b)) / (b.secPerClus as int)
  {
  }

  /** One reserved sector and an FSInfo sector: the volume is accepted with the first sector of the FAT as FSInfo. */
  method InfoInFat() returns (s: Sector, res: FResult, g: Geometry)
    ensures FitsWords(Fields(s)) && Fields(s).totSec == 70601
    ensures res == FrOk && g.fsinfo && g.InFat1(g.volbase + 1) && !g.WellFormed(70601)
  {
    hide Accepted, Fields, BootSector;
    var b := Bpb(512, 600, 1, 1, 0, 70601, 1, 0, 2, 1);
    FatAreaIs(b);
    assert SystemSectors(b) == 601;
    assert IsFatVolume(b);
    BootFields(b);
    s := BootSector(b);
    res, g := MountFat(s, 0, true);
    ghost var nclst :| Accepted(b, 0, nclst, g);
    AcceptedFat(b, 0, nclst, g);
  }
}
