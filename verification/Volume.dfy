/** The filesystem object and the medium below it. */
module Volume {
  import opened Bytes

  datatype FResult = FrOk | FrDiskErr | FrIntErr | FrNoFile | FrDenied | FrInvalidName | FrNoFilesystem

  datatype FsType = Fat12 | Fat16 | Fat32 | ExFat

  /** LBA_t value that marks the window as holding no sector. */
  const INVALID_SECTOR: u32 := 0xFFFF_FFFF

  /** What mount_volume computes once and nothing changes afterwards. `fsinfo` is fsi_flag without bit 7. */
  datatype Geometry = Geometry(
    fsType: FsType, nFats: nat, csize: nat, nRootdir: nat, nFatent: nat, fsize: nat,
    volbase: nat, fatbase: nat, dirbase: nat, database: nat, dataEnd: nat, bitbase: nat, fsinfo: bool)
  {
    predicate InFat1(s: int) {
      fatbase <= s < fatbase + fsize
    }

    predicate InFat2(s: int) {
      nFats == 2 && fatbase + fsize <= s < fatbase + fsize + fsize
    }

    predicate InFats(s: int) {
      InFat1(s) || InFat2(s)
    }

    /** Number of bytes the FAT entries 0..nFatent occupy. */
    function FatBytes(): nat {
      match fsType
      case Fat12 => nFatent * 3 / 2 + nFatent % 2
      case Fat16 => nFatent * 2
      case _ => nFatent * 4
    }

    /** Largest value an entry can hold: the end-of-chain mark as it reads back. */
    function MaxEntry(): nat {
      match fsType
      case Fat12 => 0xFFF
      case Fat16 => 0xFFFF
      case Fat32 => 0xFFF_FFFF
      case ExFat => 0x7FFF_FFFF
    }

    /** The layout mount_volume establishes on a medium of `nsect` sectors. */
    predicate WellFormed(nsect: nat) {
      && 1 <= nFats <= 2
      && 1 <= csize
      && 2 < nFatent <= MaxEntry()
      && FatBytes() <= fsize * 512
      && volbase < fatbase
      && (fsinfo ==> fsType == Fat32 && volbase + 1 < fatbase)
      && fatbase + (if nFats == 2 then fsize + fsize else fsize) <= database
      && database <= dataEnd <= nsect < 0xFFFF_FFFF
    }
  }

  /** A snapshot of the medium and of the write-back window over it. */
  datatype WinState = WinState(disk: seq<Sector>, wflag: bool, winsect: u32, win: seq<byte>)
  {
    /** The medium overlaid by the dirty window: what the file system believes is stored. */
    function Logical(): (img: seq<Sector>)
      ensures |img| == |disk|
    {
      if wflag && winsect < |disk| && |win| == 512 then disk[winsect := win] else disk
    }

    /** What holds of window and medium between any two steps. The FSInfo sector is exempt from
        coherence: sync_fs ignores whether its write succeeded. */
    ghost predicate Coherent(g: Geometry) {
      && g.WellFormed(|disk|)
      && |win| == 512
      && (winsect == INVALID_SECTOR || winsect < |disk|)
      && (wflag ==> winsect != INVALID_SECTOR && !g.InFat2(winsect) && !(g.fsinfo && winsect == g.volbase + 1))
      && (!wflag && winsect != INVALID_SECTOR && !(g.fsinfo && winsect == g.volbase + 1) ==> disk[winsect] == win)
    }
  }

  /** Both FAT copies on the medium agree, but perhaps for sector `x` of the first one. */
  ghost predicate MirroredBut(g: Geometry, disk: seq<Sector>, x: int) {
    g.nFats == 2 ==>
      forall s :: g.InFat1(s) && s != x && 0 <= s && s + g.fsize < |disk| ==> disk[s + g.fsize] == disk[s]
  }

  /** Both FAT copies on the medium agree. */
  ghost predicate Mirrored(g: Geometry, disk: seq<Sector>) {
    MirroredBut(g, disk, -1)
  }

  // ---------- the history of the FAT ----------

  /** The two bytes of a FAT12 entry lie in different sectors: put_fat stores them through two windows. */
  predicate Straddles(g: Geometry, c: nat) {
    g.fsType == Fat12 && (c + c / 2) % 512 == 511
  }

  /** A value the FAT has had: after a put_fat, or half-way through one on a straddling entry `c`. */
  datatype LogEntry = Whole(fat: seq<nat>) | Torn(fat: seq<nat>, c: nat)

  /** A torn state differs from the one before in its straddling entry only. */
  ghost predicate WellLogged(g: Geometry, log: seq<LogEntry>) {
    forall i :: 0 <= i < |log| && log[i].Torn? ==> 0 < i && OneTorn(g, log[i - 1].fat, log[i])
  }

  ghost predicate OneTorn(g: Geometry, before: seq<nat>, e: LogEntry)
    requires e.Torn?
  {
    e.c < |before| && Straddles(g, e.c) && |e.fat| == |before|
    && forall d :: 0 <= d < |before| && d != e.c ==> e.fat[d] == before[d]
  }

  /** What the medium holds of the FAT: the state `at` of the log, unless the last write of a first-FAT sector
      failed (`damaged`); the copies agree if they did at mount time and no mirror write has failed. Of FSInfo: the
      counts last sent to it or read from it, and whether it holds them. And of the device: whether it has confirmed
      CTRL_SYNC behind the last write, and how often it has failed. */
  datatype Medium = Medium(at: nat, damaged: bool, mirrored: bool, counts: (u32, u32), sent: bool, flushed: bool,
                           faults: nat)
  {
    /** After a request to the device that succeeded or failed: a read, ... */
    function After(ok: bool): Medium {
      if ok then this else this.(faults := faults + 1)
    }

    /** ... a write, ... */
    function Written(ok: bool): Medium {
      After(ok).(flushed := false)
    }

    /** ... or CTRL_SYNC. */
    function Confirmed(ok: bool): Medium {
      After(ok).(flushed := ok)
    }
  }

  /** The medium never goes back to an earlier state of the FAT. As long as the device does not fail, no sector of the
      FAT is damaged, the copies stay equal and FSInfo stays readable. */
  ghost predicate Onward(a: Medium, b: Medium) {
    a.at <= b.at && a.faults <= b.faults && (b.mirrored ==> a.mirrored)
    && (b.faults == a.faults ==> (b.damaged ==> a.damaged) && b.mirrored == a.mirrored && (a.sent ==> b.sent))
  }

  /** Between `a` and `b` the device has failed. */
  ghost predicate Faulted(a: Medium, b: Medium) {
    a.faults < b.faults
  }

  lemma OnwardSelf(a: Medium)
    ensures Onward(a, a)
  {
  }

  lemma OnwardTrans(a: Medium, b: Medium, c: Medium)
    requires Onward(a, b) && Onward(b, c)
    ensures Onward(a, c) && (Faulted(a, b) || Faulted(b, c) ==> Faulted(a, c))
  {
  }

  /** Nothing but failed requests came between. */
  ghost predicate SameShown(a: Medium, b: Medium) {
    b == a.(faults := b.faults) && a.faults <= b.faults
  }

  /** No write failed: the medium shows the same state of the FAT as before, or the last of `n`. */
  ghost predicate Refreshed(a: Medium, b: Medium, n: nat) {
    (b.at == a.at && b.damaged == a.damaged) || (b.at == n - 1 && !b.damaged)
  }

  // ---------- FSInfo ----------

  /** free_clst and last_clst as mount_volume takes them from the FSInfo sector, if it is one. */
  function InfoCounts(s: Sector): (r: (u32, u32)) {
    if LdWord(s, 510) == 0xAA55 && LdDword(s, 0) == 0x41615252 && LdDword(s, 484) == 0x61417272
    then (LdDword(s, 488), LdDword(s, 492))
    else (0xFFFF_FFFF, 0xFFFF_FFFF)
  }

  /** Unless they are marked as changed, the counts are those FSInfo got or had. */
  ghost predicate InfoKept(g: Geometry, disk: seq<Sector>, m: Medium, dirty: bool, free: u32, last: u32) {
    g.fsinfo ==>
      && g.volbase + 1 < |disk|
      && (m.sent ==> InfoCounts(disk[g.volbase + 1]) == m.counts)
      && (dirty || m.counts == (free, last))
  }

  // ---------- FAT entries as functions of the sector image ----------

  /** Byte `b` of the first FAT. (Entries only use bytes inside it, see FatByteInside.) */
  function FatByte(g: Geometry, img: seq<Sector>, b: nat): byte {
    if g.fatbase + b / 512 < |img| then img[g.fatbase + b / 512][b % 512] else 0
  }

  /** The entry bytes lie inside the FAT, and the FAT inside the medium. */
  lemma FatByteInside(g: Geometry, nsect: nat, b: nat)
    requires g.WellFormed(nsect) && b < g.FatBytes()
    ensures g.InFat1(g.fatbase + b / 512) && g.fatbase + b / 512 < nsect
  {
  }

  ghost function Entry12(g: Geometry, img: seq<Sector>, c: nat): nat
    requires g.WellFormed(|img|) && g.fsType == Fat12 && c < g.nFatent
  {
    var b := c + c / 2;
    var wc: nat := FatByte(g, img, b) as int + 0x100 * (FatByte(g, img, b + 1) as int);
    if c % 2 == 1 then wc / 0x10 else wc % 0x1000
  }

  ghost function Entry16(g: Geometry, img: seq<Sector>, c: nat): nat
    requires g.WellFormed(|img|) && g.fsType == Fat16 && c < g.nFatent
  {
    FatByte(g, img, c * 2) as int + 0x100 * (FatByte(g, img, c * 2 + 1) as int)
  }

  ghost function Entry32(g: Geometry, img: seq<Sector>, c: nat): nat
    requires g.WellFormed(|img|) && (g.fsType == Fat32 || g.fsType == ExFat) && c < g.nFatent
  {
    FatByte(g, img, c * 4) as int + 0x100 * (FatByte(g, img, c * 4 + 1) as int)
    + 0x1_0000 * (FatByte(g, img, c * 4 + 2) as int) + 0x100_0000 * (FatByte(g, img, c * 4 + 3) as int)
  }

  /** Value of FAT entry `c`, masked as get_fat masks it. */
  ghost function Entry(g: Geometry, img: seq<Sector>, c: nat): nat
    requires g.WellFormed(|img|) && c < g.nFatent
  {
    match g.fsType
    case Fat12 => Entry12(g, img, c)
    case Fat16 => Entry16(g, img, c)
    case Fat32 => Entry32(g, img, c) % 0x1000_0000
    case ExFat => Entry32(g, img, c) % 0x8000_0000
  }

  /** `fat` lists the values of all FAT entries found in `img`. */
  ghost predicate FatOf(g: Geometry, img: seq<Sector>, fat: seq<nat>) {
    && g.WellFormed(|img|)
    && |fat| == g.nFatent
    && forall c :: 0 <= c < g.nFatent ==> fat[c] == Entry(g, img, c)
  }

  ghost function AllEntries(g: Geometry, img: seq<Sector>): (fat: seq<nat>)
    requires g.WellFormed(|img|)
    ensures FatOf(g, img, fat)
  {
    seq(g.nFatent, c requires 0 <= c < g.nFatent => Entry(g, img, c))
  }

  /** The FAT depends on the first FAT area only. */
  lemma FatOfFrame(g: Geometry, a: seq<Sector>, b: seq<Sector>, fat: seq<nat>)
    requires FatOf(g, a, fat) && |a| == |b|
    requires forall s :: g.InFat1(s) && 0 <= s < |a| ==> a[s] == b[s]
    ensures FatOf(g, b, fat)
  {
    forall c | 0 <= c < g.nFatent
      ensures Entry(g, a, c) == Entry(g, b, c)
    {
      EntryFrame(g, a, b, c);
    }
  }

  lemma EntryFrame(g: Geometry, a: seq<Sector>, b: seq<Sector>, c: nat)
    requires g.WellFormed(|a|) && |a| == |b| && c < g.nFatent
    requires forall s :: g.InFat1(s) && 0 <= s < |a| ==> a[s] == b[s]
    ensures Entry(g, a, c) == Entry(g, b, c)
  {
    match g.fsType
    case Fat12 => Frame12(g, a, b, c);
    case Fat16 => Frame16(g, a, b, c);
    case Fat32 => DwordFrame(g, a, b, c);
    case ExFat => DwordFrame(g, a, b, c);
  }

  lemma Frame12(g: Geometry, a: seq<Sector>, b: seq<Sector>, c: nat)
    requires g.WellFormed(|a|) && |a| == |b| && c < g.nFatent && g.fsType == Fat12
    requires forall s :: g.InFat1(s) && 0 <= s < |a| ==> a[s] == b[s]
    ensures Entry12(g, a, c) == Entry12(g, b, c)
  {
    ByteFrame(g, a, b, c + c / 2);
    ByteFrame(g, a, b, c + c / 2 + 1);
  }

  lemma Frame16(g: Geometry, a: seq<Sector>, b: seq<Sector>, c: nat)
    requires g.WellFormed(|a|) && |a| == |b| && c < g.nFatent && g.fsType == Fat16
    requires forall s :: g.InFat1(s) && 0 <= s < |a| ==> a[s] == b[s]
    ensures Entry16(g, a, c) == Entry16(g, b, c)
  {
    ByteFrame(g, a, b, c * 2);
    ByteFrame(g, a, b, c * 2 + 1);
  }

  lemma DwordFrame(g: Geometry, a: seq<Sector>, b: seq<Sector>, c: nat)
    requires g.WellFormed(|a|) && |a| == |b| && c < g.nFatent && (g.fsType == Fat32 || g.fsType == ExFat)
    requires forall s :: g.InFat1(s) && 0 <= s < |a| ==> a[s] == b[s]
    ensures Entry32(g, a, c) == Entry32(g, b, c)
  {
    ByteFrame(g, a, b, c * 4);
    ByteFrame(g, a, b, c * 4 + 1);
    ByteFrame(g, a, b, c * 4 + 2);
    ByteFrame(g, a, b, c * 4 + 3);
  }

  lemma ByteFrame(g: Geometry, a: seq<Sector>, b: seq<Sector>, k: nat)
    requires g.WellFormed(|a|) && |a| == |b| && k < g.FatBytes()
    requires forall s :: g.InFat1(s) && 0 <= s < |a| ==> a[s] == b[s]
    ensures FatByte(g, a, k) == FatByte(g, b, k)
  {
    FatByteInside(g, |a|, k);
  }

  // ---------- the object ----------

  /** FATFS: geometry, window and allocation hints, over a medium of 512-byte sectors. */
  class Fatfs {
    const g: Geometry
    const win: array<byte>
    var winsect: u32
    var wflag: bool
    var fsiDirty: bool       // fsi_flag bit 0
    var lastClst: u32
    var freeClst: u32
    var disk: seq<Sector>    // the medium behind pdrv

    /** The FAT entries as the file system sees them (through the window). */
    ghost var fat: seq<nat>
    /** Every value `fat` has had that may have reached the medium, in order; put_fat appends. */
    ghost var log: seq<LogEntry>
    ghost var medium: Medium

    /** A mounted volume over a medium: nothing in the window, the FAT as the medium has it. */
    constructor (geo: Geometry, sectors: seq<Sector>, free: u32, last: u32)
      requires geo.WellFormed(|sectors|)
      requires geo.fsinfo ==> (free, last) == InfoCounts(sectors[geo.volbase + 1])
      ensures Valid() && fresh(win) && g == geo && disk == sectors && !wflag && winsect == INVALID_SECTOR
      ensures freeClst == free && lastClst == last && log == [Whole(fat)] && !fsiDirty
      ensures medium == Medium(0, false, Mirrored(geo, sectors), (free, last), true, true, 0)
    {
      g, disk, freeClst, lastClst := geo, sectors, free, last;
      win := new byte[512];
      wflag, winsect, fsiDirty := false, INVALID_SECTOR, false;
      fat := AllEntries(geo, sectors);
      log := [Whole(AllEntries(geo, sectors))];
      medium := Medium(0, false, Mirrored(geo, sectors), (free, last), true, true, 0);
    }

    function St(): WinState
      reads this`disk, this`wflag, this`winsect, win
    {
      WinState(disk, wflag, winsect, win[..])
    }

    ghost predicate Valid()
      reads this`disk, this`wflag, this`winsect, win, this`fat, this`log, this`medium,
            this`fsiDirty, this`freeClst, this`lastClst
    {
      && St().Coherent(g)
      && FatOf(g, St().Logical(), fat)
      && |log| > 0 && log[|log| - 1].fat == fat && WellLogged(g, log)
      && medium.at < |log|
      && (if medium.damaged then wflag && g.InFat1(winsect) else FatOf(g, disk, log[medium.at].fat))
      && (medium.mirrored ==> MirroredBut(g, disk, if medium.damaged then winsect else -1))
      && InfoKept(g, disk, medium, fsiDirty, freeClst, lastClst)
    }
  }

  lemma ValidBasics(fs: Fatfs)
    requires fs.Valid()
    ensures fs.g.WellFormed(|fs.disk|) && |fs.fat| == fs.g.nFatent && fs.win.Length == 512
  {
    assert fs.St().win == fs.win[..];
  }
}
