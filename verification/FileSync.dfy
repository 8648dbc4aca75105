/** sync_fs and f_sync on FAT12/16/32: afterwards the medium alone tells what the file contains. */
module FileSync {
  import opened Bytes
  import opened Volume
  import opened Window
  import opened Forest
  import opened FileBytes
  import opened FileSteps
  import opened FatFile
  import opened FileSeek

  // ---------- the FSInfo sector ----------

  /** The FSInfo structure sync_fs composes. */
  function FsInfoSector(freeClst: u32, lastClst: u32): (s: Sector) {
    var z: seq<byte> := seq(512, _ => 0);
    var a := StWord(z, 510, 0xAA55);
    var b := StDword(a, 0, 0x41615252);
    var c := StDword(b, 484, 0x61417272);
    var d := StDword(c, 488, freeClst);
    StDword(d, 492, lastClst)
  }

  /** The signatures mount_volume asks for are in place, and the two counts read back. */
  lemma FsInfoReadsBack(freeClst: u32, lastClst: u32)
    ensures var s := FsInfoSector(freeClst, lastClst);
      && LdWord(s, 510) == 0xAA55 && LdDword(s, 0) == 0x41615252 && LdDword(s, 484) == 0x61417272
      && LdDword(s, 488) == freeClst && LdDword(s, 492) == lastClst && InfoCounts(s) == (freeClst, lastClst)
  {
    hide LdWord, LdDword, StWord, StDword;
    var z: seq<byte> := seq(512, _ => 0);
    var a := StWord(z, 510, 0xAA55);
    WordRoundTrip(z, 510, 0xAA55);
    var b := StDword(a, 0, 0x41615252);
    DwordRoundTrip(a, 0, 0x41615252);
    var c := StDword(b, 484, 0x61417272);
    DwordRoundTrip(b, 484, 0x61417272);
    var d := StDword(c, 488, freeClst);
    DwordRoundTrip(c, 488, freeClst);
    var e := StDword(d, 492, lastClst);
    DwordRoundTrip(d, 492, lastClst);
    SameWord(a, e, 510);
    SameDword(b, e, 0);
    SameDword(c, e, 484);
    SameDword(d, e, 488);
  }

  lemma SameWord(a: seq<byte>, b: seq<byte>, o: nat)
    requires o + 2 <= |a| == |b| && a[o] == b[o] && a[o + 1] == b[o + 1]
    ensures LdWord(a, o) == LdWord(b, o)
  {
  }

  lemma SameDword(a: seq<byte>, b: seq<byte>, o: nat)
    requires o + 4 <= |a| == |b| && forall i :: o <= i < o + 4 ==> a[i] == b[i]
    ensures LdDword(a, o) == LdDword(b, o)
  {
  }

  /** The window over the FSInfo sector: outside the FAT, and exempt from coherence. */
  lemma FsInfoStep(g: Geometry, a: WinState, b: WinState, fat: seq<nat>)
    requires a.Coherent(g) && !a.wflag && g.fsinfo && FatOf(g, a.disk, fat)
    requires b.winsect == g.volbase + 1 && !b.wflag && |b.win| == 512 && |b.disk| == |a.disk|
    requires forall s :: 0 <= s < |a.disk| && s != g.volbase + 1 ==> b.disk[s] == a.disk[s]
    ensures b.Coherent(g) && FatOf(g, b.disk, fat) && b.Logical() == b.disk
    ensures forall x :: MirroredBut(g, a.disk, x) ==> MirroredBut(g, b.disk, x)
    ensures forall m :: FatOf(g, a.disk, m) ==> FatOf(g, b.disk, m)
  {
    hide FatOf;
    forall m | FatOf(g, a.disk, m)
      ensures FatOf(g, b.disk, m)
    {
      FatOfFrame(g, a.disk, b.disk, m);
    }
  }

  /** From `a` to `b`, where `done`, the logical content of plain sectors has reached the medium; in any case no
      plain sector changed but the one dirty in the window. */
  ghost predicate Settled(g: Geometry, a: WinState, b: WinState, done: bool) {
    && |b.disk| == |a.disk|
    && (forall s {:trigger b.disk[s]} ::
          0 <= s < |a.disk| && Plain(g, s) && !(a.wflag && s == a.winsect) ==> b.disk[s] == a.disk[s])
    && (done ==> forall s {:trigger b.disk[s]} :: 0 <= s < |a.disk| && Plain(g, s) ==> b.disk[s] == a.Logical()[s])
    && (!done ==> b.win == a.win && b.wflag == a.wflag && b.winsect == a.winsect)
    && (b.wflag ==> a.wflag && b.winsect == a.winsect)
    && (b.winsect == a.winsect || (g.fsinfo && b.winsect == g.volbase + 1))
  }

  lemma FlushedSettled(g: Geometry, a: WinState, b: WinState)
    requires Flushed(g, a, b) && b.winsect == a.winsect && b.win == a.win && (b.wflag ==> a.wflag)
    ensures Settled(g, a, b, !b.wflag)
  {
    if !b.wflag {
      forall s | 0 <= s < |a.disk| && Plain(g, s)
        ensures b.disk[s] == a.Logical()[s]
      {
        assert b.Logical()[s] == a.Logical()[s];
      }
    }
  }

  /** From `b` to `c`, both clean, at most FSInfo was written. */
  ghost predicate InfoOnly(g: Geometry, b: WinState, c: WinState) {
    && |c.disk| == |b.disk| && !c.wflag
    && (c == b || (g.fsinfo && c.winsect == g.volbase + 1
                   && forall s :: 0 <= s < |b.disk| && s != g.volbase + 1 ==> c.disk[s] == b.disk[s]))
  }

  lemma InfoSettled(g: Geometry, a: WinState, b: WinState, c: WinState)
    requires Settled(g, a, b, true) && InfoOnly(g, b, c)
    ensures Settled(g, a, c, true)
  {
  }

  /** The FSInfo part of sync_fs. Whether the sector gets written is not checked. */
  method WriteFsInfo(fs: Fatfs) returns (ghost sent: bool)
    requires fs.Valid() && fs.g.fsinfo && !fs.wflag
    modifies fs`disk, fs`medium, fs`winsect, fs`fsiDirty, fs.win
    ensures !fs.fsiDirty
    ensures fs.medium == old(fs.medium).Written(sent).(counts := (fs.freeClst, fs.lastClst), sent := sent)
    ensures fs.Valid() && fs.winsect == fs.g.volbase + 1 && |fs.disk| == old(|fs.disk|)
    ensures fs.win[..] == FsInfoSector(fs.freeClst, fs.lastClst)
    ensures forall s :: 0 <= s < |fs.disk| && s != fs.g.volbase + 1 ==> fs.disk[s] == old(fs.disk)[s]
  {
    hide MirroredBut, FatOf, Geometry.WellFormed, FsInfoSector, WellLogged, InfoKept, WinState.Coherent,
         WinState.Logical;
    ghost var a := fs.St();
    ValidBasics(fs);
    CleanFat(fs);
    FsInfoPlace(fs.g, |fs.disk|);
    CopyInto(fs.win, 0, FsInfoSector(fs.freeClst, fs.lastClst));
    fs.winsect := fs.g.volbase + 1;
    var ok := DiskWrite(fs, fs.win[..], fs.winsect);
    fs.fsiDirty := false;
    sent := ok;
    fs.medium := fs.medium.(counts := (fs.freeClst, fs.lastClst), sent := sent);
    FsInfoStep(fs.g, a, fs.St(), fs.fat);
    InfoSent(fs.g, fs.disk, fs.medium, fs.freeClst, fs.lastClst);
  }

  lemma InfoSent(g: Geometry, disk: seq<Sector>, m: Medium, free: u32, last: u32)
    requires g.volbase + 1 < |disk| && m.counts == (free, last)
    requires m.sent ==> disk[g.volbase + 1] == FsInfoSector(free, last)
    ensures InfoKept(g, disk, m, false, free, last)
  {
    hide FsInfoSector, InfoCounts;
    FsInfoReadsBack(free, last);
  }

  /** The second half of sync_fs, the window being clean: FSInfo and CTRL_SYNC. */
  method SyncDevice(fs: Fatfs) returns (res: FResult)
    requires fs.Valid() && !fs.wflag
    modifies fs`disk, fs`medium, fs`winsect, fs`fsiDirty, fs.win
    ensures fs.Valid() && InfoOnly(fs.g, old(fs.St()), fs.St())
    ensures res == FrOk || res == FrDiskErr
    ensures res == FrDiskErr ==> Faulted(old(fs.medium), fs.medium)
    ensures fs.g.fsType == Fat32 && fs.g.fsinfo && old(fs.fsiDirty) ==>
      fs.winsect == fs.g.volbase + 1 && fs.win[..] == FsInfoSector(fs.freeClst, fs.lastClst)
    ensures fs.g.fsinfo ==> !fs.fsiDirty
    ensures fs.g.fsinfo && old(fs.fsiDirty) && fs.medium.faults == old(fs.medium.faults) ==> fs.medium.sent
    ensures res == FrOk ==> fs.medium.flushed
    ensures fs.medium.at == old(fs.medium.at) && fs.medium.damaged == old(fs.medium.damaged)
    ensures Onward(old(fs.medium), fs.medium)
  {
    hide Fatfs.Valid, Geometry.WellFormed, FsInfoSector;
    ValidBasics(fs);
    if fs.g.fsinfo { FsInfoPlace(fs.g, |fs.disk|); }
    if fs.g.fsType == Fat32 && fs.g.fsinfo && fs.fsiDirty {
      ghost var _ := WriteFsInfo(fs);
    }
    var ok: bool := *;    // disk_ioctl(CTRL_SYNC)
    Note(fs, fs.medium.Confirmed(ok));
    res := if ok then FrOk else FrDiskErr;
  }

  /** sync_fs. On FR_OK nothing is pending in the window and the FAT on the medium is the current one. */
  method SyncFs(fs: Fatfs) returns (res: FResult)
    requires fs.Valid()
    modifies fs`disk, fs`wflag, fs`medium, fs`winsect, fs`fsiDirty, fs.win
    ensures fs.Valid() && Settled(fs.g, old(fs.St()), fs.St(), !fs.wflag)
    ensures res == FrOk || res == FrDiskErr
    ensures res == FrDiskErr ==> Faulted(old(fs.medium), fs.medium)
    // it fails with the window unwritten, or because the device reports so
    ensures res == FrOk ==> !fs.wflag
    ensures fs.wflag ==> old(fs.wflag) && fs.winsect == old(fs.winsect)
    ensures !fs.wflag ==> FatOf(fs.g, fs.disk, fs.fat)
    ensures old(fs.wflag) && !fs.wflag ==> fs.medium.at == |fs.log| - 1 && !fs.medium.damaged
    // what sync_fs sends to the FSInfo sector is what mount_volume takes the counts from; see FsInfoReadsBack
    ensures res == FrOk && fs.g.fsType == Fat32 && fs.g.fsinfo && old(fs.fsiDirty) ==>
      fs.winsect == fs.g.volbase + 1 && fs.win[..] == FsInfoSector(fs.freeClst, fs.lastClst)
    ensures !fs.wflag && fs.g.fsinfo ==> !fs.fsiDirty
    ensures fs.g.fsinfo && old(fs.fsiDirty) && fs.medium.faults == old(fs.medium.faults) ==> fs.medium.sent
    // the device has confirmed to have stored everything
    ensures res == FrOk ==> fs.medium.flushed
    ensures Onward(old(fs.medium), fs.medium)
  {
    hide Fatfs.Valid, FatOf, Flushed, Settled, FsInfoSector, WinState.Logical, InfoOnly;
    ghost var a, m0 := fs.St(), fs.medium;
    res := SyncWindow(fs);
    FlushedSettled(fs.g, a, fs.St());
    ghost var b, m1 := fs.St(), fs.medium;
    if res == FrOk {
      res := SyncDevice(fs);
      InfoKeepsClean(fs.g, b, fs.St());
      InfoSettled(fs.g, a, b, fs.St());
      OnwardTrans(m0, m1, fs.medium);
    }
    if !fs.wflag { CleanFat(fs); }
  }

  lemma InfoKeepsClean(g: Geometry, b: WinState, c: WinState)
    requires InfoOnly(g, b, c)
    ensures !c.wflag && |c.disk| == |b.disk|
  {
  }

  lemma FsInfoPlace(g: Geometry, nsect: nat)
    requires g.WellFormed(nsect) && g.fsinfo
    ensures 0 < g.volbase + 1 < g.fatbase < nsect < 0xFFFF_FFFF && !g.InFats(g.volbase + 1) && g.fsType == Fat32
  {
  }

  // ---------- the directory entry ----------

  /** The attribute with the archive bit set. */
  function WithArchive(attr: byte): byte {
    if attr / 0x20 % 2 == 1 then attr else attr + 0x20
  }

  /** AM_ARC set, all other bits the same. */
  predicate OnlyArchive(a: byte, b: byte) {
    (b as int) / 0x20 % 2 == 1 && (b as int) % 0x20 == (a as int) % 0x20 && (b as int) / 0x40 == (a as int) / 0x40
  }

  /** ld_clust. */
  function LdClust(g: Geometry, s: seq<byte>, o: nat): nat
    requires o + 32 <= |s|
  {
    LdWord(s, o + 26) as nat + (if g.fsType == Fat32 then 0x1_0000 * (LdWord(s, o + 20) as nat) else 0)
  }

  /** st_clust. */
  function StClust(g: Geometry, s: seq<byte>, o: nat, c: u32): (r: seq<byte>)
    requires o + 32 <= |s|
    ensures |r| == |s|
  {
    var a := StWord(s, o + 26, c % 0x1_0000);
    if g.fsType == Fat32 then StWord(a, o + 20, c / 0x1_0000) else a
  }

  /** The entry as f_sync stores it: start cluster, size, archive bit and times. */
  function UpdatedEntry(g: Geometry, s: seq<byte>, o: nat, sclust: u32, size: u32, tm: u32): (r: seq<byte>)
    requires o + 32 <= |s|
    ensures |r| == |s|
  {
    var a := s[o + 11 := WithArchive(s[o + 11])];
    var b := StClust(g, a, o, sclust);
    var c := StDword(b, o + 28, size);
    var d := StDword(c, o + 22, tm);
    StWord(d, o + 18, 0)
  }

  /** Start cluster, size and time read back, and no other entry of the sector is touched. */
  lemma EntryReadsBack(g: Geometry, s: seq<byte>, o: nat, sclust: u32, size: u32, tm: u32)
    requires o + 32 <= |s| && (g.fsType != Fat32 ==> sclust < 0x1_0000)
    ensures var r := UpdatedEntry(g, s, o, sclust, size, tm);
      && LdClust(g, r, o) == sclust && LdDword(r, o + 28) == size
      && (forall i :: 0 <= i < |s| && !(o <= i < o + 32) ==> r[i] == s[i])
      && LdDword(r, o + 22) == tm && LdWord(r, o + 18) == 0
  {
    hide LdWord, LdDword, StWord, StDword;
    var a := s[o + 11 := WithArchive(s[o + 11])];
    var b := StClust(g, a, o, sclust);
    ClustReadsBack(g, a, o, sclust);
    var c := StDword(b, o + 28, size);
    DwordRoundTrip(b, o + 28, size);
    var d := StDword(c, o + 22, tm);
    DwordRoundTrip(c, o + 22, tm);
    var e := StWord(d, o + 18, 0);
    WordRoundTrip(d, o + 18, 0);
    SameBytesLoad(g, b, c, o) by { }
    SameFields(g, c, e, o);
    SameDword(d, e, o + 22);
  }

  /** Name, case flags and all bits of the attribute but the archive bit stay. */
  lemma UpdatedBytes(g: Geometry, s: seq<byte>, o: nat, sclust: u32, size: u32, tm: u32)
    requires o + 32 <= |s|
    ensures var r := UpdatedEntry(g, s, o, sclust, size, tm);
      && r[o + 11] == WithArchive(s[o + 11]) && OnlyArchive(s[o + 11], r[o + 11])
      && forall i :: 0 <= i < |s| && i != o + 11 && !(o + 13 <= i < o + 32) ==> r[i] == s[i]
  {
    var a := s[o + 11 := WithArchive(s[o + 11])];
    var b := StClust(g, a, o, sclust);
    var c := StDword(b, o + 28, size);
    var d := StDword(c, o + 22, tm);
    var e := StWord(d, o + 18, 0);
  }

  lemma ClustReadsBack(g: Geometry, s: seq<byte>, o: nat, c: u32)
    requires o + 32 <= |s| && (g.fsType != Fat32 ==> c < 0x1_0000)
    ensures LdClust(g, StClust(g, s, o, c), o) == c
    ensures forall i :: 0 <= i < |s| && !(o + 20 <= i < o + 22) && !(o + 26 <= i < o + 28) ==>
                          StClust(g, s, o, c)[i] == s[i]
  {
  }

  lemma SameBytesLoad(g: Geometry, s: seq<byte>, r: seq<byte>, o: nat)
    requires o + 32 <= |s| == |r| && forall i :: o <= i < o + 28 ==> r[i] == s[i]
    ensures LdClust(g, r, o) == LdClust(g, s, o)
  {
  }

  lemma SameFields(g: Geometry, s: seq<byte>, r: seq<byte>, o: nat)
    requires o + 32 <= |s| == |r|
    requires forall i :: o <= i < o + 32 && !(o + 18 <= i < o + 20) && !(o + 22 <= i < o + 26) ==> r[i] == s[i]
    ensures LdClust(g, r, o) == LdClust(g, s, o) && LdDword(r, o + 28) == LdDword(s, o + 28)
  {
  }

  // ---------- what a directory entry on the medium says ----------

  /** A directory entry's place: outside FAT copies and FSInfo sector, 32 bytes inside one sector. */
  ghost predicate EntryPlace(g: Geometry, nsect: nat, sect: u32, o: nat) {
    Plain(g, sect) && sect < nsect < 0xFFFF_FFFF && o + 32 <= 512
  }

  /** Read off the medium alone: `fat` is its FAT, `ch` the chain the entry at (sect, o) starts, `bytes` the data. */
  ghost predicate Stores(g: Geometry, disk: seq<Sector>, sect: u32, o: nat, fat: seq<nat>, ch: seq<nat>,
                         bytes: seq<byte>) {
    && g.WellFormed(|disk|) && Layout(g) && GoodChain(g, ch) && sect < |disk| && o + 32 <= 512
    && FatOf(g, disk, fat)
    && (if ch == [] then LdClust(g, disk[sect], o) == 0
        else IsChain(fat, ch) && ch[0] == LdClust(g, disk[sect], o) != 0)
    && |bytes| == LdDword(disk[sect], o + 28) <= Capacity(g, ch)
    && forall p :: 0 <= p < |bytes| ==>
         && Idx(g, p / 512) < |ch| && 0 <= SectorOf(g, ch, p / 512) < |disk|
         && bytes[p] == disk[SectorOf(g, ch, p / 512)][p % 512]
  }

  /** The medium determines the file: two readings of one entry agree. */
  lemma StoredOnce(g: Geometry, disk: seq<Sector>, sect: u32, o: nat,
                   fat: seq<nat>, ch: seq<nat>, bytes: seq<byte>, fat2: seq<nat>, ch2: seq<nat>, bytes2: seq<byte>)
    requires Stores(g, disk, sect, o, fat, ch, bytes) && Stores(g, disk, sect, o, fat2, ch2, bytes2)
    ensures fat == fat2 && ch == ch2 && bytes == bytes2
  {
    hide Idx, Off, SectorOf, Capacity, Entry, GoodChain, LdClust, LdDword;
    assert fat == fat2;
    if ch != [] && ch2 != [] {
      ChainUnique(fat, ch, ch2);
    }
    assert ch == ch2;
    forall p | 0 <= p < |bytes|
      ensures bytes[p] == bytes2[p]
    {
    }
  }

  /** The bytes of a file without dirty buffer lie on the medium. */
  lemma BytesThere(g: Geometry, disk: seq<Sector>, f: FileState)
    requires Readable(g, disk, f) && f.objsize <= Capacity(g, f.ch) && !f.dirty
    ensures var c := Content(g, disk, f);
      forall p :: 0 <= p < |c| ==>
        && Idx(g, p / 512) < |f.ch| && 0 <= SectorOf(g, f.ch, p / 512) < |disk|
        && c[p] == disk[SectorOf(g, f.ch, p / 512)][p % 512]
  {
    hide Idx, Off, SectorOf, Capacity, ByteAt;
    var c := Content(g, disk, f);
    forall p | 0 <= p < |c|
      ensures Idx(g, p / 512) < |f.ch| && 0 <= SectorOf(g, f.ch, p / 512) < |disk|
        && c[p] == disk[SectorOf(g, f.ch, p / 512)][p % 512]
    {
      ByteIs(g, disk, f, p);
    }
  }

  /** A written-out file whose entry shows its start and size is stored. */
  lemma WrittenOut(g: Geometry, fat: seq<nat>, st: WinState, f: FileState, sect: u32, o: nat)
    requires Core(g, fat, st, f) && !f.dirty && FatOf(g, st.disk, fat) && sect < |st.disk| && o + 32 <= 512
    requires LdClust(g, st.disk[sect], o) == f.sclust && LdDword(st.disk[sect], o + 28) == f.objsize
    ensures Readable(g, st.disk, f) && f.objsize <= Capacity(g, f.ch)
    ensures Stores(g, st.disk, sect, o, fat, f.ch, Content(g, st.disk, f))
  {
    hide Idx, Off, SectorOf, Capacity, Content, LdClust, LdDword, ByteAt, FatOf, IsChain;
    if f.ch != [] { ChainStep(fat, f.ch, 0) by { assert IsChain(fat, f.ch); ChainNonEmpty(f.ch); } }
    BytesThere(g, st.disk, f);
  }

  lemma ChainNonEmpty(ch: seq<nat>)
    requires ch != []
    ensures 0 < |ch|
  {
  }

  lemma CoreBasics(g: Geometry, fat: seq<nat>, st: WinState, f: FileState)
    requires Core(g, fat, st, f)
    ensures Readable(g, st.disk, f) && f.objsize <= Capacity(g, f.ch)
  {
  }

  /** The medium stores the file `f`: its entry, the FAT and the data sectors there say what `f` is. */
  ghost predicate StoredAt(g: Geometry, disk: seq<Sector>, sect: u32, o: nat, f: FileState) {
    && Readable(g, disk, f) && f.objsize <= Capacity(g, f.ch)
    && exists fat :: Stores(g, disk, sect, o, fat, f.ch, Content(g, disk, f))
  }

  /** The same, and nothing of it is pending: not in the sector buffer, not in the window, and the FAT on the medium is
      not damaged. */
  ghost predicate SavedAt(g: Geometry, st: WinState, damaged: bool, sect: u32, o: nat, f: FileState) {
    StoredAt(g, st.disk, sect, o, f) && !f.dirty && !(st.wflag && st.winsect == sect) && !damaged
  }

  ghost predicate OnMedium(fs: Fatfs, fp: Fil)
    reads fs`disk, fp, fp.buf
  {
    StoredAt(fs.g, fs.disk, fp.dirSect, fp.dirOfs, Unbuffered(fp.State()))
  }

  ghost predicate Saved(fs: Fatfs, fp: Fil)
    reads fs, fs.win, fp, fp.buf
  {
    SavedAt(fs.g, fs.St(), fs.medium.damaged, fp.dirSect, fp.dirOfs, Unbuffered(fp.State()))
  }

  /** What the invariant of the volume says of the FAT on the medium. */
  ghost predicate MediumShows(g: Geometry, disk: seq<Sector>, log: seq<LogEntry>, m: Medium) {
    m.at < |log| && (!m.damaged ==> FatOf(g, disk, log[m.at].fat))
  }

  lemma MediumNow(fs: Fatfs)
    requires fs.Valid()
    ensures MediumShows(fs.g, fs.disk, fs.log, fs.medium)
    ensures |fs.log| > 0 && fs.log[|fs.log| - 1].fat == fs.fat
    ensures fs.medium.damaged ==> fs.wflag
  {
    hide FatOf, MirroredBut, WellLogged, WinState.Coherent;
  }

  lemma FatOfUnique(g: Geometry, img: seq<Sector>, a: seq<nat>, b: seq<nat>)
    requires FatOf(g, img, a) && FatOf(g, img, b)
    ensures a == b
  {
    hide Entry;
  }

  /** The entry's sector is not written by work on the FAT and on the file. */
  lemma EntryUntouched(g: Geometry, ch: seq<nat>, a: WinState, fa: seq<nat>, b: WinState, fb: seq<nat>, sect: u32,
                       o: nat)
    requires OwnOnly(g, ch, a, fa, b, fb) && EntryPlace(g, |a.disk|, sect, o) && !InFile(g, ch, sect)
    requires !(a.wflag && a.winsect == sect)
    ensures |b.disk| == |a.disk| && b.disk[sect] == a.disk[sect] && !(b.wflag && b.winsect == sect)
  {
    hide InFile;
  }

  /** A saved file stays saved while nothing of it is changed and no write fails. */
  lemma StillSaved(g: Geometry, a: WinState, fa: seq<nat>, loga: seq<LogEntry>, ma: Medium, f0: FileState,
                   b: WinState, fb: seq<nat>, logb: seq<LogEntry>, mb: Medium, f1: FileState, sect: u32, o: nat)
    requires SavedAt(g, a, ma.damaged, sect, o, f0) && MediumShows(g, a.disk, loga, ma)
    requires MediumShows(g, b.disk, logb, mb) && |logb| > 0 && logb[|logb| - 1].fat == fb
    requires OwnOnly(g, f1.ch, a, fa, b, fb) && NoPut(loga, ma, logb, mb)
    requires EntryPlace(g, |a.disk|, sect, o) && !InFile(g, f1.ch, sect)
    requires Core(g, fb, b, f1) && !f1.dirty && f1.ch == f0.ch && f1.objsize == f0.objsize
    requires Readable(g, a.disk, f0) && f0.objsize <= Capacity(g, f0.ch)
    requires Content(g, b.disk, f1) == Content(g, a.disk, f0)
    ensures SavedAt(g, b, mb.damaged, sect, o, f1)
  {
    hide Idx, Off, SectorOf, Capacity, FatOf, LdClust, LdDword, InFile, OwnOnly, IsChain, Content, GoodChain, Layout;
    EntryUntouched(g, f1.ch, a, fa, b, fb, sect, o);
    CoreBasics(g, fb, b, f1);
    var fat :| Stores(g, a.disk, sect, o, fat, f0.ch, Content(g, a.disk, f0));
    FatOfUnique(g, a.disk, fat, loga[ma.at].fat);
    BytesThere(g, b.disk, f1);
    CoreChain(g, fb, b, f1);
    assert Stores(g, b.disk, sect, o, logb[mb.at].fat, f1.ch, Content(g, b.disk, f1));
  }

  /** Stored files have the size their entry says. */
  lemma StoredSize(g: Geometry, disk: seq<Sector>, sect: u32, o: nat, f: FileState)
    requires StoredAt(g, disk, sect, o, f)
    ensures sect < |disk| && o + 32 <= 512 && f.objsize == LdDword(disk[sect], o + 28)
  {
    hide Idx, Off, SectorOf, Capacity, FatOf, LdClust, LdDword, IsChain, GoodChain, Layout;
  }

  // ---------- f_sync ----------

  /** Moving the window to the entry's sector keeps the file. */
  lemma MoveStep(g: Geometry, fat: seq<nat>, a: WinState, b: WinState, f: FileState, sect: u32)
    requires Core(g, fat, a, f) && Flushed(g, a, b)
    requires b.winsect == sect || b.winsect == a.winsect || b.winsect == INVALID_SECTOR
    requires !InFile(g, f.ch, sect) && (f.sect != 0 ==> sect != f.sect)
    ensures Core(g, fat, b, f) && SameSectors(g, a.disk, f, b.disk, f) && |b.disk| == |a.disk|
  {
    hide Idx, Off, Sect, SectorOf, Geometry.WellFormed, Capacity, WinState.Logical, IsChain, GoodChain, Layout;
    FileSectorFacts(g, a.disk, f);
    if f.sect != 0 {
      NotInFats(g, |a.disk|, f.sect);
    }
    BelowInvalid(g, |a.disk|);
    forall k: nat | Idx(g, k) < |f.ch|
      ensures SectorData(g, b.disk, f, k) == SectorData(g, a.disk, f, k)
    {
      assert InFile(g, f.ch, SectorOf(g, f.ch, k));
    }
    InvalidNotInFile(g, |a.disk|, f.ch);
  }

  lemma InvalidNotInFile(g: Geometry, nsect: nat, ch: seq<nat>)
    requires g.WellFormed(nsect) && Layout(g) && GoodChain(g, ch)
    ensures !InFile(g, ch, INVALID_SECTOR)
    ensures g.fsinfo ==> !InFile(g, ch, g.volbase + 1) && g.volbase + 1 < g.database
  {
    hide Idx, Off, SectorOf;
    forall k: nat | Idx(g, k) < |ch|
      ensures SectorOf(g, ch, k) != INVALID_SECTOR as int && (g.fsinfo ==> SectorOf(g, ch, k) != g.volbase + 1)
    {
      SectorOfRange(g, nsect, ch, k);
    }
  }

  /** Flushing everything keeps the file. */
  lemma SettleStep(g: Geometry, fat: seq<nat>, a: WinState, b: WinState, f: FileState, done: bool)
    requires Core(g, fat, a, f) && Settled(g, a, b, done)
    ensures Core(g, fat, b, f) && SameSectors(g, a.disk, f, b.disk, f)
  {
    hide Idx, Off, Sect, SectorOf, Geometry.WellFormed, Capacity, WinState.Logical, IsChain, GoodChain, Layout;
    FileSectorFacts(g, a.disk, f);
    InvalidNotInFile(g, |a.disk|, f.ch);
    if f.sect != 0 {
      NotInFats(g, |a.disk|, f.sect);
    }
    forall k: nat | Idx(g, k) < |f.ch|
      ensures SectorData(g, b.disk, f, k) == SectorData(g, a.disk, f, k)
    {
      assert InFile(g, f.ch, SectorOf(g, f.ch, k));
    }
  }

  /** f_sync's view of the directory entry: its sector is no sector of the file. */
  ghost predicate EntryApart(fs: Fatfs, fp: Fil)
    reads fs`disk, fp`ch
  {
    EntryPlace(fs.g, |fs.disk|, fp.dirSect, fp.dirOfs) && !InFile(fs.g, fp.ch, fp.dirSect)
  }

  /** From `a` to `b` nothing was written but FAT copies, FSInfo, sectors of the file, the entry's sector and the one
      that was dirty in the window. */
  ghost predicate SyncOnly(g: Geometry, ch: seq<nat>, sect: u32, a: WinState, b: WinState) {
    && |b.disk| == |a.disk|
    && (forall s {:trigger b.disk[s]} ::
          0 <= s < |a.disk| && Plain(g, s) && !InFile(g, ch, s) && s != sect && !(a.wflag && s == a.winsect) ==>
            b.disk[s] == a.disk[s])
    && (forall s {:trigger b.Logical()[s]} ::
          0 <= s < |a.disk| && Plain(g, s) && !InFile(g, ch, s) && s != sect ==> b.Logical()[s] == a.Logical()[s])
    && (b.wflag ==> b.winsect == sect || (a.wflag && b.winsect == a.winsect))
  }

  lemma SyncOnlySelf(g: Geometry, ch: seq<nat>, sect: u32, a: WinState)
    ensures SyncOnly(g, ch, sect, a, a)
  {
  }

  lemma SyncOnlyTrans(g: Geometry, ch: seq<nat>, sect: u32, a: WinState, b: WinState, c: WinState)
    requires SyncOnly(g, ch, sect, a, b) && SyncOnly(g, ch, sect, b, c)
    ensures SyncOnly(g, ch, sect, a, c)
  {
    hide InFile, Plain;
    forall s | 0 <= s < |a.disk| && Plain(g, s) && !InFile(g, ch, s) && s != sect && !(a.wflag && s == a.winsect)
      ensures c.disk[s] == a.disk[s]
    {
      assert b.disk[s] == a.disk[s];
    }
  }

  lemma OwnSyncOnly(g: Geometry, ch: seq<nat>, sect: u32, a: WinState, fa: seq<nat>, b: WinState, fb: seq<nat>)
    requires OwnOnly(g, ch, a, fa, b, fb) && b.wflag == a.wflag && b.winsect == a.winsect
    ensures SyncOnly(g, ch, sect, a, b)
  {
    hide InFile;
  }

  lemma FlushedSyncOnly(g: Geometry, ch: seq<nat>, sect: u32, a: WinState, b: WinState)
    requires Flushed(g, a, b) && (b.wflag ==> a.wflag && b.winsect == a.winsect)
    ensures SyncOnly(g, ch, sect, a, b)
  {
    hide InFile, WinState.Logical;
  }

  lemma EditSyncOnly(g: Geometry, ch: seq<nat>, sect: u32, a: WinState, b: WinState)
    requires b.disk == a.disk && b.winsect == a.winsect == sect
    ensures SyncOnly(g, ch, sect, a, b)
  {
    hide InFile;
  }

  lemma SettledSyncOnly(g: Geometry, ch: seq<nat>, sect: u32, a: WinState, b: WinState, done: bool)
    requires Settled(g, a, b, done) && done == !b.wflag && |a.win| == 512
    ensures SyncOnly(g, ch, sect, a, b)
  {
    hide InFile;
    forall s | 0 <= s < |a.disk| && Plain(g, s)
      ensures b.Logical()[s] == a.Logical()[s]
    {
      if done {
        assert b.disk[s] == a.Logical()[s];
      } else {
        assert b.disk[s] == a.disk[s] || (a.wflag && s == a.winsect);
      }
    }
  }

  /** The sector `now` is `before` with the entry of `fp` as f_sync stores it. */
  ghost predicate EntryPut(g: Geometry, fp: Fil, tm: u32, before: seq<byte>, now: seq<byte>)
    reads fp`sclust, fp`objsize
  {
    && |before| == 512 && fp.dirOfs + 32 <= 512 && fp.objsize <= 0xFFFF_FFFF
    && now == UpdatedEntry(g, before, fp.dirOfs, fp.sclust, fp.objsize, tm)
  }

  /** Bring the entry's sector into the window and update the entry there. `f` is the file with or without its
      buffer. */
  method UpdateEntry(fs: Fatfs, fp: Fil, tm: u32, ghost f: FileState) returns (res: FResult)
    requires fs.Valid() && fs.g.fsType != ExFat && Core(fs.g, fs.fat, fs.St(), f) && EntryApart(fs, fp)
    requires f.ch == fp.ch && (f.sect != 0 ==> f.sect != fp.dirSect)
    requires f.sclust == fp.sclust && f.objsize == fp.objsize
    modifies fs`disk, fs`wflag, fs`medium, fs`winsect, fs.win
    ensures fs.Valid() && |fs.disk| == old(|fs.disk|)
    ensures res == FrOk || res == FrDiskErr
    ensures res == FrDiskErr ==> Faulted(old(fs.medium), fs.medium)
    ensures Core(fs.g, fs.fat, fs.St(), f) && Content(fs.g, fs.disk, f) == Content(fs.g, old(fs.disk), f)
    ensures res == FrOk ==> fp.dirOfs + 32 <= 512 && fp.dirSect < |fs.disk| && fs.wflag && fs.winsect == fp.dirSect
    ensures fp.dirSect < old(|fs.disk|)
    ensures res == FrOk ==>
      EntryPut(fs.g, fp, tm, old(fs.St().Logical()[fp.dirSect]), fs.St().Logical()[fp.dirSect])
    ensures res == FrOk ==> var e := fs.St().Logical()[fp.dirSect];
      LdClust(fs.g, e, fp.dirOfs) == fp.sclust && LdDword(e, fp.dirOfs + 28) == fp.objsize
    ensures SyncOnly(fs.g, fp.ch, fp.dirSect, old(fs.St()), fs.St())
    ensures Onward(old(fs.medium), fs.medium)
  {
    hide MirroredBut, WellLogged, FatOf, Geometry.WellFormed, Flushed, WinState.Coherent, Core, WinState.Logical,
         Content, InFile, UpdatedEntry, LdClust, LdDword, SameSectors, Capacity, SyncOnly, EntryPut;
    ghost var a := fs.St();
    CoreBasics(fs.g, fs.fat, a, f);
    res := MoveWindow(fs, fp.dirSect);
    MoveStep(fs.g, fs.fat, a, fs.St(), f, fp.dirSect);
    SameContent(fs.g, a.disk, f, fs.disk, f);
    FlushedSyncOnly(fs.g, fp.ch, fp.dirSect, a, fs.St());
    if res == FrOk {
      ghost var b := fs.St();
      FlushedAt(fs.g, a, b, fp.dirSect);
      EditEntry(fs, fp, tm, f);
      EditSyncOnly(fs.g, fp.ch, fp.dirSect, b, fs.St());
      SyncOnlyTrans(fs.g, fp.ch, fp.dirSect, a, b, fs.St());
    }
  }

  /** The entry's sector being in the window, store start cluster, size and time there. */
  method EditEntry(fs: Fatfs, fp: Fil, tm: u32, ghost f: FileState)
    requires fs.Valid() && fs.g.fsType != ExFat && Core(fs.g, fs.fat, fs.St(), f) && EntryApart(fs, fp)
    requires f.ch == fp.ch && (f.sect != 0 ==> f.sect != fp.dirSect)
    requires fs.winsect == fp.dirSect
    requires f.sclust == fp.sclust && f.objsize == fp.objsize
    requires fs.win.Length == 512 && fs.win[..] == fs.St().Logical()[fs.winsect]
    modifies fs`wflag, fs.win
    ensures fs.Valid() && Core(fs.g, fs.fat, fs.St(), f)
    ensures fp.dirOfs + 32 <= 512 && fp.dirSect < |fs.disk| && fs.wflag
    ensures EntryPut(fs.g, fp, tm, old(fs.St().Logical()[fp.dirSect]), fs.St().Logical()[fp.dirSect])
    ensures var e := fs.St().Logical()[fp.dirSect];
      LdClust(fs.g, e, fp.dirOfs) == fp.sclust && LdDword(e, fp.dirOfs + 28) == fp.objsize
  {
    hide MirroredBut, WellLogged, FatOf, Geometry.WellFormed, WinState.Coherent, Core, WinState.Logical, Content,
         InFile, LdClust, LdDword, Capacity, UpdatedEntry;
    ghost var b := fs.St();
    EntryFits(fs, f);
    StoreEntry(fs.win, fs.g, fp.dirOfs, fp.sclust, fp.objsize, tm);
    fs.wflag := true;
    EditStep(fs.g, b, fs.St(), fs.fat);
    SameCore(fs.g, fs.fat, b, fs.St(), f);
  }

  /** The stores into the directory entry at `o`. */
  method StoreEntry(win: array<byte>, g: Geometry, o: nat, sclust: u32, size: u32, tm: u32)
    requires win.Length == 512 && o + 32 <= 512 && (g.fsType != Fat32 ==> sclust < 0x1_0000)
    modifies win
    ensures win[..] == UpdatedEntry(g, old(win[..]), o, sclust, size, tm)
    ensures LdClust(g, win[..], o) == sclust && LdDword(win[..], o + 28) == size
    ensures forall i :: 0 <= i < 512 && !(o <= i < o + 32) ==> win[i] == old(win[i])
  {
    hide UpdatedEntry, LdClust, LdDword;
    ghost var win0 := win[..];
    var e := UpdatedEntry(g, win[..], o, sclust, size, tm);
    EntryReadsBack(g, win0, o, sclust, size, tm);
    CopyInto(win, 0, e);
    assert win[..] == e;
  }

  lemma SameCore(g: Geometry, fat: seq<nat>, a: WinState, b: WinState, f: FileState)
    requires Core(g, fat, a, f) && b.disk == a.disk && b.winsect == a.winsect
    ensures Core(g, fat, b, f)
  {
    hide IsChain, InFile, Capacity, Readable;
  }

  /** The numbers stored in the entry fit its fields. */
  lemma EntryFits(fs: Fatfs, f: FileState)
    requires fs.Valid() && fs.g.fsType != ExFat && Core(fs.g, fs.fat, fs.St(), f)
    ensures f.objsize <= 0xFFFF_FFFF && (fs.g.fsType != Fat32 ==> f.sclust < 0x1_0000)
    ensures fs.win.Length == 512
  {
    ValidBasics(fs);
    if |f.ch| > 0 { ChainStep(fs.fat, f.ch, 0); }
  }

  /** The rest of f_sync once the dirty buffer is written: the entry, then the window and FSInfo. */
  method SyncEntry(fs: Fatfs, fp: Fil, tm: u32, ghost f: FileState) returns (res: FResult)
    requires fs.Valid() && fs.g.fsType != ExFat && Core(fs.g, fs.fat, fs.St(), f) && EntryApart(fs, fp)
    requires f.ch == fp.ch && (f.sect != 0 ==> f.sect != fp.dirSect)
    requires f.sclust == fp.sclust && f.objsize == fp.objsize && !f.dirty
    modifies fs`disk, fs`wflag, fs`medium, fs`winsect, fs`fsiDirty, fs.win, fp`modified
    ensures fs.Valid() && |fs.disk| == old(|fs.disk|)
    ensures Core(fs.g, fs.fat, fs.St(), f) && Content(fs.g, fs.disk, f) == Content(fs.g, old(fs.disk), f)
    ensures res == FrOk || res == FrDiskErr
    ensures res == FrDiskErr ==> Faulted(old(fs.medium), fs.medium)
    ensures res == FrOk ==> !fp.modified && !fs.wflag
    ensures !fp.modified ==>
      !old(fp.modified) || (fs.wflag && fs.winsect == fp.dirSect) ||
      (!fs.wflag && Stores(fs.g, fs.disk, fp.dirSect, fp.dirOfs, fs.fat, f.ch, Content(fs.g, fs.disk, f)))
    ensures res == FrOk ==> Stores(fs.g, fs.disk, fp.dirSect, fp.dirOfs, fs.fat, f.ch, Content(fs.g, fs.disk, f))
    ensures fp.dirSect < old(|fs.disk|)
    ensures res == FrOk ==> EntryPut(fs.g, fp, tm, old(fs.St().Logical()[fp.dirSect]), fs.disk[fp.dirSect])
    ensures res == FrOk ==> fs.medium.at == |fs.log| - 1 && !fs.medium.damaged
    ensures res == FrOk ==> fs.medium.flushed && (fs.g.fsinfo ==> !fs.fsiDirty)
    ensures fs.g.fsinfo && old(fs.fsiDirty) && fs.medium.faults == old(fs.medium.faults) ==> fs.medium.sent
    ensures SyncOnly(fs.g, fp.ch, fp.dirSect, old(fs.St()), fs.St())
    ensures Onward(old(fs.medium), fs.medium)
  {
    hide Fatfs.Valid, FatOf, Geometry.WellFormed, Core, WinState.Logical, Content, InFile, Capacity, SameSectors,
         LdClust, LdDword, Settled, Stores, SyncOnly, EntryPut;
    ghost var a := fs.St();
    CoreBasics(fs.g, fs.fat, fs.St(), f);
    res := UpdateEntry(fs, fp, tm, f);
    if res != FrOk { return; }
    ghost var b := fs.St();
    CoreBasics(fs.g, fs.fat, b, f);
    EntryFits(fs, f);
    res := SyncFs(fs);
    SettledSyncOnly(fs.g, fp.ch, fp.dirSect, b, fs.St(), !fs.wflag);
    SyncOnlyTrans(fs.g, fp.ch, fp.dirSect, a, b, fs.St());
    SettledSize(fs.g, b, fs.St(), !fs.wflag);
    SettleStep(fs.g, fs.fat, b, fs.St(), f, !fs.wflag);
    SameContent(fs.g, b.disk, f, fs.disk, f);
    fp.modified := false;
    if !fs.wflag {
      SettledAt(fs.g, b, fs.St(), fp.dirSect);
      WrittenOut(fs.g, fs.fat, fs.St(), f, fp.dirSect, fp.dirOfs);
    }
  }

  /** What f_sync makes of the file: the dirty buffer is written, a clean one is not looked at. */
  ghost function Synced(fs: Fatfs, fp: Fil): FileState
    reads fs, fs.win, fp, fp.buf
  {
    if Open(fs, fp) && fp.sect != fp.dirSect then fp.State() else Unbuffered(fp.State())
  }

  lemma Viewed(fs: Fatfs, fp: Fil, f: FileState)
    requires fs.Valid() && fs.g.fsType != ExFat && fp.buf.Length == 512 && fp.buf != fs.win
    requires Core(fs.g, fs.fat, fs.St(), f) && (f == fp.State() || f == Unbuffered(fp.State()))
    ensures Storable(fs, fp) && StorableBytes(fs, fp) == Content(fs.g, fs.disk, f)
    ensures f == fp.State() ==> Open(fs, fp)
    ensures f.ch == fp.ch && f.sclust == fp.sclust && f.objsize == fp.objsize && f.dirty == fp.dirty
  {
    hide Fatfs.Valid, Core, Content;
    if f == fp.State() { UnbufferedSame(fs.g, fs.fat, fs.St(), f); }
  }

  /** The view of the file f_sync works with is one it may work with. */
  lemma SyncedApart(fs: Fatfs, fp: Fil)
    requires Storable(fs, fp) && EntryApart(fs, fp)
    ensures var f := Synced(fs, fp);
      Core(fs.g, fs.fat, fs.St(), f) && (f.sect != 0 ==> f.sect != fp.dirSect) && (fp.dirty ==> f == fp.State())
    ensures fp.dirty ==> Open(fs, fp)
  {
    hide Fatfs.Valid, InFile, IsChain, Readable, Capacity;
  }

  /** A file that was just written out, entry included, is saved. */
  lemma NowSaved(fs: Fatfs, fp: Fil)
    requires Storable(fs, fp) && !fp.dirty && !fs.wflag
    requires Stores(fs.g, fs.disk, fp.dirSect, fp.dirOfs, fs.fat, fp.ch, StorableBytes(fs, fp))
    ensures Saved(fs, fp) && OnMedium(fs, fp)
  {
    hide Stores, Fatfs.Valid, Content;
    MediumNow(fs);
    CoreBasics(fs.g, fs.fat, fs.St(), Unbuffered(fp.State()));
  }

  lemma EntryInMedium(fs: Fatfs, fp: Fil)
    requires EntryApart(fs, fp) && fs.Valid()
    ensures fp.dirSect < |fs.disk| && Plain(fs.g, fp.dirSect) && !InFile(fs.g, fp.ch, fp.dirSect)
    ensures fs.win.Length == 512
  {
  }

  /** Writing the file's own sectors does not change what is in the entry's. */
  lemma LogicalApart(g: Geometry, ch: seq<nat>, a: WinState, fa: seq<nat>, b: WinState, fb: seq<nat>, s: nat)
    requires OwnOnly(g, ch, a, fa, b, fb) && b == a.(disk := b.disk) && Plain(g, s) && !InFile(g, ch, s) && s < |a.disk|
    requires |a.win| == 512
    ensures s < |b.disk| && b.Logical()[s] == a.Logical()[s]
  {
    hide InFile;
  }

  lemma FlushedAt(g: Geometry, a: WinState, b: WinState, s: nat)
    requires Flushed(g, a, b) && Plain(g, s) && s < |a.disk|
    ensures s < |b.disk| && b.Logical()[s] == a.Logical()[s]
  {
  }

  /** f_sync writes the sector buffer out first. */
  method SyncBuffer(fs: Fatfs, fp: Fil) returns (ok: bool)
    requires Open(fs, fp) && fp.dirty && EntryApart(fs, fp)
    modifies fs`disk, fs`medium, fp`dirty
    ensures fs.medium == old(fs.medium).Written(ok)
    ensures Open(fs, fp) && fp.State() == old(fp.State()).(dirty := !ok) && EntryApart(fs, fp)
    ensures FileBytesOf(fs, fp) == old(FileBytesOf(fs, fp))
    ensures AtRest(fs.g, fp.State()) == old(AtRest(fs.g, fp.State()))
    ensures fp.dirSect < |fs.disk| == old(|fs.disk|)
    ensures fs.St().Logical()[fp.dirSect] == old(fs.St().Logical()[fp.dirSect])
    ensures SyncOnly(fs.g, fp.ch, fp.dirSect, old(fs.St()), fs.St())
  {
    hide Fatfs.Valid, Geometry.WellFormed, Core, WinState.Logical, Content, InFile, Capacity, OwnOnly, SameSectors,
         SyncOnly, Readable;
    ghost var a, f := fs.St(), fp.State();
    EntryInMedium(fs, fp);
    OpenBasics(fs, fp);
    ok := FlushBuffer(fs, fp);
    SameContent(fs.g, a.disk, f, fs.disk, fp.State());
    LogicalApart(fs.g, fp.ch, a, fs.fat, fs.St(), fs.fat, fp.dirSect);
    OwnSyncOnly(fs.g, fp.ch, fp.dirSect, a, fs.fat, fs.St(), fs.fat);
  }

  /** f_sync, on an open file or one a failed call has left. On FR_OK nothing of the file is pending and the medium
      alone - its FAT, the directory entry and the data sectors - determines the very bytes of the file, if and only
      if it was marked as changed or that was so before. */
  method FSync(fs: Fatfs, fp: Fil, tm: u32) returns (res: FResult)
    requires Storable(fs, fp) && EntryApart(fs, fp)
    modifies fs`disk, fs`wflag, fs`medium, fs`winsect, fs`fsiDirty, fs.win, fp`dirty, fp`modified
    ensures res == FrOk || res == FrDiskErr
    ensures res == FrDiskErr ==> Faulted(old(fs.medium), fs.medium)
    ensures res == FrOk ==> (Saved(fs, fp) <==> old(fp.modified || Saved(fs, fp)))
    ensures res == FrOk ==> (OnMedium(fs, fp) <==> old(fp.modified || OnMedium(fs, fp)))
    ensures Storable(fs, fp) && StorableBytes(fs, fp) == old(StorableBytes(fs, fp))
    ensures old(Open(fs, fp)) && fp.sect != fp.dirSect ==>
      Open(fs, fp) && FileBytesOf(fs, fp) == old(FileBytesOf(fs, fp))
    ensures AtRest(fs.g, fp.State()) == old(AtRest(fs.g, fp.State()))
    ensures res == FrOk ==> !fp.modified
    ensures !old(fp.modified) ==>
      res == FrOk && fs.St() == old(fs.St()) && fs.medium == old(fs.medium) && fp.dirty == old(fp.dirty)
    ensures res == FrOk && old(fp.modified) ==>
      Stores(fs.g, fs.disk, fp.dirSect, fp.dirOfs, fs.fat, fp.ch, StorableBytes(fs, fp))
    ensures fp.dirSect < old(|fs.disk|)
    ensures res == FrOk && old(fp.modified) ==>
      EntryPut(fs.g, fp, tm, old(fs.St().Logical()[fp.dirSect]), fs.disk[fp.dirSect])
    ensures res == FrOk && old(fp.modified) ==> fs.medium.at == |fs.log| - 1 && !fs.medium.damaged
    // no count is left that FSInfo was not sent, and the device has confirmed the writes
    ensures res == FrOk && old(fp.modified) ==> fs.medium.flushed && (fs.g.fsinfo ==> !fs.fsiDirty)
    ensures old(fp.modified && fs.g.fsinfo && fs.fsiDirty) && fs.medium.faults == old(fs.medium.faults) ==>
      fs.medium.sent
    // when it fails the mark goes all the same if the window could not be written
    ensures res != FrOk ==>
      old(fp.modified) && (fp.modified || Saved(fs, fp) || (fs.wflag && fs.winsect == fp.dirSect))
    ensures |fs.disk| == old(|fs.disk|)
    ensures SyncOnly(fs.g, fp.ch, fp.dirSect, old(fs.St()), fs.St())
    ensures Onward(old(fs.medium), fs.medium)
  {
    hide Fatfs.Valid, FatOf, Geometry.WellFormed, Core, WinState.Logical, Content, InFile, Capacity, OwnOnly,
         SameSectors, LdClust, LdDword, Settled, Stores, Idx, Off, SectorOf, GoodChain, Layout, SavedAt, StoredAt,
         SyncOnly, EntryPut, Readable, AtRest, Unbuffered;
    res := FrOk;
    ghost var a, f := fs.St(), Synced(fs, fp);
    SyncedApart(fs, fp);
    Viewed(fs, fp, f);
    SyncOnlySelf(fs.g, fp.ch, fp.dirSect, a);
    EntryInMedium(fs, fp);
    if fp.modified {
      if fp.dirty {
        var ok := SyncBuffer(fs, fp);
        f := fp.State();
        Viewed(fs, fp, f);
        if !ok { return FrDiskErr; }
      }
      ghost var b := fs.St();
      res := SyncEntry(fs, fp, tm, f);
      SyncOnlyTrans(fs.g, fp.ch, fp.dirSect, a, b, fs.St());
      Viewed(fs, fp, f);
      if !fp.modified && !fs.wflag { NowSaved(fs, fp); }
    }
  }

  lemma SettledSize(g: Geometry, a: WinState, b: WinState, done: bool)
    requires Settled(g, a, b, done)
    ensures |b.disk| == |a.disk|
  {
  }

  lemma SettledAt(g: Geometry, a: WinState, b: WinState, s: u32)
    requires Settled(g, a, b, true) && Plain(g, s) && s < |a.disk|
    ensures |b.disk| == |a.disk| && b.disk[s] == a.Logical()[s]
  {
  }
}
