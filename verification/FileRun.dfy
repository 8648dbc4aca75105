/** Several operations, several files: what the file functions guarantee together. */
module FileRun {
  import opened Bytes
  import opened Volume
  import opened Window
  import opened Forest
  import opened Chains
  import opened FileBytes
  import opened FileSteps
  import opened FatFile
  import opened FileRead
  import opened FileSeek
  import opened FileTruncate
  import opened FileSync
  import opened FileKeep

  /** The sector buffer shows a sector of the file, or none. */
  ghost predicate BufferOwn(g: Geometry, f: FileState) {
    f.sect != 0 ==> InFile(g, f.ch, f.sect)
  }

  lemma ChainKept(fa: seq<nat>, fb: seq<nat>, ch: seq<nat>, g: Geometry, mine: seq<nat>, a: WinState, b: WinState)
    requires IsChain(fa, ch) && OwnOnly(g, mine, a, fa, b, fb) && Disjoint(ch, mine)
    ensures IsChain(fb, ch)
  {
    hide InFile;
    forall i | 0 <= i < |ch|
      ensures fb[ch[i]] == fa[ch[i]]
    {
      if i + 1 < |ch| { ChainNext(fa, ch, i); }
    }
  }

  /** The sector buffer, if it is not dirty, still shows what the medium holds. */
  ghost predicate BufferFresh(st: WinState, f: FileState) {
    f.sect != 0 ==> st.winsect != f.sect && (!f.dirty ==> f.sect < |st.disk| && st.disk[f.sect] == f.buf)
  }

  /** Whatever one file's functions do, another open file keeps its chain and every byte. It can be gone on with if and
      only if its buffer is fresh: it is, unless it still showed a sector the file had given up and the other now
      has. */
  lemma OtherFileKept(g: Geometry, mine: seq<nat>, a: WinState, fa: seq<nat>, b: WinState, fb: seq<nat>, f: FileState)
    requires OwnOnly(g, mine, a, fa, b, fb) && GoodChain(g, mine)
    requires Core(g, fa, a, f) && Disjoint(f.ch, mine)
    ensures Readable(g, b.disk, f) && f.objsize <= Capacity(g, f.ch) && (|f.ch| > 0 ==> IsChain(fb, f.ch))
    ensures Content(g, b.disk, f) == Content(g, a.disk, f)
    ensures Core(g, fb, b, f) <==> BufferFresh(b, f)
    ensures BufferOwn(g, f) || !InFile(g, mine, f.sect) ==> Core(g, fb, b, f)
  {
    hide Idx, Off, Sect, SectorOf, Geometry.WellFormed, Capacity, IsChain, GoodChain, Layout, OwnOnly, Content;
    OwnFrame(g, mine, a, fa, b, fb);
    FileSectorFacts(g, a.disk, f);
    BelowInvalid(g, |a.disk|);
    if f.sect != 0 { NotInFats(g, |a.disk|, f.sect); }
    GoodRange(g, mine);
    GoodRange(g, f.ch) by { assert Readable(g, a.disk, f); }
    forall s | InFile(g, f.ch, s)
      ensures 0 <= s < |a.disk| && b.disk[s] == a.disk[s] && s != b.winsect
    {
      var k: nat :| Idx(g, k) < |f.ch| && SectorOf(g, f.ch, k) == s;
      OtherSectors(g, mine, f.ch, s);
    }
    if |f.ch| > 0 { ChainKept(fa, fb, f.ch, g, mine, a, b); }
    forall k: nat | Idx(g, k) < |f.ch|
      ensures SectorData(g, b.disk, f, k) == SectorData(g, a.disk, f, k)
    {
      assert InFile(g, f.ch, SectorOf(g, f.ch, k));
    }
    SameContent(g, a.disk, f, b.disk, f);
  }

  lemma OwnWrite(g: Geometry, mine: seq<nat>, a: WinState, fat: seq<nat>, s: nat, v: Sector)
    requires s < |a.disk| && InFile(g, mine, s) && !a.wflag
    ensures OwnOnly(g, mine, a, fat, a.(disk := a.disk[s := v]), fat)
  {
    hide InFile;
  }

  /** A buffer that is not fresh: a file cut to nothing (f_truncate keeps the buffer) still shows sector 3, the one
      sector of cluster 2; the other file, which has cluster 2 now, writes to it. */
  lemma StaleBuffer(g: Geometry, a: WinState, fat: seq<nat>, f: FileState, v: Sector)
    returns (mine: seq<nat>, b: WinState)
    requires g == Geometry(Fat16, 1, 1, 16, 20, 1, 0, 1, 2, 3, 21, 0, false) && |fat| == 20 && fat[2] == 0xFFFF
    requires |a.disk| == 21 && !a.wflag && a.winsect == INVALID_SECTOR
    requires f == FileState([], 0, 0, 0, 0, 3, false, a.disk[3]) && v != a.disk[3]
    ensures mine == [2] && b == a.(disk := a.disk[3 := v])
    ensures GoodChain(g, mine) && IsChain(fat, mine) && OwnOnly(g, mine, a, fat, b, fat)
    ensures Core(g, fat, a, f) && Disjoint(f.ch, mine) && !Core(g, fat, b, f)
  {
    hide OwnOnly, IsChain, InFile, Idx, Off, SectorOf;
    mine, b := [2], a.(disk := a.disk[3 := v]);
    FirstSector(g);
    NoSectors(g, a.winsect);
    OwnWrite(g, mine, a, fat, 3, v);
    assert IsChain(fat, mine) by { OneCluster(fat); }
  }

  lemma FirstSector(g: Geometry)
    requires g.csize == 1
    ensures InFile(g, [2], g.database)
  {
    assert Idx(g, 0) == 0 && SectorOf(g, [2], 0) == g.database;
  }

  lemma NoSectors(g: Geometry, s: int)
    ensures !InFile(g, [], s)
  {
  }

  lemma OneCluster(fat: seq<nat>)
    requires |fat| > 2 && fat[2] >= |fat|
    ensures IsChain(fat, [2])
  {
  }

  /** What OwnOnly says about sectors. */
  lemma OwnFrame(g: Geometry, ch: seq<nat>, a: WinState, fa: seq<nat>, b: WinState, fb: seq<nat>)
    requires OwnOnly(g, ch, a, fa, b, fb)
    ensures |b.disk| == |a.disk| && |fb| == |fa|
    ensures forall s {:trigger b.disk[s]} ::
      0 <= s < |a.disk| && !g.InFats(s) && !InFile(g, ch, s) && !(a.wflag && s == a.winsect) ==> b.disk[s] == a.disk[s]
    ensures b.winsect == a.winsect || g.InFat1(b.winsect) || b.winsect == INVALID_SECTOR
  {
  }

  // ---------- one file: any sequence of operations ----------

  datatype Op = Write(data: seq<byte>) | Read(n: nat) | Seek(ofs: nat) | Truncate | Sync(tm: u32)

  /** What an application sees of an open file: its bytes, the position, the bytes the last read gave; `full` tells that
      no cluster was free after the last operation. */
  datatype View = View(c: seq<byte>, pos: nat, got: seq<byte>, full: bool)

  /** One operation on a plain byte sequence. */
  ghost predicate Step(op: Op, canWrite: bool, s: View, t: View) {
    s.pos <= |s.c| && t.pos <= |t.c| &&
    match op
    case Write(data) =>
      s.pos <= t.pos <= s.pos + |data| && t.c == Overwrite(s.c, s.pos, data[..t.pos - s.pos])
      && (t.pos < s.pos + |data| ==> t.pos == 0xFFFF_FFFF || (t.full && t.pos == |t.c|))
    case Read(n) =>
      t.c == s.c && t.pos == (if s.pos + n < |s.c| then s.pos + n else |s.c|) && t.got == s.c[s.pos..t.pos]
    case Seek(ofs) =>
      |t.c| == (if t.pos > |s.c| then t.pos else |s.c|) && t.c[..|s.c|] == s.c
      && t.pos <= Target(ofs, |s.c|, canWrite)
      && (t.pos < Target(ofs, |s.c|, canWrite) ==> t.full && t.pos == |t.c|)
    case Truncate =>
      t.c == s.c[..s.pos] && t.pos == s.pos
    case Sync(_) =>
      t.c == s.c && t.pos == s.pos
  }

  /** A run of the byte sequence. */
  ghost predicate IsRun(ops: seq<Op>, canWrite: bool, views: seq<View>) {
    |views| == |ops| + 1 && forall i :: 0 <= i < |ops| ==> Step(ops[i], canWrite, views[i], views[i + 1])
  }

  /** What the access mode of the file allows. */
  predicate Permitted(op: Op, canRead: bool, canWrite: bool) {
    (op.Read? ==> canRead) && (op.Write? || op.Truncate? ==> canWrite)
  }

  /** The only ways an operation fails: the device, the access mode, or the reserved value 1 in the FAT. */
  ghost predicate Ended(op: Op, fp: Fil, fat: seq<nat>, res: FResult, m0: Medium, m1: Medium) {
    || res == FrOk || (res == FrDiskErr && Faulted(m0, m1))
    || (res == FrDenied && !Permitted(op, fp.canRead, fp.canWrite))
    || (res == FrIntErr && HasReserved(fat))
  }

  predicate AllPermitted(ops: seq<Op>, canRead: bool, canWrite: bool) {
    forall i :: 0 <= i < |ops| ==> Permitted(ops[i], canRead, canWrite)
  }

  ghost function Now(fs: Fatfs, fp: Fil, got: seq<byte>): View
    requires Open(fs, fp)
    reads fs, fs.win, fp, fp.buf
  {
    View(FileBytesOf(fs, fp), fp.fptr, got, Full(fs.fat))
  }

  /** An open file of an application that has seen no error. Whatever it did, the file is marked as changed or saved. */
  ghost predicate Ready(fs: Fatfs, fp: Fil, buff: array<byte>)
    reads fs, fs.win, fp, fp.buf
  {
    && Open(fs, fp) && AtRest(fs.g, fp.State()) && fp.err == FrOk && CountKnown(fs.fat, fs.freeClst)
    && buff != fs.win && buff != fp.buf
    && EntryHome(fs.g, |fs.disk|, fs.fat, fp.ch, fp.dirSect, fp.dirOfs) && fp.sect != fp.dirSect
    && (fp.modified || Saved(fs, fp)) && BootClean(fs)
  }

  lemma ReadyParts(fs: Fatfs, fp: Fil, buff: array<byte>)
    requires Ready(fs, fp, buff)
    ensures Open(fs, fp) && AtRest(fs.g, fp.State()) && fp.err == FrOk && buff != fs.win && buff != fp.buf
    ensures fp.fptr <= |FileBytesOf(fs, fp)| == fp.objsize && fs.g.fsType != ExFat
    ensures EntryApart(fs, fp) && fp.sect != fp.dirSect && GoodChain(fs.g, fp.ch) && fp.dirSect != fs.g.volbase
    ensures CountKnown(fs.fat, fs.freeClst) && (fp.modified || Saved(fs, fp)) && BootClean(fs)
    ensures fs.g.WellFormed(|fs.disk|) && Layout(fs.g) && |fs.fat| == fs.g.nFatent && fs.Valid()
    ensures |fs.log| > 0 && fs.log[|fs.log| - 1].fat == fs.fat
  {
    hide Fatfs.Valid, InFile, Saved, GoodChain, Layout, Geometry.WellFormed, EntryHome, Core, AtRest, CountKnown;
    OpenBasics(fs, fp);
    MediumNow(fs);
    CoreSize(fs, fp);
    OpenPlace(fs, fp);
    GoodRange(fs.g, fp.ch);
    HomeApart(fs.g, |fs.disk|, fs.fat, fp.ch, fp.dirSect, fp.dirOfs);
    HomeNotBoot(fs.g, |fs.disk|, fs.fat, fp.ch, fp.dirSect, fp.dirOfs);
  }

  lemma OpenPlace(fs: Fatfs, fp: Fil)
    requires Open(fs, fp)
    ensures GoodChain(fs.g, fp.ch) && fs.g.WellFormed(|fs.disk|) && Layout(fs.g)
  {
    hide Fatfs.Valid, InFile, IsChain, Capacity;
  }

  /** The buffer does not come to show the entry's sector. */
  lemma BufferApart(g: Geometry, ch: seq<nat>, s0: u32, s1: u32, sect: u32)
    requires BufferMoved(g, ch, s0, s1) && s0 != sect && !InFile(g, ch, sect)
    ensures s1 != sect
  {
    hide InFile;
  }

  /** The boot sector, and that no change of it is pending. */
  ghost function Boot(fs: Fatfs): seq<byte>
    reads fs`disk
  {
    if fs.g.volbase < |fs.disk| then fs.disk[fs.g.volbase] else []
  }

  ghost predicate BootClean(fs: Fatfs)
    reads fs`wflag, fs`winsect
  {
    !(fs.wflag && fs.winsect == fs.g.volbase)
  }

  /** The file functions leave the boot sector alone. */
  lemma BootKept(g: Geometry, ch: seq<nat>, a: WinState, fa: seq<nat>, b: WinState, fb: seq<nat>)
    requires OwnOnly(g, ch, a, fa, b, fb) && g.WellFormed(|a.disk|) && Layout(g) && GoodChain(g, ch)
    requires !(a.wflag && a.winsect == g.volbase)
    ensures g.volbase < |a.disk| == |b.disk| && b.disk[g.volbase] == a.disk[g.volbase]
    ensures !(b.wflag && b.winsect == g.volbase)
  {
    hide InFile, GoodChain, Layout;
    BootOutside(g, |a.disk|, ch);
  }

  lemma BootOutside(g: Geometry, nsect: nat, ch: seq<nat>)
    requires g.WellFormed(nsect) && Layout(g) && GoodChain(g, ch)
    ensures !InFile(g, ch, g.volbase) && Plain(g, g.volbase) && g.volbase < g.fatbase <= g.database <= nsect
  {
    hide Idx, Off, Sect;
    forall k: nat | Idx(g, k) < |ch|
      ensures SectorOf(g, ch, k) != g.volbase as int
    {
      SectorOfRange(g, nsect, ch, k);
    }
  }

  /** What an operation leaves alone, and how its history goes on. */
  ghost predicate Considerate(g: Geometry, sect: u32, o: nat, b: Moment, c: Moment, res: FResult, whole: bool) {
    && Spares(g, sect, o, b, c, whole) && KeepsStored(g, sect, o, b, c, whole) && Onward(b.medium, c.medium)
    && (Rooted(b.fat, b.f.ch) ==>
          StaysSafe(b.log, c.log, res != FrDiskErr) && (res == FrOk ==> Rooted(c.fat, c.f.ch)))
  }

  lemma ConsiderateSelf(fs: Fatfs, fp: Fil)
    requires EntryApart(fs, fp)
    ensures Considerate(fs.g, fp.dirSect, fp.dirOfs, Snapshot(fs, fp), Snapshot(fs, fp), FrOk, true)
  {
    hide Rooted, CrashSafe, Spares, Secure, Beside;
    SparesSelf(fs.g, fp.dirSect, fp.dirOfs, Snapshot(fs, fp));
  }

  lemma ConsiderateTrans(g: Geometry, sect: u32, o: nat, a: Moment, b: Moment, c: Moment, res: FResult, whole: bool)
    requires Considerate(g, sect, o, a, b, FrOk, true) && Considerate(g, sect, o, b, c, res, whole)
    ensures Considerate(g, sect, o, a, c, res, whole)
  {
    hide Spares, KeepsStored, Rooted, CrashSafe;
    SparesTrans(g, sect, o, a, b, c, whole);
    KeepsTrans(g, sect, o, a, b, c, whole);
  }

  lemma ConsiderateOnward(g: Geometry, sect: u32, o: nat, a: Moment, b: Moment, res: FResult, whole: bool)
    requires Considerate(g, sect, o, a, b, res, whole)
    ensures Onward(a.medium, b.medium)
  {
    hide Spares, KeepsStored, Rooted, CrashSafe;
  }

  /** What ended an operation ended the run. */
  lemma EndedTrans(g: Geometry, op: Op, fp: Fil, a: Moment, b: Moment, c: Moment, res: FResult)
    requires Considerate(g, fp.dirSect, fp.dirOfs, a, b, FrOk, true)
    requires Ended(op, fp, b.fat, res, b.medium, c.medium) && (HasReserved(b.fat) ==> HasReserved(a.fat))
    ensures Ended(op, fp, a.fat, res, a.medium, c.medium)
  {
    hide Spares, KeepsStored, Rooted, CrashSafe, HasReserved;
  }

  lemma FootprintConsiderate(fs: Fatfs, fp: Fil, own: seq<nat>, b: Moment, res: FResult, whole: bool)
    requires fs.Valid() && Footprint(fs.g, own, fp.dirSect, fp.dirOfs, b, Snapshot(fs, fp), whole)
    requires GoodChain(fs.g, b.f.ch) && |b.fat| == fs.g.nFatent && fs.g.WellFormed(|b.st.disk|) && Layout(fs.g)
    requires |b.log| > 0 && b.log[|b.log| - 1].fat == b.fat && Onward(b.medium, fs.medium)
    requires Rooted(b.fat, b.f.ch) ==>
      StaysSafe(b.log, fs.log, res != FrDiskErr) && (res == FrOk ==> Rooted(fs.fat, fp.ch))
    ensures Considerate(fs.g, fp.dirSect, fp.dirOfs, b, Snapshot(fs, fp), res, whole)
  {
    hide Fatfs.Valid, Footprint, GoodChain, Geometry.WellFormed, Layout, Rooted, StaysSafe, Spares, KeepsStored;
    MediumNow(fs);
    FootprintSpares(fs.g, own, fp.dirSect, fp.dirOfs, b, Snapshot(fs, fp), whole);
    FootprintKeeps(fs.g, own, fp.dirSect, fp.dirOfs, b, Snapshot(fs, fp), whole);
  }

  lemma RootedStart(fat: seq<nat>, ch: seq<nat>)
    requires Rooted(fat, ch)
    ensures |ch| > 0 ==> NoPredecessor(fat, ch[0])
  {
    hide NoPredecessor, IsForest;
  }

  lemma SafeSelf(log: seq<LogEntry>)
    ensures StaysSafe(log, log, true) && StaysSafe(log, log, false)
  {
  }

  // ---------- the five operations ----------

  method RunWrite(fs: Fatfs, fp: Fil, data: seq<byte>, buff: array<byte>) returns (res: FResult, bw: nat)
    requires Ready(fs, fp, buff) && |data| <= 0xFFFF_FFFF
    modifies fs, fs.win, fp, fp.buf
    ensures Ended(Write(data), fp, old(fs.fat), res, old(fs.medium), fs.medium)
    ensures res == FrOk ==> Boot(fs) == old(Boot(fs)) && |fs.disk| == old(|fs.disk|)
    ensures res == FrOk ==> Ready(fs, fp, buff) && bw <= |data| && fp.fptr == old(fp.fptr) + bw
    ensures res == FrOk ==> old(fp.fptr) <= |old(FileBytesOf(fs, fp))|
    ensures res == FrOk ==> FileBytesOf(fs, fp) == Overwrite(old(FileBytesOf(fs, fp)), old(fp.fptr), data[..bw])
    ensures res == FrOk && bw < |data| ==> fp.fptr == 0xFFFF_FFFF || (Full(fs.fat) && AtCapacity(fs.g, fp.State()))
    ensures res == FrOk && HasReserved(fs.fat) ==> HasReserved(old(fs.fat))
    ensures fs.Valid()
    ensures Considerate(fs.g, fp.dirSect, fp.dirOfs, old(Snapshot(fs, fp)), Snapshot(fs, fp), res, true)
    ensures res == FrOk && old(Rooted(fs.fat, fp.ch)) ==> Rooted(fs.fat, fp.ch)
    ensures StaysSafe(old(fs.log), fs.log, res != FrDiskErr)
  {
    hide Fatfs.Valid, Core, Content, AtRest, OwnOnly, Grew, Full, CountKnown, IsForest, CrashSafe, Overwrite, InFile,
         EntryHome, SavedAt, Spared, LastWhole, Unbuffered, BufferMoved, GoodChain, AtCapacity, Rooted, LogApart,
         Footprint, Considerate;
    ghost var before := Snapshot(fs, fp);
    ReadyParts(fs, fp, buff);
    ghost var a, fat0, ch0, sect0 := fs.St(), fs.fat, fp.ch, fp.sect;
    res, bw := FWrite(fs, fp, data);
    GrownApart(fs.g, |a.disk|, fat0, ch0, fp.ch, fp.dirSect, fp.dirOfs);
    OwnFootprint(fs.g, fp.ch, fp.dirSect, fp.dirOfs, before, Snapshot(fs, fp));
    FootprintConsiderate(fs, fp, fp.ch, before, res, true);
    if res == FrOk {
      OpenChain(fs, fp);
      BootKept(fs.g, fp.ch, a, fat0, fs.St(), fs.fat);
      HomeKept(fs.g, |fs.disk|, fat0, ch0, a, fs.St(), fs.fat, fp.ch, fp.ch, fp.dirSect, fp.dirOfs);
      OpenHome(fs, fp);
      BufferApart(fs.g, fp.ch, sect0, fp.sect, fp.dirSect);
    }
  }

  lemma OwnSize(g: Geometry, ch: seq<nat>, a: WinState, fa: seq<nat>, b: WinState, fb: seq<nat>)
    requires OwnOnly(g, ch, a, fa, b, fb)
    ensures |b.disk| == |a.disk| && |fb| == |fa|
  {
  }

  lemma OpenHome(fs: Fatfs, fp: Fil)
    requires Open(fs, fp) && EntryHome(fs.g, |fs.disk|, fs.fat, fp.ch, fp.dirSect, fp.dirOfs)
    ensures !InFile(fs.g, fp.ch, fp.dirSect)
  {
    hide Fatfs.Valid, InFile, IsChain, Capacity, EntryHome;
    HomeApart(fs.g, |fs.disk|, fs.fat, fp.ch, fp.dirSect, fp.dirOfs);
  }

  /** Whoever changes nothing but the position keeps the file saved. */
  lemma KeepsSaved(fs: Fatfs, fp: Fil, b: Moment)
    requires Core(fs.g, b.fat, b.st, b.f) && MediumShows(fs.g, b.st.disk, b.log, b.medium)
    requires SavedAt(fs.g, b.st, b.medium.damaged, fp.dirSect, fp.dirOfs, Unbuffered(b.f))
    requires Open(fs, fp) && EntryPlace(fs.g, |fs.disk|, fp.dirSect, fp.dirOfs) && !InFile(fs.g, fp.ch, fp.dirSect)
    requires OwnOnly(fs.g, fp.ch, b.st, b.fat, fs.St(), fs.fat) && NoPut(b.log, b.medium, fs.log, fs.medium)
    requires fp.ch == b.f.ch && fp.objsize == b.f.objsize && (fp.dirty ==> b.f.dirty)
    requires Readable(fs.g, b.st.disk, b.f) && b.f.objsize <= Capacity(fs.g, b.f.ch)
    requires FileBytesOf(fs, fp) == Content(fs.g, b.st.disk, b.f)
    ensures Saved(fs, fp)
  {
    hide Fatfs.Valid, Core, OwnOnly, Content, InFile, Capacity, EntryPlace, MediumShows, StoredAt, GoodChain, Layout,
         Geometry.WellFormed;
    UnbufferedSame(fs.g, b.fat, b.st, b.f);
    UnbufferedSame(fs.g, fs.fat, fs.St(), fp.State());
    MediumNow(fs);
    OwnSize(fs.g, fp.ch, b.st, b.fat, fs.St(), fs.fat);
    StillSaved(fs.g, b.st, b.fat, b.log, b.medium, Unbuffered(b.f), fs.St(), fs.fat, fs.log, fs.medium,
               Unbuffered(fp.State()), fp.dirSect, fp.dirOfs);
  }

  method RunRead(fs: Fatfs, fp: Fil, buff: array<byte>, n: nat) returns (res: FResult, br: nat)
    requires Ready(fs, fp, buff) && n <= buff.Length
    modifies fs, fs.win, fp, fp.buf, buff
    ensures Ended(Read(n), fp, old(fs.fat), res, old(fs.medium), fs.medium)
    ensures res == FrOk ==> Boot(fs) == old(Boot(fs)) && |fs.disk| == old(|fs.disk|)
    ensures res == FrOk ==> Ready(fs, fp, buff) && FileBytesOf(fs, fp) == old(FileBytesOf(fs, fp))
    ensures res == FrOk ==> br == if n < fp.objsize - old(fp.fptr) then n else fp.objsize - old(fp.fptr)
    ensures res == FrOk ==> fp.fptr == old(fp.fptr) + br && |FileBytesOf(fs, fp)| == fp.objsize
    ensures res == FrOk ==> buff[..] == Patch(old(buff[..]), 0, FileBytesOf(fs, fp)[old(fp.fptr)..fp.fptr])
    ensures fs.Valid()
    ensures Considerate(fs.g, fp.dirSect, fp.dirOfs, old(Snapshot(fs, fp)), Snapshot(fs, fp), res, true)
    ensures fs.fat == old(fs.fat) && fp.ch == old(fp.ch) && fs.log == old(fs.log)
  {
    hide Fatfs.Valid, Core, Content, AtRest, OwnOnly, CountKnown, InFile, EntryHome, SavedAt, Unbuffered, BufferMoved,
         Patch, GoodChain, Readable, Capacity, MediumShows, EntryPlace, LogApart, Footprint,
         Considerate, Rooted;
    ReadyParts(fs, fp, buff);
    OpenBasics(fs, fp);
    MediumNow(fs);
    ghost var b := Snapshot(fs, fp);
    GrewSelf(fs.fat, fp.ch);
    res, br := FRead(fs, fp, buff, n);
    SafeSelf(fs.log);
    ApartSelf(fp.ch, fs.fat, fs.log);
    OwnFootprint(fs.g, fp.ch, fp.dirSect, fp.dirOfs, b, Snapshot(fs, fp));
    FootprintConsiderate(fs, fp, fp.ch, b, res, true);
    if res == FrOk {
      OpenChain(fs, fp);
      BootKept(fs.g, fp.ch, b.st, b.fat, fs.St(), fs.fat);
      HomeKept(fs.g, |fs.disk|, b.fat, fp.ch, b.st, fs.St(), fs.fat, fp.ch, fp.ch, fp.dirSect, fp.dirOfs);
      OpenHome(fs, fp);
      BufferApart(fs.g, fp.ch, b.f.sect, fp.sect, fp.dirSect);
      if !fp.modified { KeepsSaved(fs, fp, b); }
    }
  }

  method RunSeek(fs: Fatfs, fp: Fil, ofs: nat, buff: array<byte>) returns (res: FResult)
    requires Ready(fs, fp, buff)
    modifies fs, fs.win, fp, fp.buf
    ensures Ended(Seek(ofs), fp, old(fs.fat), res, old(fs.medium), fs.medium)
    ensures res == FrOk ==> Boot(fs) == old(Boot(fs)) && |fs.disk| == old(|fs.disk|)
    ensures res == FrOk ==> Ready(fs, fp, buff)
    ensures res == FrOk ==> fp.objsize == if fp.fptr > old(fp.objsize) then fp.fptr else old(fp.objsize)
    ensures res == FrOk ==> FileBytesOf(fs, fp)[..old(fp.objsize)] == old(FileBytesOf(fs, fp))
    ensures res == FrOk ==> fp.fptr <= Target(ofs, old(fp.objsize), fp.canWrite)
    ensures res == FrOk && fp.fptr != Target(ofs, old(fp.objsize), fp.canWrite) ==>
      Full(fs.fat) && AtCapacity(fs.g, fp.State())
    ensures res == FrOk && HasReserved(fs.fat) ==> HasReserved(old(fs.fat))
    ensures fs.Valid()
    ensures Considerate(fs.g, fp.dirSect, fp.dirOfs, old(Snapshot(fs, fp)), Snapshot(fs, fp), res, true)
    ensures res == FrOk && old(Rooted(fs.fat, fp.ch)) ==> Rooted(fs.fat, fp.ch)
    ensures StaysSafe(old(fs.log), fs.log, res != FrDiskErr)
  {
    hide Fatfs.Valid, Core, Content, AtRest, OwnOnly, Grew, Full, CountKnown, IsForest, CrashSafe, InFile, EntryHome,
         SavedAt, LastWhole, Unbuffered, BufferMoved, GoodChain, Readable, Capacity, MediumShows, EntryPlace, Extends,
         Bcs, AtCapacity, Rooted, LogApart, Footprint, Considerate;
    ReadyParts(fs, fp, buff);
    OpenBasics(fs, fp);
    MediumNow(fs);
    ghost var b := Snapshot(fs, fp);
    res := FSeek(fs, fp, ofs);
    GrownApart(fs.g, |b.st.disk|, b.fat, b.f.ch, fp.ch, fp.dirSect, fp.dirOfs);
    OwnFootprint(fs.g, fp.ch, fp.dirSect, fp.dirOfs, b, Snapshot(fs, fp));
    FootprintConsiderate(fs, fp, fp.ch, b, res, true);
    if res == FrOk {
      OpenChain(fs, fp);
      BootKept(fs.g, fp.ch, b.st, b.fat, fs.St(), fs.fat);
      HomeKept(fs.g, |fs.disk|, b.fat, b.f.ch, b.st, fs.St(), fs.fat, fp.ch, fp.ch, fp.dirSect, fp.dirOfs);
      OpenHome(fs, fp);
      BufferApart(fs.g, fp.ch, b.f.sect, fp.sect, fp.dirSect);
      CoreSize(fs, fp);
      if !fp.modified {
        assert FileBytesOf(fs, fp) == FileBytesOf(fs, fp)[..fp.objsize];
        KeepsSaved(fs, fp, b);
      }
    }
  }

  method RunTruncate(fs: Fatfs, fp: Fil, buff: array<byte>) returns (res: FResult)
    requires Ready(fs, fp, buff)
    modifies fs, fs.win, fp
    ensures Ended(Truncate, fp, old(fs.fat), res, old(fs.medium), fs.medium)
    ensures res == FrOk ==> Boot(fs) == old(Boot(fs)) && |fs.disk| == old(|fs.disk|)
    ensures res == FrOk ==> Ready(fs, fp, buff) && fp.fptr == old(fp.fptr) <= |old(FileBytesOf(fs, fp))|
    ensures res == FrOk ==> FileBytesOf(fs, fp) == old(FileBytesOf(fs, fp))[..fp.fptr]
    ensures res == FrOk && HasReserved(fs.fat) ==> HasReserved(old(fs.fat))
    ensures fs.Valid()
    ensures Considerate(fs.g, fp.dirSect, fp.dirOfs, old(Snapshot(fs, fp)), Snapshot(fs, fp), res, true)
    ensures old(Rooted(fs.fat, fp.ch)) ==>
      StaysSafe(old(fs.log), fs.log, res != FrDiskErr) && (res == FrOk ==> Rooted(fs.fat, fp.ch))
  {
    hide Fatfs.Valid, Core, Content, AtRest, OwnOnly, CountKnown, IsForest, CrashSafe, InFile, EntryHome, SavedAt,
         Unbuffered, GoodChain, Readable, Capacity, MediumShows, EntryPlace, NoPredecessor, LogApart,
         Footprint, Considerate, Rooted;
    ReadyParts(fs, fp, buff);
    OpenBasics(fs, fp);
    ghost var b := Snapshot(fs, fp);
    GrewSelf(fs.fat, fp.ch);
    res := FTruncate(fs, fp);
    OwnFootprint(fs.g, b.f.ch, fp.dirSect, fp.dirOfs, b, Snapshot(fs, fp));
    if Rooted(b.fat, b.f.ch) { RootedStart(b.fat, b.f.ch); }
    FootprintConsiderate(fs, fp, b.f.ch, b, res, true);
    if res == FrOk {
      BootKept(fs.g, b.f.ch, b.st, b.fat, fs.St(), fs.fat);
      HomeKept(fs.g, |fs.disk|, b.fat, b.f.ch, b.st, fs.St(), fs.fat, fp.ch, b.f.ch, fp.dirSect, fp.dirOfs);
    }
  }

  method RunSync(fs: Fatfs, fp: Fil, tm: u32, buff: array<byte>) returns (res: FResult)
    requires Ready(fs, fp, buff)
    modifies fs, fs.win, fp, fp.buf
    ensures Ended(Sync(tm), fp, old(fs.fat), res, old(fs.medium), fs.medium)
    ensures res == FrOk ==> Boot(fs) == old(Boot(fs)) && |fs.disk| == old(|fs.disk|)
    ensures res == FrOk ==> Ready(fs, fp, buff) && Saved(fs, fp) && !fp.modified && fp.fptr == old(fp.fptr)
    ensures res == FrOk ==> FileBytesOf(fs, fp) == old(FileBytesOf(fs, fp))
    ensures fs.Valid()
    ensures Considerate(fs.g, fp.dirSect, fp.dirOfs, old(Snapshot(fs, fp)), Snapshot(fs, fp), res, res == FrOk)
    ensures fs.fat == old(fs.fat) && fp.ch == old(fp.ch) && fs.log == old(fs.log)
  {
    hide Fatfs.Valid, Core, Content, AtRest, CountKnown, InFile, SavedAt, StoredAt, Stores, Unbuffered, GoodChain,
         SyncOnly, EntryPut, EntryOnly, Footprint, Considerate, Rooted;
    ghost var b := Snapshot(fs, fp);
    ReadyParts(fs, fp, buff);
    OpenStorable(fs, fp);
    ghost var a := fs.St();
    res := FSync(fs, fp, tm);
    if res == FrOk {
      SavedClean(fs, fp);
      EntryEffect(fs, fp, tm, b);
    }
    SyncFootprint(fs.g, fp.dirSect, fp.dirOfs, b, Snapshot(fs, fp), res == FrOk);
    SafeSelf(fs.log);
    FootprintConsiderate(fs, fp, fp.ch, b, res, res == FrOk);
    BootSynced(fs.g, fp.ch, fp.dirSect, a, fs.St());
  }

  lemma SavedClean(fs: Fatfs, fp: Fil)
    requires Saved(fs, fp) && fs.Valid()
    ensures !(fs.wflag && fs.winsect == fp.dirSect) && fs.win.Length == 512
    ensures fp.dirSect < |fs.disk| && fp.dirOfs + 32 <= 512
  {
    hide Readable, Capacity, LdClust, LdDword, Idx, SectorOf, Content;
    var f := Unbuffered(fp.State());
    var fat :| Stores(fs.g, fs.disk, fp.dirSect, fp.dirOfs, fat, f.ch, Content(fs.g, fs.disk, f));
  }

  /** What a successful f_sync did to the entry's sector. */
  lemma EntryEffect(fs: Fatfs, fp: Fil, tm: u32, b: Moment)
    requires fp.dirSect < |b.st.disk| == |fs.disk| && fp.dirOfs + 32 <= 512 && fs.win.Length == 512 && |b.st.win| == 512
    requires !(fs.wflag && fs.winsect == fp.dirSect)
    requires fs.St() == b.st || EntryPut(fs.g, fp, tm, b.st.Logical()[fp.dirSect], fs.disk[fp.dirSect])
    ensures EntryOnly(b.st, fs.St(), fp.dirSect, fp.dirOfs)
  {
    var s, t := b.st.Logical()[fp.dirSect], fs.St().Logical()[fp.dirSect];
    if fs.St() != b.st { UpdatedBytes(fs.g, s, fp.dirOfs, fp.sclust, fp.objsize, tm); }
  }

  lemma BootSynced(g: Geometry, ch: seq<nat>, sect: u32, a: WinState, b: WinState)
    requires SyncOnly(g, ch, sect, a, b) && g.WellFormed(|a.disk|) && Layout(g) && GoodChain(g, ch)
    requires !(a.wflag && a.winsect == g.volbase) && sect != g.volbase
    ensures g.volbase < |a.disk| == |b.disk| && b.disk[g.volbase] == a.disk[g.volbase]
    ensures !(b.wflag && b.winsect == g.volbase)
  {
    hide InFile, GoodChain, Layout;
    BootOutside(g, |a.disk|, ch);
  }

  /** One operation; the result is one of the byte sequence. */
  method RunOp(fs: Fatfs, fp: Fil, op: Op, buff: array<byte>, ghost got: seq<byte>)
    returns (res: FResult, ghost got1: seq<byte>)
    requires Ready(fs, fp, buff)
    requires op.Write? ==> |op.data| <= 0xFFFF_FFFF
    requires op.Read? ==> op.n <= buff.Length
    modifies fs, fs.win, fp, fp.buf, buff
    ensures Ended(op, fp, old(fs.fat), res, old(fs.medium), fs.medium)
    ensures res == FrOk ==> Boot(fs) == old(Boot(fs)) && |fs.disk| == old(|fs.disk|)
    ensures res == FrOk ==> Ready(fs, fp, buff) && Step(op, fp.canWrite, old(Now(fs, fp, got)), Now(fs, fp, got1))
    ensures res == FrOk && op.Sync? ==> Saved(fs, fp)
    ensures res == FrOk && op.Read? ==> |got1| <= buff.Length && buff[..|got1|] == got1
    ensures res == FrOk && HasReserved(fs.fat) ==> HasReserved(old(fs.fat))
    ensures Considerate(fs.g, fp.dirSect, fp.dirOfs, old(Snapshot(fs, fp)), Snapshot(fs, fp), res,
                        res == FrOk || !op.Sync?) && fs.Valid()
  {
    hide Ready, Open, FileBytesOf, Full, HasReserved, StaysSafe, Overwrite, Saved, Boot, Capacity, Considerate,
         Fatfs.Valid, Ended;
    ReadyParts(fs, fp, buff);
    got1 := got;
    ghost var c0, p0 := FileBytesOf(fs, fp), fp.fptr;
    match op {
      case Write(data) =>
        var bw;
        res, bw := RunWrite(fs, fp, data, buff);
      case Read(n) =>
        var br;
        res, br := RunRead(fs, fp, buff, n);
        if res == FrOk { got1 := c0[p0..fp.fptr]; }
      case Seek(ofs) =>
        res := RunSeek(fs, fp, ofs, buff);
      case Truncate =>
        res := RunTruncate(fs, fp, buff);
      case Sync(tm) =>
        res := RunSync(fs, fp, tm, buff);
    }
    if res == FrOk { ReadyParts(fs, fp, buff); }
  }

  lemma RunNext(ops: seq<Op>, canWrite: bool, views: seq<View>, i: nat, v: View)
    requires i < |ops| && |views| == i + 1 && IsRun(ops[..i], canWrite, views) && Step(ops[i], canWrite, views[i], v)
    ensures IsRun(ops[..i + 1], canWrite, views + [v])
  {
    hide Step;
    var u := views + [v];
    forall j | 0 <= j < i + 1
      ensures Step(ops[..i + 1][j], canWrite, u[j], u[j + 1])
    {
      if j < i { assert ops[..i][j] == ops[j] && u[j] == views[j] && u[j + 1] == views[j + 1]; }
    }
  }

  /** Any sequence of writes, reads, seeks, truncations and syncs on an open file is a run of a plain byte sequence with
      a position: the file functions refine it. It ends early, after `done` operations, only if in the next one the
      device fails, or that one is not permitted, or finds the reserved value 1 in the FAT. As long as it lasts the
      file is marked as changed or saved, see Ready. However it ends, the rest of the volume is spared, what is stored
      of other files stays stored, and if the FAT was a forest with nothing linking to the file's first cluster, it was
      one after every put_fat of the run. */
  method RunOps(fs: Fatfs, fp: Fil, ops: seq<Op>, buff: array<byte>)
    returns (res: FResult, done: nat, ghost views: seq<View>)
    requires Ready(fs, fp, buff)
    requires forall i :: 0 <= i < |ops| && ops[i].Write? ==> |ops[i].data| <= 0xFFFF_FFFF
    requires forall i :: 0 <= i < |ops| && ops[i].Read? ==> ops[i].n <= buff.Length
    modifies fs, fs.win, fp, fp.buf, buff
    ensures done <= |ops| && IsRun(ops[..done], fp.canWrite, views) && views[0] == old(Now(fs, fp, []))
    ensures res == FrOk <==> done == |ops|
    ensures res != FrOk ==> Ended(ops[done], fp, old(fs.fat), res, old(fs.medium), fs.medium)
    // it is carried out to its end if the device does not fail
    ensures AllPermitted(ops, fp.canRead, fp.canWrite) && !HasReserved(old(fs.fat)) ==>
      res == FrOk || fs.medium.faults > old(fs.medium.faults)
    ensures res == FrOk ==> Ready(fs, fp, buff) && views[done] == Now(fs, fp, views[done].got)
    ensures res == FrOk ==> Boot(fs) == old(Boot(fs)) && |fs.disk| == old(|fs.disk|)
    ensures res == FrOk && done > 0 && ops[done - 1].Sync? ==> Saved(fs, fp)
    ensures res == FrOk && done > 0 && ops[done - 1].Read? ==>
      var got := views[done].got; |got| <= buff.Length && buff[..|got|] == got
    ensures Considerate(fs.g, fp.dirSect, fp.dirOfs, old(Snapshot(fs, fp)), Snapshot(fs, fp), res,
                        res == FrOk || !ops[done].Sync?) && fs.Valid()
  {
    hide Ready, Step, Now, IsRun, Open, HasReserved, Saved, Boot, Considerate, Fatfs.Valid;
    ghost var got := [];
    ReadyParts(fs, fp, buff);
    ConsiderateSelf(fs, fp);
    GotOf(fs, fp, got);
    views := [Now(fs, fp, got)];
    res, done := FrOk, 0;
    RunStart(fp.canWrite, views, ops);
    while done < |ops|
      invariant done <= |ops| && Ready(fs, fp, buff) && Open(fs, fp) && |views| == done + 1 && res == FrOk && fs.Valid()
      invariant IsRun(ops[..done], fp.canWrite, views) && views[0] == old(Now(fs, fp, []))
      invariant views[done] == Now(fs, fp, got) && got == views[done].got
      invariant HasReserved(fs.fat) ==> HasReserved(old(fs.fat))
      invariant Boot(fs) == old(Boot(fs)) && |fs.disk| == old(|fs.disk|)
      invariant done > 0 && ops[done - 1].Sync? ==> Saved(fs, fp)
      invariant Considerate(fs.g, fp.dirSect, fp.dirOfs, old(Snapshot(fs, fp)), Snapshot(fs, fp), FrOk, true)
      invariant done > 0 && ops[done - 1].Read? ==> |got| <= buff.Length && buff[..|got|] == got
    {
      ghost var b := Snapshot(fs, fp);
      res, got := RunOp(fs, fp, ops[done], buff, got);
      EndedTrans(fs.g, ops[done], fp, old(Snapshot(fs, fp)), b, Snapshot(fs, fp), res);
      ConsiderateTrans(fs.g, fp.dirSect, fp.dirOfs, old(Snapshot(fs, fp)), b, Snapshot(fs, fp), res,
                       res == FrOk || !ops[done].Sync?);
      if res != FrOk { return; }
      ReadyParts(fs, fp, buff);
      GotOf(fs, fp, got);
      RunNext(ops, fp.canWrite, views, done, Now(fs, fp, got));
      views := views + [Now(fs, fp, got)];
      done := done + 1;
    }
  }

  /** Whatever is done to one file, every other file that is stored stays stored: if power fails after any number of
      operations, a failed last one included, the medium has its entry, its chain and its bytes. Excepted are the moment
      after a failed write of a first-FAT sector, and a failed f_sync whose entry is in the same sector. */
  method StaysStored(fs: Fatfs, fp: Fil, ops: seq<Op>, buff: array<byte>, ghost r: Record)
    returns (res: FResult, done: nat)
    requires Ready(fs, fp, buff)
    requires Secure(fs.g, Snapshot(fs, fp), r) && Beside(fs.g, Snapshot(fs, fp), fp.dirSect, fp.dirOfs, r)
    requires forall i :: 0 <= i < |ops| && ops[i].Write? ==> |ops[i].data| <= 0xFFFF_FFFF
    requires forall i :: 0 <= i < |ops| && ops[i].Read? ==> ops[i].n <= buff.Length
    modifies fs, fs.win, fp, fp.buf, buff
    ensures done <= |ops| && (res == FrOk <==> done == |ops|)
    ensures !fs.medium.damaged && (res == FrOk || !ops[done].Sync? || r.sect != fp.dirSect) ==>
      fs.medium.at < |fs.log| && Stores(fs.g, fs.disk, r.sect, r.ofs, fs.log[fs.medium.at].fat, r.ch, r.bytes)
  {
    hide Ready, IsRun, HasReserved, Saved, Boot, Spares, Rooted, StaysSafe, Secure, Beside, Stores, Fatfs.Valid, Now;
    ghost var views;
    res, done, views := RunOps(fs, fp, ops, buff);
    if !fs.medium.damaged && (res == FrOk || !ops[done].Sync? || r.sect != fp.dirSect) { SecureStored(fs, fp, r); }
  }

  lemma GotOf(fs: Fatfs, fp: Fil, got: seq<byte>)
    requires Open(fs, fp)
    ensures Now(fs, fp, got).got == got
  {
  }

  lemma RunStart(canWrite: bool, views: seq<View>, ops: seq<Op>)
    requires |views| == 1
    ensures IsRun(ops[..0], canWrite, views)
  {
  }

  /** A write is complete if it stays inside the file, also on a full volume, or if the volume does not get full. */
  lemma WriteComplete(canWrite: bool, o: nat, data: seq<byte>, views: seq<View>)
    requires IsRun([Seek(o), Write(data)], canWrite, views) && o + |data| <= 0xFFFF_FFFF
    requires o + |data| <= |views[0].c| || (canWrite && !views[1].full && !views[2].full)
    ensures views[1].pos == o && views[2].pos == o + |data|
  {
    var ops := [Seek(o), Write(data)];
    assert Step(ops[0], canWrite, views[0], views[1]);
    assert Step(ops[1], canWrite, views[1], views[2]);
  }

  /** In every such run: what was written at a place is read back from it, if the position was reached and the write was
      complete. */
  lemma ReadBack(canWrite: bool, o: nat, data: seq<byte>, views: seq<View>)
    requires IsRun([Seek(o), Write(data), Seek(o), Read(|data|)], canWrite, views)
    requires views[1].pos == o && views[2].pos == o + |data|
    ensures views[4].got == data && views[4].pos == o + |data|
    ensures |views[4].c| >= |views[0].c|
    ensures forall p :: 0 <= p < |views[0].c| && !(o <= p < o + |data|) ==> views[4].c[p] == views[0].c[p]
  {
    var ops := [Seek(o), Write(data), Seek(o), Read(|data|)];
    assert Step(ops[0], canWrite, views[0], views[1]);
    assert Step(ops[1], canWrite, views[1], views[2]);
    assert Step(ops[2], canWrite, views[2], views[3]);
    assert Step(ops[3], canWrite, views[3], views[4]);
    assert data[..|data|] == data;
    assert views[2].c[o..o + |data|] == data;
    assert views[3].c == views[3].c[..|views[2].c|] == views[2].c;
    forall p | 0 <= p < |views[0].c| && !(o <= p < o + |data|)
      ensures views[4].c[p] == views[0].c[p]
    {
      OverwriteAt(views[1].c, o, data, p);
      assert views[1].c[..|views[0].c|][p] == views[0].c[p];
    }
  }

  // ---------- where f_sync stores nothing ----------

  lemma SavedSize(fs: Fatfs, fp: Fil)
    requires OnMedium(fs, fp)
    ensures fp.dirSect < |fs.disk| && fp.dirOfs + 32 <= 512
    ensures fp.objsize == LdDword(fs.disk[fp.dirSect], fp.dirOfs + 28)
  {
    hide StoredAt;
    StoredSize(fs.g, fs.disk, fp.dirSect, fp.dirOfs, Unbuffered(fp.State()));
  }

  lemma StorableChain(fs: Fatfs, fp: Fil)
    requires Storable(fs, fp)
    ensures GoodChain(fs.g, fp.ch) && fs.g.WellFormed(|fs.disk|) && Layout(fs.g)
  {
    hide Fatfs.Valid, InFile, IsChain, Capacity;
  }

  lemma NothingStraddles(g: Geometry, ch: seq<nat>)
    requires g.fsType != Fat12
    ensures LastWhole(g, ch)
  {
  }

  /** f_write marks the file as changed only at its successful end. If the first one fails after the file grew, f_sync
      answers FR_OK without writing anything, and the medium does not store the file. */
  method FailedWriteLost(fs: Fatfs, fp: Fil, data: seq<byte>, tm: u32, buff: array<byte>)
    returns (res: FResult, synced: FResult)
    requires Ready(fs, fp, buff) && |data| <= 0xFFFF_FFFF && !fp.modified && fp.canWrite && fs.g.fsType != Fat12
    modifies fs, fs.win, fp, fp.buf
    ensures Ended(Write(data), fp, old(fs.fat), res, old(fs.medium), fs.medium)
    ensures if res == FrOk then fp.modified else synced == FrOk && !fp.modified
    ensures res != FrOk && fp.objsize > old(fp.objsize) ==> !OnMedium(fs, fp) && !Saved(fs, fp)
  {
    hide Fatfs.Valid, Core, Content, AtRest, OwnOnly, Grew, Full, CountKnown, IsForest, CrashSafe, Overwrite, InFile,
         EntryHome, StoredAt, Spared, LastWhole, Unbuffered, BufferMoved, GoodChain, EntryPlace;
    ReadyParts(fs, fp, buff);
    ghost var a, fat0, ch0, size := fs.St(), fs.fat, fp.ch, fp.objsize;
    SavedSize(fs, fp);
    var bw;
    res, bw := FWrite(fs, fp, data);
    synced := res;
    if res != FrOk {
      NothingStraddles(fs.g, fp.ch);
      StorableChain(fs, fp);
      OwnSize(fs.g, fp.ch, a, fat0, fs.St(), fs.fat);
      HomeKept(fs.g, |fs.disk|, fat0, ch0, a, fs.St(), fs.fat, fp.ch, fp.ch, fp.dirSect, fp.dirOfs);
      GoodRange(fs.g, fp.ch);
      HomeApart(fs.g, |fs.disk|, fs.fat, fp.ch, fp.dirSect, fp.dirOfs);
      HomeNotBoot(fs.g, |fs.disk|, fs.fat, fp.ch, fp.dirSect, fp.dirOfs);
      EntryUntouched(fs.g, fp.ch, a, fat0, fs.St(), fs.fat, fp.dirSect, fp.dirOfs);
      if fp.objsize > size && OnMedium(fs, fp) { SavedSize(fs, fp); }
      synced := FSync(fs, fp, tm);
    }
  }

  /** f_sync drops the mark also if it could not write the window. Trying again then answers FR_OK without writing
      anything (`between` is the medium before), and the entry is still pending. */
  method RetriedSyncLost(fs: Fatfs, fp: Fil, tm: u32)
    returns (res: FResult, stuck: bool, again: FResult, ghost between: seq<Sector>)
    requires Storable(fs, fp) && EntryApart(fs, fp) && fp.modified
    modifies fs`disk, fs`wflag, fs`medium, fs`winsect, fs`fsiDirty, fs.win, fp`dirty, fp`modified
    ensures res == FrOk || stuck || fp.modified || Saved(fs, fp)
    ensures stuck ==> res == FrDiskErr && again == FrOk && fs.disk == between && !Saved(fs, fp)
  {
    hide Fatfs.Valid, Core, Content, AtRest, InFile, StoredAt, Unbuffered, EntryPlace, Stores;
    res := FSync(fs, fp, tm);
    between := fs.disk;
    stuck, again := res != FrOk && !fp.modified && fs.wflag && fs.winsect == fp.dirSect, res;
    if stuck { again := FSync(fs, fp, tm); }
  }

  // ---------- two files ----------

  /** f_write on one file leaves another open file as it is, and their clusters disjoint. */
  method WriteBeside(fs: Fatfs, fp: Fil, data: seq<byte>, other: Fil) returns (res: FResult, bw: nat)
    requires fs.g.fsType != ExFat && |data| <= 0xFFFF_FFFF && fp != other && fp.buf != other.buf
    requires fp.err == FrOk && Open(fs, fp) && AtRest(fs.g, fp.State())
    requires Open(fs, other) && Disjoint(other.ch, fp.ch)
    modifies fs, fs.win, fp, fp.buf
    ensures Ended(Write(data), fp, old(fs.fat), res, old(fs.medium), fs.medium)
    ensures res == FrOk ==> bw <= |data| && Open(fs, fp) && Disjoint(other.ch, fp.ch)
    ensures res == FrOk ==> other.State() == old(other.State())
    ensures res == FrOk ==> Readable(fs.g, fs.disk, other.State()) && other.objsize <= Capacity(fs.g, other.ch)
    ensures res == FrOk ==> Content(fs.g, fs.disk, other.State()) == old(FileBytesOf(fs, other))
    // the other file can be gone on with, unless its buffer shows a sector it gave up and this one now has
    ensures res == FrOk ==> (Open(fs, other) <==> BufferFresh(fs.St(), other.State()))
    ensures res == FrOk && (BufferOwn(fs.g, other.State()) || !InFile(fs.g, fp.ch, other.sect)) ==> Open(fs, other)
    ensures res == FrOk ==> FileBytesOf(fs, fp) == Overwrite(old(FileBytesOf(fs, fp)), old(fp.fptr), data[..bw])
    ensures (res == FrOk && bw < |data| && bw != 0xFFFF_FFFF - old(fp.fptr)) ==>
      AtCapacity(fs.g, fp.State()) && (CountKnown(old(fs.fat), old(fs.freeClst)) ==> Full(fs.fat))
  {
    hide Fatfs.Valid, Core, Content, AtRest, OwnOnly, Grew, Full, CountKnown, IsForest, CrashSafe, Overwrite,
         Disjoint, BufferOwn, BufferFresh, Kept, Capacity, Readable, InFile;
    ghost var a, fa, ch0 := fs.St(), fs.fat, fp.ch;
    OpenChain(fs, other);
    res, bw := FWrite(fs, fp, data);
    if res == FrOk {
      StillDisjoint(fa, ch0, fp.ch, other.ch);
      OpenChain(fs, fp);
      OtherFileKept(fs.g, fp.ch, a, fa, fs.St(), fs.fat, other.State());
    }
  }

  lemma OpenChain(fs: Fatfs, fp: Fil)
    requires Open(fs, fp)
    ensures GoodChain(fs.g, fp.ch) && (|fp.ch| > 0 ==> IsChain(fs.fat, fp.ch))
  {
  }
}
