/** f_read, f_write, f_lseek, f_truncate and f_sync on FAT12/16/32. */
module FatFile {
  import opened Bytes
  import opened Volume
  import opened Window
  import opened FatAccess
  import opened Forest
  import opened Chains
  import opened FileBytes
  import opened FileSteps

  /** FIL. The flag byte is split into its bits. */
  class Fil {
    const canRead: bool      // FA_READ
    const canWrite: bool     // FA_WRITE
    const dirSect: u32
    const dirOfs: nat        // dir_ptr, as an offset into win[]
    const buf: array<byte>
    var sclust: u32
    var objsize: nat
    var fptr: nat
    var clust: u32
    var sect: u32
    var dirty: bool          // FA_DIRTY
    var modified: bool       // FA_MODIFIED
    var err: FResult

    /** The clusters of the file, in order. */
    ghost var ch: seq<nat>

    /** The end of f_open: start cluster and size from the directory entry, no buffered sector, position 0. */
    constructor (read: bool, write: bool, entrySect: u32, entryOfs: nat, start: u32, size: u32, ghost chain: seq<nat>)
      ensures fresh(buf) && canRead == read && canWrite == write && dirSect == entrySect && dirOfs == entryOfs
      ensures State().ch == chain && State().sclust == start && State().objsize == size && fptr == 0 && sect == 0
      ensures !dirty && !modified
      ensures buf.Length == 512 && err == FrOk
    {
      canRead, canWrite, dirSect, dirOfs := read, write, entrySect, entryOfs;
      buf := new byte[512](_ => 0);
      sclust, objsize, fptr, clust, sect, dirty, modified, err := start, size, 0, 0, 0, false, false, FrOk;
      ch := chain;
    }

    ghost function State(): FileState
      reads this`sclust, this`objsize, this`fptr, this`clust, this`sect, this`dirty, this`ch, buf
    {
      FileState(ch, sclust, objsize, fptr, clust, sect, dirty, buf[..])
    }
  }

  /** An open file on a mounted FAT12/16/32 volume, no error reported so far. */
  ghost predicate Open(fs: Fatfs, fp: Fil)
    reads fs, fs.win, fp, fp.buf
  {
    && fs.Valid() && fs.g.fsType != ExFat
    && fp.buf.Length == 512 && fp.buf != fs.win
    && Core(fs.g, fs.fat, fs.St(), fp.State())
  }

  /** The bytes of the open file. */
  ghost function FileBytesOf(fs: Fatfs, fp: Fil): seq<byte>
    requires Open(fs, fp)
    reads fs, fs.win, fp, fp.buf
  {
    Content(fs.g, fs.disk, fp.State())
  }

  /** Half of that: the buffer counts only if it is dirty. A failed call leaves the file so, and f_sync needs no
      more. */
  ghost predicate Storable(fs: Fatfs, fp: Fil)
    reads fs, fs.win, fp, fp.buf
  {
    && fs.Valid() && fs.g.fsType != ExFat
    && fp.buf.Length == 512 && fp.buf != fs.win
    && Core(fs.g, fs.fat, fs.St(), Unbuffered(fp.State()))
  }

  ghost function StorableBytes(fs: Fatfs, fp: Fil): seq<byte>
    requires Storable(fs, fp)
    reads fs, fs.win, fp, fp.buf
  {
    Content(fs.g, fs.disk, Unbuffered(fp.State()))
  }

  lemma OpenStorable(fs: Fatfs, fp: Fil)
    requires Open(fs, fp)
    ensures Storable(fs, fp) && StorableBytes(fs, fp) == FileBytesOf(fs, fp)
  {
    hide Fatfs.Valid, Core;
    UnbufferedSame(fs.g, fs.fat, fs.St(), fp.State());
  }

  /** The buffer shows the sector it showed, or one of the file. */
  ghost predicate BufferMoved(g: Geometry, ch: seq<nat>, s0: u32, s1: u32) {
    s1 == s0 || InFile(g, ch, s1)
  }

  lemma BufferMovedSelf(g: Geometry, ch: seq<nat>, s: u32)
    ensures BufferMoved(g, ch, s, s)
  {
  }

  lemma BufferMovedTrans(g: Geometry, ch0: seq<nat>, ch1: seq<nat>, s0: u32, s1: u32, s2: u32)
    requires BufferMoved(g, ch0, s0, s1) && BufferMoved(g, ch1, s1, s2) && ch0 <= ch1
    ensures BufferMoved(g, ch1, s0, s2)
  {
    hide InFile;
    if s2 == s1 && s1 != s0 { InFilePrefix(g, ch0, ch1, s1); }
  }

  /** No put_fat was made and no write failed. */
  ghost predicate NoPut(log0: seq<LogEntry>, m0: Medium, log1: seq<LogEntry>, m1: Medium) {
    log1 == log0 && Refreshed(m0, m1, |log0|)
  }

  /** No put_fat on the last cluster of a chain goes through two sectors. */
  ghost predicate LastWhole(g: Geometry, ch: seq<nat>) {
    |ch| > 0 ==> !Straddles(g, ch[|ch| - 1])
  }

  /** Between two points the file functions wrote nothing but the FAT copies, the sectors of the file
      and the sector that was dirty in the window, and changed no FAT entry in use by anything else. */
  ghost predicate OwnOnly(g: Geometry, ch: seq<nat>, a: WinState, fa: seq<nat>, b: WinState, fb: seq<nat>) {
    && |b.disk| == |a.disk| && |fb| == |fa|
    && (forall s {:trigger b.disk[s]} ::
          0 <= s < |a.disk| && !g.InFats(s) && !InFile(g, ch, s) && !(a.wflag && s == a.winsect) ==>
            b.disk[s] == a.disk[s])
    && (forall s {:trigger b.Logical()[s]} ::
          0 <= s < |a.disk| && !g.InFats(s) && !InFile(g, ch, s) ==> b.Logical()[s] == a.Logical()[s])
    && (b.wflag ==> g.InFat1(b.winsect) || (a.wflag && b.winsect == a.winsect))
    && (b.winsect == a.winsect || g.InFat1(b.winsect) || b.winsect == INVALID_SECTOR)
    && (forall d {:trigger fb[d]} :: 2 <= d < |fa| && fa[d] != 0 && d !in ch ==> fb[d] == fa[d])
  }

  /** Sectors of the file written on the medium. */
  lemma OwnDisk(g: Geometry, ch: seq<nat>, a: WinState, b: WinState, fat: seq<nat>)
    requires b == a.(disk := b.disk) && |b.disk| == |a.disk|
    requires forall s :: 0 <= s < |a.disk| && !InFile(g, ch, s) ==> b.disk[s] == a.disk[s]
    ensures OwnOnly(g, ch, a, fat, b, fat)
  {
    hide InFile;
  }

  lemma OwnOnlySelf(g: Geometry, ch: seq<nat>, a: WinState, fa: seq<nat>)
    ensures OwnOnly(g, ch, a, fa, a, fa)
  {
  }

  lemma FatOnlyOwn(g: Geometry, ch: seq<nat>, a: WinState, fa: seq<nat>, b: WinState, fb: seq<nat>)
    requires FatOnly(g, a, b) && |fb| == |fa|
    requires forall d :: 2 <= d < |fa| && fa[d] != 0 && d !in ch ==> fb[d] == fa[d]
    ensures OwnOnly(g, ch, a, fa, b, fb)
  {
    hide InFile;
  }

  lemma OwnOnlyTrans(g: Geometry, ch: seq<nat>, ch2: seq<nat>,
                     a: WinState, fa: seq<nat>, b: WinState, fb: seq<nat>, c: WinState, fc: seq<nat>)
    requires OwnOnly(g, ch, a, fa, b, fb) && OwnOnly(g, ch2, b, fb, c, fc) && ch <= ch2
    ensures OwnOnly(g, ch2, a, fa, c, fc)
  {
    hide InFile;
    forall s | 0 <= s < |a.disk| && !g.InFats(s) && !InFile(g, ch2, s) && !(a.wflag && s == a.winsect)
      ensures c.disk[s] == a.disk[s]
    {
      if InFile(g, ch, s) { InFilePrefix(g, ch, ch2, s); }
      assert b.disk[s] == a.disk[s];
    }
    forall s | 0 <= s < |a.disk| && !g.InFats(s) && !InFile(g, ch2, s)
      ensures c.Logical()[s] == a.Logical()[s]
    {
      if InFile(g, ch, s) { InFilePrefix(g, ch, ch2, s); }
      assert b.Logical()[s] == a.Logical()[s];
    }
    forall d | 2 <= d < |fa| && fa[d] != 0 && d !in ch2
      ensures fc[d] == fa[d]
    {
      assert d !in ch;
      assert fb[d] == fa[d];
    }
  }

  /** `ch1` is `ch0` with clusters behind it that were free in `fat`. */
  ghost predicate Grew(fat: seq<nat>, ch0: seq<nat>, ch1: seq<nat>) {
    ch0 <= ch1 && forall c :: c in ch1 && c !in ch0 ==> 2 <= c < |fat| && fat[c] == 0
  }

  lemma GrewSelf(fat: seq<nat>, ch: seq<nat>)
    ensures Grew(fat, ch, ch)
  {
  }

  lemma GrewPrefix(fat: seq<nat>, ch0: seq<nat>, ch1: seq<nat>)
    requires Grew(fat, ch0, ch1)
    ensures ch0 <= ch1
  {
  }

  lemma GrewOne(g: Geometry, fat: seq<nat>, fat1: seq<nat>, ch: seq<nat>, c: nat)
    requires Appended(g, fat, fat1, if |ch| == 0 then 0 else ch[|ch| - 1], c)
    ensures Grew(fat, ch, ch + [c])
  {
  }

  /** Growth in two steps: a cluster that is free after the first one was free before it. */
  lemma GrewTrans(g: Geometry, fat0: seq<nat>, ch0: seq<nat>, a: WinState, ch1: seq<nat>, b: WinState, fat1: seq<nat>,
                  ch2: seq<nat>)
    requires Grew(fat0, ch0, ch1) && OwnOnly(g, ch1, a, fat0, b, fat1) && Grew(fat1, ch1, ch2)
    ensures Grew(fat0, ch0, ch2)
  {
    hide InFile;
    forall c | c in ch2 && c !in ch0
      ensures 2 <= c < |fat0| && fat0[c] == 0
    {
      if c !in ch1 { assert fat1[c] == 0; }
    }
  }

  /** Nothing links to the first cluster of the chain, and the FAT is a forest. */
  ghost predicate Rooted(fat: seq<nat>, ch: seq<nat>) {
    IsForest(fat) && (|ch| > 0 ==> NoPredecessor(fat, ch[0]))
  }

  /** What the history tells of work on one file: the entries of all other clusters in use were left alone at every
      put_fat, and (unless `ok` fails) the chain still starts where nothing links to. */
  ghost predicate Traced(ch0: seq<nat>, fat0: seq<nat>, log0: seq<LogEntry>, ch1: seq<nat>, fat1: seq<nat>,
                         log1: seq<LogEntry>, ok: bool) {
    LogApart(ch1, fat0, log0, log1) && (ok && Rooted(fat0, ch0) ==> Rooted(fat1, ch1))
  }

  lemma TracedSelf(ch: seq<nat>, fat: seq<nat>, log: seq<LogEntry>, ok: bool)
    ensures Traced(ch, fat, log, ch, fat, log, ok)
  {
    hide Rooted;
  }

  lemma TracedAnyway(ch0: seq<nat>, fat0: seq<nat>, log0: seq<LogEntry>, ch1: seq<nat>, fat1: seq<nat>,
                     log1: seq<LogEntry>)
    requires Traced(ch0, fat0, log0, ch1, fat1, log1, true)
    ensures Traced(ch0, fat0, log0, ch1, fat1, log1, false)
  {
    hide LogApart, Rooted;
  }

  lemma TracedTrans(g: Geometry, ch0: seq<nat>, a: WinState, fat0: seq<nat>, log0: seq<LogEntry>, ch1: seq<nat>,
                    b: WinState, fat1: seq<nat>, log1: seq<LogEntry>, ch2: seq<nat>, fat2: seq<nat>,
                    log2: seq<LogEntry>, ok: bool)
    requires Traced(ch0, fat0, log0, ch1, fat1, log1, true) && Traced(ch1, fat1, log1, ch2, fat2, log2, ok)
    requires OwnOnly(g, ch1, a, fat0, b, fat1) && ch1 <= ch2
    ensures Traced(ch0, fat0, log0, ch2, fat2, log2, ok)
  {
    hide Rooted, LogApart, InFile;
    forall d | 2 <= d < |fat0| && fat0[d] != 0 && d !in ch2
      ensures fat1[d] == fat0[d] && d !in ch1
    {
      assert d !in ch1;
    }
    ApartTrans(ch2, ch1, ch2, fat0, log0, fat1, log1, log2);
  }

  /** A cluster appended to the chain. */
  lemma RootedGrown(g: Geometry, fat: seq<nat>, fat1: seq<nat>, ch: seq<nat>, c: nat)
    requires Appended(g, fat, fat1, if |ch| == 0 then 0 else ch[|ch| - 1], c) && Rooted(fat, ch) && IsForest(fat1)
    requires |ch| > 0 ==> IsChain(fat, ch)
    requires |fat| <= g.MaxEntry()
    ensures Rooted(fat1, ch + [c])
  {
    hide NoSharing, NoCycle;
    if |ch| > 0 { ChainStep(fat, ch, 0); }
    forall a | 2 <= a < |fat1|
      ensures fat1[a] != (ch + [c])[0]
    {
      if fat[a] == c { assert fat[fat[a]] != 0; }
    }
  }

  lemma InFilePrefix(g: Geometry, ch: seq<nat>, ch2: seq<nat>, s: int)
    requires InFile(g, ch, s) && ch <= ch2
    ensures InFile(g, ch2, s)
  {
    hide Idx, Off, Sect;
    var k: nat :| Idx(g, k) < |ch| && SectorOf(g, ch, k) == s;
    assert SectorOf(g, ch2, k) == s;
  }

  // ---------- data transfers on the object ----------

  /** Sector writes in the data area, away from the window, do not concern the FAT. */
  lemma DataWriteValid(g: Geometry, a: WinState, b: WinState, fat: seq<nat>, onMedium: seq<nat>)
    requires a.Coherent(g) && FatOf(g, a.Logical(), fat)
    requires b == a.(disk := b.disk) && |b.disk| == |a.disk|
    requires forall s ::
      0 <= s < |a.disk| && !(g.database <= s < g.dataEnd && s != a.winsect) ==> b.disk[s] == a.disk[s]
    ensures b.Coherent(g) && FatOf(g, b.Logical(), fat)
    ensures forall x :: MirroredBut(g, a.disk, x) ==> MirroredBut(g, b.disk, x)
    ensures FatOf(g, a.disk, onMedium) ==> FatOf(g, b.disk, onMedium)
    ensures g.fsinfo ==> b.disk[g.volbase + 1] == a.disk[g.volbase + 1]
  {
    FatOfFrame(g, a.Logical(), b.Logical(), fat);
    if FatOf(g, a.disk, onMedium) {
      FatOfFrame(g, a.disk, b.disk, onMedium);
    }
  }

  /** disk_write of file data. */
  method WriteSectors(fs: Fatfs, data: seq<byte>, sect: nat, cc: nat) returns (ok: bool)
    requires fs.Valid() && |data| == 512 * cc
    requires fs.g.database <= sect && sect + cc <= fs.g.dataEnd && !(sect <= fs.winsect < sect + cc)
    modifies fs`disk, fs`medium
    ensures fs.Valid() && |fs.disk| == old(|fs.disk|) && fs.medium == old(fs.medium).Written(ok)
    ensures forall s :: 0 <= s < |fs.disk| && !(sect <= s < sect + cc) ==> fs.disk[s] == old(fs.disk)[s]
    ensures ok ==> Transferred(old(fs.disk), fs.disk, sect, cc, data)
  {
    hide FatOf, MirroredBut, WellLogged, WinState.Logical, Slice, InfoCounts;
    ghost var a := fs.St();
    ok := DiskWriteMany(fs, data, sect, cc);
    DataWriteValid(fs.g, a, fs.St(), fs.fat, fs.log[fs.medium.at].fat);
  }

  /** Write back the dirty sector buffer. */
  method FlushBuffer(fs: Fatfs, fp: Fil) returns (ok: bool)
    requires Open(fs, fp) && fp.dirty
    modifies fs`disk, fs`medium, fp`dirty
    ensures fs.medium == old(fs.medium).Written(ok)
    ensures fs.Valid() && OwnOnly(fs.g, fp.ch, old(fs.St()), old(fs.fat), fs.St(), fs.fat)
    ensures |fs.disk| == old(|fs.disk|)
    ensures Open(fs, fp) && fp.State() == old(fp.State()).(dirty := !ok)
    ensures SameSectors(fs.g, old(fs.disk), old(fp.State()), fs.disk, fp.State())
  {
    hide Fatfs.Valid, Idx, Off, Sect, SectorOf, Geometry.WellFormed, Capacity, IsChain, GoodChain, Layout,
         SameSectors, WinState.Logical;
    ghost var a, f := fs.St(), fp.State();
    NotInFats(fs.g, |fs.disk|, fp.sect) by { FileSectorFacts(fs.g, fs.disk, f); }
    ok := WriteSectors(fs, fp.buf[..], fp.sect, 1);
    OwnDisk(fs.g, fp.ch, a, fs.St(), fs.fat);
    if ok {
      assert Slice(fp.buf[..], 0) == fp.buf[..];
      assert fs.disk[fp.sect] == fp.buf[..];
      WriteBackStep(fs.g, fs.fat, a, fs.St(), f);
      fp.dirty := false;
    } else {
      FailedBackStep(fs.g, fs.fat, a, fs.St(), f);
    }
  }

  // ---------- f_write ----------

  /** The choice f_write makes at a cluster boundary: the start of the chain, or create_chain. `i` is the index of
      the wanted cluster in the chain. */
  method ChooseCluster(fs: Fatfs, fp: Fil, ghost i: nat) returns (clst: u32)
    requires Open(fs, fp) && i <= |fp.ch|
    requires if fp.fptr == 0 then i == 0 else i > 0 && fp.clust as nat == fp.ch[i - 1]
    modifies fs, fs.win
    ensures fs.Valid() && FatOnly(fs.g, old(fs.St()), fs.St()) && |fs.fat| == old(|fs.fat|)
    ensures forall d :: 2 <= d < |fs.fat| && old(fs.fat)[d] != 0 && d !in fp.ch ==> fs.fat[d] == old(fs.fat)[d]
    ensures (clst == 0 || (clst != 1 && clst != DISK_ERROR && i < |fp.ch|)) ==> fs.fat == old(fs.fat)
    ensures (clst != 0 && clst != 1 && clst != DISK_ERROR && i < |fp.ch|) ==> clst as nat == fp.ch[i]
    ensures (clst != 0 && clst != 1 && clst != DISK_ERROR && i == |fp.ch|) ==>
      fs.g.InFat1(fs.winsect)
      && Appended(fs.g, old(fs.fat), fs.fat, if |fp.ch| == 0 then 0 else fp.ch[|fp.ch| - 1], clst)
    ensures clst == 0 ==> i == |fp.ch| && (CountKnown(fs.fat, fs.freeClst) ==> Full(fs.fat))
    ensures (clst != 1 && clst != DISK_ERROR) ==>
      Kept(old(fs.fat), old(fs.freeClst), fs.fat, fs.freeClst)
    ensures clst == 0 || (clst != 1 && clst != DISK_ERROR && i < |fp.ch|) ==>
      NoPut(old(fs.log), old(fs.medium), fs.log, fs.medium)
    ensures clst == 1 ==> HasReserved(old(fs.fat))
    ensures clst == DISK_ERROR ==> Faulted(old(fs.medium), fs.medium)
    ensures (clst == 1 || clst == DISK_ERROR) && LastWhole(fs.g, fp.ch) && |fp.ch| > 0 ==> IsChain(fs.fat, fp.ch)
    ensures StaysSafe(old(fs.log), fs.log, clst != DISK_ERROR)
    ensures LogApart(fp.ch, old(fs.fat), old(fs.log), fs.log)
    ensures Onward(old(fs.medium), fs.medium)
  {
    hide Fatfs.Valid, Geometry.WellFormed, Capacity, IsChain, WinState.Logical, FatOnly, IsForest, FreeCount,
         InFile, Readable, Full, CountKnown, CrashSafe, LogApart;
    ApartSelf(fp.ch, fs.fat, fs.log);
    FatOnlyOwnSelf(fs, fp);
    ValidBasics(fs);
    MediumBound(fs.g, |fs.disk|);
    if fp.fptr == 0 {
      clst := fp.sclust;
      if clst == 0 {
        clst := CreateChain(fs, 0);
        ApartWithin(fp.ch, 0, old(fs.fat), old(fs.log), fs.log);
      } else {
        ChainStep(fs.fat, fp.ch, 0);
      }
    } else {
      ChainStep(fs.fat, fp.ch, i - 1);
      assert fp.clust as nat in fp.ch;
      ghost var fat0 := fs.fat;
      clst := CreateChain(fs, fp.clust);
      ApartWithin(fp.ch, fp.clust, fat0, old(fs.log), fs.log);
      if (clst == 1 || clst == DISK_ERROR) && LastWhole(fs.g, fp.ch) {
        SameEntries(fat0, fs.fat, fp.ch, fp.clust);
      }
    }
  }

  lemma SameEntries(fat0: seq<nat>, fat1: seq<nat>, ch: seq<nat>, c: nat)
    requires IsChain(fat0, ch) && |fat1| == |fat0| && c < |fat0| && fat1[c] == fat0[c]
    requires forall d :: 2 <= d < |fat0| && d != c && fat0[d] != 0 ==> fat1[d] == fat0[d]
    ensures IsChain(fat1, ch)
  {
  }

  /** The cluster step of f_write at a cluster boundary: follow, stretch or create the chain.
      0: disk full; 1 or DISK_ERROR: failed. */
  method WriteCluster(fs: Fatfs, fp: Fil) returns (clst: u32)
    requires Open(fs, fp) && AtRest(fs.g, fp.State())
    requires fp.fptr % 512 == 0 && Off(fs.g, fp.fptr / 512) == 0
    modifies fs, fs.win, fp`clust, fp`sclust, fp`ch
    ensures fs.Valid() && OwnOnly(fs.g, fp.ch, old(fs.St()), old(fs.fat), fs.St(), fs.fat)
    ensures Grew(old(fs.fat), old(fp.ch), fp.ch)
    ensures (clst != 1 && clst != DISK_ERROR) ==>
      Open(fs, fp) && SameSectors(fs.g, old(fs.disk), old(fp.State()), fs.disk, fp.State())
      && Kept(old(fs.fat), old(fs.freeClst), fs.fat, fs.freeClst)
    ensures (clst != 0 && clst != 1 && clst != DISK_ERROR) ==>
      Idx(fs.g, fp.fptr / 512) < |fp.ch| && fp.clust as nat == fp.ch[Idx(fs.g, fp.fptr / 512)]
    ensures clst == 0 ==> fp.State() == old(fp.State()) && (CountKnown(fs.fat, fs.freeClst) ==> Full(fs.fat))
    ensures clst == 0 ==> Idx(fs.g, fp.fptr / 512) == |fp.ch|
    ensures fp.ch == old(fp.ch) || Idx(fs.g, fp.fptr / 512) == |old(fp.ch)|
    ensures clst != 1 && clst != DISK_ERROR && fp.ch == old(fp.ch) ==>
      NoPut(old(fs.log), old(fs.medium), fs.log, fs.medium) && fp.sclust == old(fp.sclust)
    ensures clst == 1 || clst == DISK_ERROR ==> fp.State() == old(fp.State())
    ensures (clst == 1 || clst == DISK_ERROR) && LastWhole(fs.g, fp.ch) ==>
      Open(fs, fp) && SameSectors(fs.g, old(fs.disk), old(fp.State()), fs.disk, fp.State())
    ensures clst == 1 ==> HasReserved(old(fs.fat))
    ensures clst == DISK_ERROR ==> Faulted(old(fs.medium), fs.medium)
    ensures StaysSafe(old(fs.log), fs.log, clst != DISK_ERROR)
    ensures Traced(old(fp.ch), old(fs.fat), old(fs.log), fp.ch, fs.fat, fs.log, clst != 1 && clst != DISK_ERROR)
    ensures Onward(old(fs.medium), fs.medium)
  {
    hide Fatfs.Valid, Idx, Off, Sect, SectorOf, Geometry.WellFormed, Capacity, IsChain, GoodChain, Layout,
         SameSectors, WinState.Logical, FatOnly, OwnOnly, InFile, Grew, Readable, Full, CountKnown, IsForest,
         CrashSafe, Appended, WinState.Coherent, AtRest, Core, Unbuffered, Rooted, LogApart;
    ghost var a, f, fat0 := fs.St(), fp.State(), fs.fat;
    FatOnlyOwnSelf(fs, fp);
    GrewSelf(fs.fat, fp.ch);
    ghost var i := ClusterIndex(fs.g, f);
    CoreStart(fs.g, fs.fat, a, f);
    clst := ChooseCluster(fs, fp, i);
    ClusterTraced(fs, f.ch, i, clst, fat0, old(fs.log), old(fs.freeClst));
    FatOnlyOwn(fs.g, fp.ch, a, fat0, fs.St(), fs.fat);
    if clst == 1 || clst == DISK_ERROR {
      if LastWhole(fs.g, fp.ch) { FatStep(fs.g, fat0, a, fs.fat, fs.St(), f); }
      return;
    }
    ClusterChosen(fs.g, fat0, a, fs.fat, fs.St(), f, i, clst);
    if clst == 0 { return; }
    if i == |f.ch| {
      GrewOne(fs.g, fat0, fs.fat, fp.ch, clst);
      fp.ch := fp.ch + [clst];
      FatOnlyOwn(fs.g, fp.ch, a, fat0, fs.St(), fs.fat);
    }
    fp.clust := clst;
    if fp.sclust == 0 { fp.sclust := clst; }
  }

  /** The history of the cluster step. */
  lemma ClusterTraced(fs: Fatfs, ch: seq<nat>, i: nat, clst: u32, fat0: seq<nat>, log0: seq<LogEntry>, free0: u32)
    requires fs.Valid() && LogApart(ch, fat0, log0, fs.log) && i <= |ch| && (|ch| > 0 ==> IsChain(fat0, ch))
    requires |fat0| == |fs.fat|
    requires clst == 0 || i < |ch| ==> fs.fat == fat0 || clst == 1 || clst == DISK_ERROR
    requires clst != 0 && clst != 1 && clst != DISK_ERROR && i == |ch| ==>
      Appended(fs.g, fat0, fs.fat, if |ch| == 0 then 0 else ch[|ch| - 1], clst)
    requires clst != 1 && clst != DISK_ERROR ==> Kept(fat0, free0, fs.fat, fs.freeClst)
    ensures var grown := clst != 0 && clst != 1 && clst != DISK_ERROR && i == |ch|;
      Traced(ch, fat0, log0, if grown then ch + [clst] else ch, fs.fat, fs.log, clst != 1 && clst != DISK_ERROR)
  {
    hide Fatfs.Valid, Geometry.WellFormed, IsForest, NoPredecessor, Appended, LogApart, IsChain, CountKnown,
         HasReserved;
    if clst != 0 && clst != 1 && clst != DISK_ERROR && i == |ch| {
      ApartMore(ch, ch + [clst], fat0, log0, fs.log);
      ValidBasics(fs);
      EndMark(fs.g, |fs.disk|);
      if Rooted(fat0, ch) { RootedGrown(fs.g, fat0, fs.fat, ch, clst); }
    }
  }

  /** The file after the cluster step: unchanged if the disk is full, else with the cluster current, and appended if
      it is new. */
  lemma ClusterChosen(g: Geometry, fat0: seq<nat>, st0: WinState, fat1: seq<nat>, st1: WinState, f: FileState, i: nat,
                      c: u32)
    requires Core(g, fat0, st0, f) && FatOnly(g, st0, st1) && |fat1| == |fat0| && i <= |f.ch|
    requires c == 0 || i < |f.ch| ==> fat1 == fat0
    requires c != 0 && i == |f.ch| ==>
      g.InFat1(st1.winsect) && Appended(g, fat0, fat1, if |f.ch| == 0 then 0 else f.ch[|f.ch| - 1], c)
    ensures var f1 := if c == 0 then f else (if i < |f.ch| then f else Grown(f, c)).(clust := c);
      Core(g, fat1, st1, f1) && SameSectors(g, st0.disk, f, st1.disk, f1)
  {
    hide Core, FatOnly, Appended, SameSectors, IsChain;
    if c == 0 || i < |f.ch| {
      CoreChain(g, fat0, st0, f);
      FatStep(g, fat0, st0, fat1, st1, f);
      ClustOnly(g, fat1, st1, st0.disk, f, f, c);
    } else {
      GrowStep(g, fat0, st0, fat1, st1, f, c);
      ClustOnly(g, fat1, st1, st0.disk, f, Grown(f, c), c);
    }
  }

  /** At a cluster boundary: the index of the wanted cluster in the chain, one behind the current one. */
  lemma ClusterIndex(g: Geometry, f: FileState) returns (i: nat)
    requires AtRest(g, f) && f.fptr % 512 == 0 && Off(g, f.fptr / 512) == 0
    ensures i == Idx(g, f.fptr / 512) && i <= |f.ch|
    ensures if f.fptr == 0 then i == 0 else i > 0 && f.clust as nat == f.ch[i - 1]
  {
    hide Idx, Off;
    i := Idx(g, f.fptr / 512);
    FirstIndex(g);
    if f.fptr > 0 { NextCluster(g, f.fptr / 512); }
  }

  lemma CoreStart(g: Geometry, fat: seq<nat>, st: WinState, f: FileState)
    requires Core(g, fat, st, f)
    ensures f.sclust == 0 <==> |f.ch| == 0
    ensures |f.ch| > 0 ==> f.sclust as nat == f.ch[0]
  {
    if |f.ch| > 0 { ChainStep(fat, f.ch, 0); }
  }

  lemma CoreChain(g: Geometry, fat: seq<nat>, st: WinState, f: FileState)
    requires Core(g, fat, st, f)
    ensures |f.ch| > 0 ==> IsChain(fat, f.ch)
  {
  }

  /** What create_chain will find at chain element `i`. */
  lemma ChainStep(fat: seq<nat>, ch: seq<nat>, i: nat)
    requires IsChain(fat, ch) && i < |ch|
    ensures 2 <= ch[i] < |fat|
    ensures i + 1 < |ch| ==> fat[ch[i]] == ch[i + 1] && 2 <= ch[i + 1] < |fat|
    ensures i + 1 == |ch| ==> fat[ch[i]] >= |fat| && ch[i] == ch[|ch| - 1]
  {
  }

  lemma FatOnlyOwnSelf(fs: Fatfs, fp: Fil)
    requires Open(fs, fp)
    ensures FatOnly(fs.g, fs.St(), fs.St()) && OwnOnly(fs.g, fp.ch, fs.St(), fs.fat, fs.St(), fs.fat)
    ensures |fp.ch| > 0 ==> IsChain(fs.fat, fp.ch)
    ensures fs.g.WellFormed(|fs.disk|) && fs.g.csize > 0
  {
  }

  /** clst2sect: 0 for a number that is no cluster. */
  function ClstToSect(g: Geometry, clst: u32): int {
    if Sub32(clst, 2) as int >= g.nFatent - 2 then 0 else g.database + g.csize * Sub32(clst, 2)
  }

  lemma ClstToSectIs(g: Geometry, nsect: nat, ch: seq<nat>, clst: u32, k: nat)
    requires g.WellFormed(nsect) && Layout(g) && GoodChain(g, ch) && Idx(g, k) < |ch| && clst as nat == ch[Idx(g, k)]
    ensures ClstToSect(g, clst) != 0 && ClstToSect(g, clst) + Off(g, k) == SectorOf(g, ch, k)
    ensures 0 < SectorOf(g, ch, k) < 0xFFFF_FFFF && 0 < ClstToSect(g, clst) < 0xFFFF_FFFF
  {
    hide Idx, Off;
    assert Sub32(clst, 2) == clst - 2;
    SectorOfRange(g, nsect, ch, k);
    SectRange(g, nsect, ch[Idx(g, k)], 0) by { OffRange(g, k); }
  }

  /** The test `fp->sect - sect < cc` on DWORDs: is the buffered sector among the transferred ones? */
  lemma AmongSectors(a: u32, s0: u32, cc: nat)
    requires s0 + cc <= 0xFFFF_FFFF
    ensures Sub32(a, s0) < cc <==> s0 <= a < s0 + cc
    ensures Sub32(a, s0) < cc ==> Sub32(a, s0) == a - s0
  {
    if a < s0 {
      assert Sub32(a, s0) == a - s0 + 0x1_0000_0000;
    }
  }

  lemma OpenReadable(fs: Fatfs, fp: Fil)
    requires Open(fs, fp)
    ensures Readable(fs.g, fs.disk, fp.State()) && fs.g.csize > 0 && fp.objsize <= Capacity(fs.g, fp.ch)
    ensures fp.objsize <= 0xFFFF_FFFF
    ensures fp.dirty ==> InFile(fs.g, fp.ch, fp.sect)
    ensures fp.fptr <= fp.objsize && !InFile(fs.g, fp.ch, fs.winsect)
  {
  }

  /** f_write, the branch that transfers whole sectors directly. `sect` is fptr's sector. */
  method WriteDirect(fs: Fatfs, fp: Fil, d: seq<byte>, sect: u32) returns (ok: bool, w: nat)
    requires Open(fs, fp) && !fp.dirty && fp.fptr % 512 == 0
    requires Idx(fs.g, fp.fptr / 512) < |fp.ch| && fp.clust as nat == fp.ch[Idx(fs.g, fp.fptr / 512)]
    requires sect as int == SectorOf(fs.g, fp.ch, fp.fptr / 512)
    requires |d| >= 512 && fp.fptr + |d| <= 0xFFFF_FFFF
    modifies fs`disk, fs`medium, fp`dirty, fp`fptr, fp`objsize, fp.buf
    ensures fs.medium == old(fs.medium).Written(ok)
    ensures fs.Valid() && OwnOnly(fs.g, fp.ch, old(fs.St()), old(fs.fat), fs.St(), fs.fat)
    ensures ok ==> 0 < w <= |d| && Open(fs, fp) && AtRest(fs.g, fp.State()) && fp.fptr == old(fp.fptr) + w
    ensures ok ==> FileBytesOf(fs, fp) == Overwrite(old(FileBytesOf(fs, fp)), old(fp.fptr), d[..w])
    ensures !ok ==> fp.State() == old(fp.State()) && w <= |d| && Storable(fs, fp)
    ensures !ok ==> Spared(old(FileBytesOf(fs, fp)), StorableBytes(fs, fp), fp.fptr, w)
  {
    hide Fatfs.Valid, Idx, Off, Sect, SectorOf, Geometry.WellFormed, Capacity, IsChain, GoodChain, Layout,
         Overwrite, WinState.Logical, Content, Replaced, AtRest, Transferred, OwnOnly, InFile, Slice, Core, ByteAt,
         Readable, Patch, Sub32, Spared, Unbuffered;
    ghost var a, f := fs.St(), fp.State();
    ghost var k0 := fp.fptr / 512;
    OpenReadable(fs, fp);
    var csect: nat := Off(fs.g, fp.fptr / 512);
    OffRange(fs.g, k0);
    var cc: nat := |d| / 512;
    if csect + cc > fs.g.csize { cc := fs.g.csize - csect; }
    w := 512 * cc;
    OwnRun(fs.g, fs.disk, f, k0, cc);
    var data := d[..w];
    ok := WriteSectors(fs, data, sect, cc);
    OwnRunFrame(fs.g, a, fs.St(), fs.fat, f.ch, k0, cc);
    if !ok {
      FailedDirectStep(fs.g, fs.fat, a, fs.St(), f, cc);
      return;
    }
    TransferDone(fs.g, fs.fat, a, fs.St(), f, cc, data);
    AmongSectors(fp.sect, sect, cc);
    if Sub32(fp.sect, sect) < cc {
      CopyInto(fp.buf, 0, Slice(data, Sub32(fp.sect, sect)));
      fp.dirty := false;
    }
    assert fp.State() == Refilled(f, sect, cc, data);
    fp.fptr := fp.fptr + w;
    if fp.fptr > fp.objsize { fp.objsize := fp.fptr; }
  }

  /** The sectors of a transfer inside one cluster belong to the file, not to the window. */
  lemma OwnRun(g: Geometry, disk: seq<Sector>, f: FileState, k0: nat, cc: nat)
    requires Readable(g, disk, f) && Idx(g, k0) < |f.ch| && cc > 0 && Off(g, k0) + cc <= g.csize
    ensures var s0 := SectorOf(g, f.ch, k0);
      && g.database <= s0 && s0 + cc <= g.dataEnd <= |disk| < 0xFFFF_FFFF
      && forall s :: s0 <= s < s0 + cc ==> InFile(g, f.ch, s)
  {
    hide Idx, Off, SectorOf;
    var s0 := SectorOf(g, f.ch, k0);
    SectorOfNext(g, f.ch, k0, cc - 1);
    SectorOfRange(g, |disk|, f.ch, k0);
    SectorOfRange(g, |disk|, f.ch, k0 + cc - 1);
    forall s | s0 <= s < s0 + cc
      ensures InFile(g, f.ch, s)
    {
      SectorOfNext(g, f.ch, k0, s - s0);
    }
  }

  lemma OwnRunFrame(g: Geometry, a: WinState, b: WinState, fat: seq<nat>, ch: seq<nat>, k0: nat, cc: nat)
    requires g.csize > 0 && Idx(g, k0) < |ch| && b == a.(disk := b.disk) && |b.disk| == |a.disk|
    requires var s0 := SectorOf(g, ch, k0);
      && (forall s :: s0 <= s < s0 + cc ==> InFile(g, ch, s))
      && (forall s :: 0 <= s < |a.disk| && !(s0 <= s < s0 + cc) ==> b.disk[s] == a.disk[s])
    ensures OwnOnly(g, ch, a, fat, b, fat)
  {
    hide InFile, SectorOf;
  }

  /** memcpy into a buffer. */
  method CopyInto(buf: array<byte>, o: nat, d: seq<byte>)
    requires o + |d| <= buf.Length
    modifies buf
    ensures buf[..] == Patch(old(buf[..]), o, d)
  {
    ghost var was := buf[..];
    forall i | 0 <= i < |d| { buf[o + i] := d[i]; }
    assert buf[..] == Patch(was, o, d);
  }

  /** f_write, the branch that fits data into one sector of the buffer. `sect` is fptr's sector. */
  method WritePartial(fs: Fatfs, fp: Fil, d: seq<byte>, sect: u32) returns (w: nat)
    requires Open(fs, fp) && |d| > 0 && fp.fptr + |d| <= 0xFFFF_FFFF
    requires Idx(fs.g, fp.fptr / 512) < |fp.ch| && fp.clust as nat == fp.ch[Idx(fs.g, fp.fptr / 512)]
    requires sect as int == SectorOf(fs.g, fp.ch, fp.fptr / 512)
    requires fp.sect == sect || (!fp.dirty && fp.fptr % 512 == 0 && fp.fptr >= fp.objsize)
    modifies fp`dirty, fp`sect, fp`fptr, fp`objsize, fp.buf
    ensures 0 < w <= |d| && Open(fs, fp) && AtRest(fs.g, fp.State()) && fp.fptr == old(fp.fptr) + w && fp.dirty
    ensures FileBytesOf(fs, fp) == Overwrite(old(FileBytesOf(fs, fp)), old(fp.fptr), d[..w])
  {
    hide Fatfs.Valid, Idx, Off, Sect, SectorOf, Geometry.WellFormed, Capacity, IsChain, GoodChain, Layout,
         Overwrite, WinState.Logical, Content, AtRest, Patch, InFile, Core;
    ghost var f := fp.State();
    fp.sect := sect;
    w := 512 - fp.fptr % 512;
    if w > |d| { w := |d|; }
    CopyInto(fp.buf, fp.fptr % 512, d[..w]);
    fp.dirty := true;
    PartialDone(fs.g, fs.fat, fs.St(), f, sect, d[..w]);
    fp.fptr := fp.fptr + w;
    if fp.fptr > fp.objsize { fp.objsize := fp.fptr; }
  }

  /** How one round of f_write or f_read ended. */
  datatype Round = Going | NoSpace | Failed(code: FResult)

  /** The position behind the last allocated cluster, where f_write and f_lseek need a new one. */
  ghost predicate AtCapacity(g: Geometry, f: FileState) {
    f.fptr == f.objsize == Capacity(g, f.ch)
  }

  lemma BehindLast(fs: Fatfs, fp: Fil)
    requires Open(fs, fp) && fp.fptr % 512 == 0 && Off(fs.g, fp.fptr / 512) == 0
    requires Idx(fs.g, fp.fptr / 512) == |fp.ch|
    ensures AtCapacity(fs.g, fp.State())
  {
    hide Fatfs.Valid, Idx, Off, IsChain, InFile;
    SectorIndex(fs.g, |fp.ch|, fp.fptr / 512);
  }

  /** f_write at a sector boundary: find the cluster, write back the old buffer. */
  method EnterSector(fs: Fatfs, fp: Fil) returns (r: Round, sect: u32)
    requires Open(fs, fp) && AtRest(fs.g, fp.State()) && fp.fptr % 512 == 0
    modifies fs, fs.win, fp`clust, fp`sclust, fp`ch, fp`dirty
    ensures fs.Valid() && OwnOnly(fs.g, fp.ch, old(fs.St()), old(fs.fat), fs.St(), fs.fat)
    ensures Grew(old(fs.fat), old(fp.ch), fp.ch)
    ensures r.Going? || r.NoSpace? ==>
      Open(fs, fp) && SameSectors(fs.g, old(fs.disk), old(fp.State()), fs.disk, fp.State())
      && Kept(old(fs.fat), old(fs.freeClst), fs.fat, fs.freeClst)
    ensures r.Going? ==>
      !fp.dirty && Idx(fs.g, fp.fptr / 512) < |fp.ch| && fp.clust as nat == fp.ch[Idx(fs.g, fp.fptr / 512)]
      && sect as int == SectorOf(fs.g, fp.ch, fp.fptr / 512)
    ensures r.Failed? ==> r.code == FrDiskErr || (r.code == FrIntErr && HasReserved(old(fs.fat)))
    ensures r == Failed(FrDiskErr) ==> Faulted(old(fs.medium), fs.medium)
    ensures r.Failed? && LastWhole(fs.g, fp.ch) ==>
      Open(fs, fp) && SameSectors(fs.g, old(fs.disk), old(fp.State()), fs.disk, fp.State())
    ensures r.NoSpace? ==> fp.State() == old(fp.State()) && (CountKnown(fs.fat, fs.freeClst) ==> Full(fs.fat))
    ensures r.NoSpace? ==> AtCapacity(fs.g, fp.State())
    ensures StaysSafe(old(fs.log), fs.log, r != Failed(FrDiskErr))
    ensures Traced(old(fp.ch), old(fs.fat), old(fs.log), fp.ch, fs.fat, fs.log, !r.Failed?)
    ensures Onward(old(fs.medium), fs.medium)
  {
    hide Fatfs.Valid, Idx, Off, Sect, SectorOf, Geometry.WellFormed, Capacity, IsChain, GoodChain, Layout,
         SameSectors, WinState.Logical, OwnOnly, InFile, Grew, Full, CountKnown, IsForest, CrashSafe, ClstToSect,
         AtCapacity, Traced;
    ghost var a, f, fata := fs.St(), fp.State(), fs.fat;
    TracedSelf(fp.ch, fs.fat, fs.log, true);
    TracedSelf(fp.ch, fs.fat, fs.log, false);
    OwnOnlySelf(fs.g, fp.ch, a, fs.fat);
    GrewSelf(fs.fat, fp.ch);
    SameSectorsSelf(fs.g, a.disk, f);
    sect := 0;
    r := Going;
    if fp.fptr > 0 { NextCluster(fs.g, fp.fptr / 512); }
    FirstIndex(fs.g);
    var csect: nat := Off(fs.g, fp.fptr / 512);
    if csect == 0 {
      var clst := WriteCluster(fs, fp);
      if clst == 0 {
        BehindLast(fs, fp);
        return NoSpace, 0;
      }
      if clst == 1 { return Failed(FrIntErr), 0; }
      if clst == DISK_ERROR { return Failed(FrDiskErr), 0; }
    }
    TracedAnyway(old(fp.ch), fata, old(fs.log), fp.ch, fs.fat, fs.log);
    ghost var b, f1, fatb := fs.St(), fp.State(), fs.fat;
    if fp.dirty {
      var ok := FlushBuffer(fs, fp);
      OwnOnlyTrans(fs.g, fp.ch, fp.ch, a, fata, b, fatb, fs.St(), fs.fat);
      SameSectorsTrans(fs.g, a.disk, f, b.disk, f1, fs.disk, fp.State());
      if !ok { return Failed(FrDiskErr), 0; }
    }
    var top := ClstToSect(fs.g, fp.clust);
    ClstToSectIs(fs.g, |fs.disk|, fp.ch, fp.clust, fp.fptr / 512);
    if top == 0 {
      r := Failed(FrIntErr);
      return;
    }
    sect := top + csect;
  }

  lemma SameSectorsSelf(g: Geometry, d: seq<Sector>, f: FileState)
    requires Readable(g, d, f)
    ensures SameSectors(g, d, f, d, f)
  {
    hide Idx, Off, Sect, SectorOf;
    FileSectorFacts(g, d, f);
  }

  lemma SameSectorsTrans(g: Geometry, d0: seq<Sector>, f0: FileState, d1: seq<Sector>, f1: FileState, d2: seq<Sector>,
                         f2: FileState)
    requires SameSectors(g, d0, f0, d1, f1) && SameSectors(g, d1, f1, d2, f2)
    ensures SameSectors(g, d0, f0, d2, f2)
  {
    hide Idx, Off, SectorOf, SectorData, Geometry.WellFormed, GoodChain, Layout;
    forall k: nat | Idx(g, k) < |f0.ch|
      ensures 0 <= SectorOf(g, f0.ch, k) < |d0| && 0 <= SectorOf(g, f2.ch, k) < |d2|
        && SectorData(g, d2, f2, k) == SectorData(g, d0, f0, k)
    {
      assert 0 <= SectorOf(g, f0.ch, k);
      assert 0 <= SectorOf(g, f1.ch, k);
    }
  }

  /** Fill the buffer with fptr's sector, unless it already shows it. */
  method LoadSector(fs: Fatfs, fp: Fil, sect: u32) returns (ok: bool)
    requires Open(fs, fp) && !fp.dirty && Idx(fs.g, fp.fptr / 512) < |fp.ch|
    requires sect as int == SectorOf(fs.g, fp.ch, fp.fptr / 512)
    modifies fs`medium, fp`sect, fp.buf
    ensures fs.medium == old(fs.medium).After(ok)
    ensures old(fp.sect) == sect ==> ok && fp.State() == old(fp.State())
    ensures ok ==> Open(fs, fp) && fp.sect == sect && SameSectors(fs.g, fs.disk, old(fp.State()), fs.disk, fp.State())
    ensures !ok ==> Storable(fs, fp) && StorableBytes(fs, fp) == old(FileBytesOf(fs, fp)) && fp.sect == old(fp.sect)
  {
    hide Fatfs.Valid, Idx, Off, Sect, SectorOf, Geometry.WellFormed, Capacity, IsChain, GoodChain, Layout,
         SameSectors, WinState.Logical, InFile;
    ghost var f := fp.State();
    SameSectorsSelf(fs.g, fs.disk, f);
    ok := true;
    if fp.sect != sect {
      LoadStep(fs.g, fs.fat, fs.St(), f, fp.fptr / 512);
      ok := DiskRead(fs, fp.buf, sect);
      if !ok {
        FailedLoadStep(fs.g, fs.fat, fs.St(), f, fp.buf[..]);
        return;
      }
      fp.sect := sect;
    }
  }

  /** One round of f_write: `w` bytes of `d` go into the file at fptr. */
  method WriteRound(fs: Fatfs, fp: Fil, d: seq<byte>) returns (r: Round, w: nat)
    requires Open(fs, fp) && AtRest(fs.g, fp.State()) && |d| > 0 && fp.fptr + |d| <= 0xFFFF_FFFF
    modifies fs, fs.win, fp`clust, fp`sclust, fp`ch, fp`dirty, fp`sect, fp`fptr, fp`objsize, fp.buf
    ensures fs.Valid() && OwnOnly(fs.g, fp.ch, old(fs.St()), old(fs.fat), fs.St(), fs.fat)
    ensures Grew(old(fs.fat), old(fp.ch), fp.ch) && w <= |d|
    ensures r.Going? || r.NoSpace? ==> Open(fs, fp) && AtRest(fs.g, fp.State()) && fp.fptr == old(fp.fptr) + w
    ensures r.Going? || r.NoSpace? ==>
      FileBytesOf(fs, fp) == Overwrite(old(FileBytesOf(fs, fp)), old(fp.fptr), d[..w])
      && Kept(old(fs.fat), old(fs.freeClst), fs.fat, fs.freeClst)
    ensures r.Going? ==> w > 0
    ensures !r.Failed? ==> BufferMoved(fs.g, fp.ch, old(fp.sect), fp.sect)
    ensures r.Failed? ==> r.code == FrDiskErr || (r.code == FrIntErr && HasReserved(old(fs.fat)))
    ensures r == Failed(FrDiskErr) ==> Faulted(old(fs.medium), fs.medium)
    ensures r.Failed? ==> w == 0 && fp.fptr == old(fp.fptr)
    ensures r.Failed? && LastWhole(fs.g, fp.ch) ==>
      Storable(fs, fp) && Spared(old(FileBytesOf(fs, fp)), StorableBytes(fs, fp), old(fp.fptr), |d|)
    ensures r.NoSpace? ==>
      w == 0 && AtCapacity(fs.g, fp.State()) && (CountKnown(fs.fat, fs.freeClst) ==> Full(fs.fat))
    ensures StaysSafe(old(fs.log), fs.log, r != Failed(FrDiskErr))
    ensures Traced(old(fp.ch), old(fs.fat), old(fs.log), fp.ch, fs.fat, fs.log, !r.Failed?)
    ensures Onward(old(fs.medium), fs.medium)
  {
    hide Fatfs.Valid, Idx, Off, Sect, SectorOf, Geometry.WellFormed, Capacity, IsChain, GoodChain, Layout,
         SameSectors, WinState.Logical, OwnOnly, InFile, Grew, Full, CountKnown, IsForest, CrashSafe, Content,
         Overwrite, AtCapacity, Traced;
    ghost var a, f, fata := fs.St(), fp.State(), fs.fat;
    TracedSelf(fp.ch, fs.fat, fs.log, true);
    OwnOnlySelf(fs.g, fp.ch, a, fs.fat);
    GrewSelf(fs.fat, fp.ch);
    w := 0;
    r := Going;
    var sect := fp.sect;
    if fp.fptr % 512 == 0 {
      r, sect := EnterSector(fs, fp);
      if r.Failed? {
        if LastWhole(fs.g, fp.ch) { FailedSame(fs, fp, a.disk, f, |d|); }
        return;
      }
      SameContent(fs.g, a.disk, f, fs.disk, fp.State());
      if r.NoSpace? {
        OverwriteNothing(FileBytesOf(fs, fp), fp.fptr, d);
        return;
      }
      TracedAnyway(old(fp.ch), fata, old(fs.log), fp.ch, fs.fat, fs.log);
      ghost var b, fatb := fs.St(), fs.fat;
      if |d| / 512 > 0 {
        var ok;
        ok, w := WriteDirect(fs, fp, d, sect);
        OwnOnlyTrans(fs.g, fp.ch, fp.ch, a, fata, b, fatb, fs.St(), fs.fat);
        if !ok { r, w := Failed(FrDiskErr), 0; }
        return;
      }
      if fp.sect != sect && fp.fptr < fp.objsize {
        ghost var f1 := fp.State();
        var ok := LoadSector(fs, fp, sect);
        if !ok { return Failed(FrDiskErr), 0; }
        SameContent(fs.g, fs.disk, f1, fs.disk, fp.State());
      }
    }
    if fp.fptr % 512 != 0 { SamePrevSector(fp.fptr); }
    w := WritePartial(fs, fp, d, sect);
    OpenReadable(fs, fp);
  }

  lemma FailedSame(fs: Fatfs, fp: Fil, d0: seq<Sector>, f0: FileState, n: nat)
    requires Open(fs, fp) && SameSectors(fs.g, d0, f0, fs.disk, fp.State())
    requires f0.objsize == fp.objsize <= Capacity(fs.g, f0.ch)
    ensures Storable(fs, fp) && Readable(fs.g, d0, f0)
    ensures Spared(Content(fs.g, d0, f0), StorableBytes(fs, fp), f0.fptr, n)
  {
    hide Fatfs.Valid, Core, Content, Capacity;
    OpenStorable(fs, fp);
    SameContent(fs.g, d0, f0, fs.disk, fp.State());
  }

  lemma SamePrevSector(p: nat)
    requires p % 512 != 0
    ensures p > 0 && (p - 1) / 512 == p / 512
  {
  }

  lemma OverwriteNothing(c: seq<byte>, pos: nat, d: seq<byte>)
    requires pos <= |c|
    ensures Overwrite(c, pos, d[..0]) == c
  {
  }

  /** The loop of f_write, for as many bytes as the file can take below 4 GiB. */
  method WriteLoop(fs: Fatfs, fp: Fil, data: seq<byte>) returns (res: FResult, bw: nat)
    requires Open(fs, fp) && AtRest(fs.g, fp.State()) && fp.fptr + |data| <= 0xFFFF_FFFF
    modifies fs, fs.win, fp`clust, fp`sclust, fp`ch, fp`dirty, fp`sect, fp`fptr, fp`objsize, fp.buf
    ensures fs.Valid() && OwnOnly(fs.g, fp.ch, old(fs.St()), old(fs.fat), fs.St(), fs.fat)
    ensures Grew(old(fs.fat), old(fp.ch), fp.ch)
    ensures bw <= |data| && fp.fptr == old(fp.fptr) + bw && old(fp.fptr) <= |old(FileBytesOf(fs, fp))|
    ensures res == FrOk ==> Open(fs, fp) && AtRest(fs.g, fp.State())
    ensures res == FrOk ==> FileBytesOf(fs, fp) == Overwrite(old(FileBytesOf(fs, fp)), old(fp.fptr), data[..bw])
    ensures res == FrOk ==> BufferMoved(fs.g, fp.ch, old(fp.sect), fp.sect)
    ensures res == FrOk && bw < |data| ==>
      AtCapacity(fs.g, fp.State()) && (CountKnown(old(fs.fat), old(fs.freeClst)) ==> Full(fs.fat))
    ensures res == FrOk ==> Kept(old(fs.fat), old(fs.freeClst), fs.fat, fs.freeClst)
    ensures res == FrOk || res == FrDiskErr || (res == FrIntErr && HasReserved(old(fs.fat)))
    ensures res == FrDiskErr ==> Faulted(old(fs.medium), fs.medium)
    ensures res != FrOk && LastWhole(fs.g, fp.ch) ==> Storable(fs, fp)
    ensures res != FrOk && LastWhole(fs.g, fp.ch) ==>
      Spared(Overwrite(old(FileBytesOf(fs, fp)), old(fp.fptr), data[..bw]), StorableBytes(fs, fp), fp.fptr, |data| - bw)
    ensures StaysSafe(old(fs.log), fs.log, res != FrDiskErr)
    ensures Traced(old(fp.ch), old(fs.fat), old(fs.log), fp.ch, fs.fat, fs.log, res == FrOk)
    ensures Onward(old(fs.medium), fs.medium)
  {
    hide Fatfs.Valid, Idx, Off, Sect, SectorOf, Geometry.WellFormed, Capacity, IsChain, GoodChain, Layout,
         WinState.Logical, OwnOnly, InFile, Grew, Full, CountKnown, IsForest, CrashSafe, Content, Overwrite, AtRest,
         Core, Unbuffered, Spared, LastWhole, BufferMoved, AtCapacity, Traced;
    ghost var a, fata := fs.St(), fs.fat;
    TracedSelf(fp.ch, fs.fat, fs.log, true);
    OwnOnlySelf(fs.g, fp.ch, a, fs.fat);
    BufferMovedSelf(fs.g, fp.ch, fp.sect);
    GrewSelf(fs.fat, fp.ch);
    CoreSize(fs, fp);
    ghost var c0, p0 := FileBytesOf(fs, fp), fp.fptr;
    OverwriteNothing(c0, p0, data);
    bw := 0;
    while bw < |data|
      invariant bw <= |data| && p0 <= |c0|
      invariant Open(fs, fp) && AtRest(fs.g, fp.State()) && fp.fptr == p0 + bw
      invariant FileBytesOf(fs, fp) == Overwrite(c0, p0, data[..bw])
      invariant OwnOnly(fs.g, fp.ch, a, fata, fs.St(), fs.fat) && Grew(old(fs.fat), old(fp.ch), fp.ch)
      invariant BufferMoved(fs.g, fp.ch, old(fp.sect), fp.sect)
      invariant Kept(old(fs.fat), old(fs.freeClst), fs.fat, fs.freeClst)
      invariant StaysSafe(old(fs.log), fs.log, true)
      invariant Traced(old(fp.ch), fata, old(fs.log), fp.ch, fs.fat, fs.log, true)
      invariant Onward(old(fs.medium), fs.medium)
      decreases |data| - bw
    {
      ghost var b, fatb, logb, ch0, sect0 := fs.St(), fs.fat, fs.log, fp.ch, fp.sect;
      var r, w := WriteRound(fs, fp, data[bw..]);
      GrewPrefix(fatb, ch0, fp.ch);
      TracedTrans(fs.g, old(fp.ch), a, fata, old(fs.log), ch0, b, fatb, logb, fp.ch, fs.fat, fs.log, !r.Failed?);
      OwnOnlyTrans(fs.g, ch0, fp.ch, a, fata, b, fatb, fs.St(), fs.fat) by { GrewPrefix(fatb, ch0, fp.ch); }
      GrewTrans(fs.g, fata, old(fp.ch), a, ch0, b, fatb, fp.ch);
      if r.Failed? { return r.code, bw; }
      BufferMovedTrans(fs.g, ch0, fp.ch, old(fp.sect), sect0, fp.sect) by { GrewPrefix(fatb, ch0, fp.ch); }
      OverwriteTwice(c0, p0, data[..bw], data[bw..][..w]);
      assert data[..bw] + data[bw..][..w] == data[..bw + w];
      bw := bw + w;
      if r.NoSpace? { break; }
    }
    res := FrOk;
  }

  /** f_write. On FR_OK the first `bw` bytes of `data` were put into the file at fptr and nothing else changed in
      it; `bw` falls short of the request only at the 4 GiB limit, or behind the last cluster of the file when no other
      one is free. When it fails the first `bw` bytes are in all the same, and of the others only those it was asked to
      write may be damaged - unless the link behind the last cluster may have been torn. */
  method FWrite(fs: Fatfs, fp: Fil, data: seq<byte>) returns (res: FResult, bw: nat)
    requires fs.g.fsType != ExFat && |data| <= 0xFFFF_FFFF
    requires fp.err == FrOk ==> Open(fs, fp) && AtRest(fs.g, fp.State())
    modifies fs, fs.win, fp, fp.buf
    ensures old(fp.err) != FrOk ==> res == old(fp.err) && bw == 0
    ensures old(fp.err) == FrOk && !fp.canWrite ==> res == FrDenied && bw == 0
    ensures old(fp.err) == FrOk ==> fs.Valid() && OwnOnly(fs.g, fp.ch, old(fs.St()), old(fs.fat), fs.St(), fs.fat)
    ensures old(fp.err) == FrOk ==> Grew(old(fs.fat), old(fp.ch), fp.ch)
    ensures old(fp.err) == FrOk ==> bw <= |data| && (fp.err != FrOk <==> res != FrOk && fp.canWrite)
    ensures res == FrOk ==> Open(fs, fp) && AtRest(fs.g, fp.State()) && fp.modified && fp.fptr == old(fp.fptr) + bw
    ensures res == FrOk ==> FileBytesOf(fs, fp) == Overwrite(old(FileBytesOf(fs, fp)), old(fp.fptr), data[..bw])
    ensures res == FrOk ==> BufferMoved(fs.g, fp.ch, old(fp.sect), fp.sect)
    // a write that fails does not mark the file as changed, whatever it has written
    ensures res != FrOk ==> fp.modified == old(fp.modified)
    // short of the request: at 4 GiB - 1, or behind the last cluster of the file with no other one free
    ensures (res == FrOk && bw < |data| && bw != 0xFFFF_FFFF - old(fp.fptr)) ==>
      AtCapacity(fs.g, fp.State()) && (CountKnown(old(fs.fat), old(fs.freeClst)) ==> Full(fs.fat))
    ensures res == FrOk ==> Kept(old(fs.fat), old(fs.freeClst), fs.fat, fs.freeClst)
    // the only failures are those of the device, unless the FAT holds the reserved value 1
    ensures old(fp.err) == FrOk && res == FrDiskErr ==> Faulted(old(fs.medium), fs.medium)
    ensures res != FrOk ==>
      || res == old(fp.err) || (res == FrDenied && !fp.canWrite) || res == FrDiskErr
      || (res == FrIntErr && HasReserved(old(fs.fat)))
    ensures old(fp.err) == FrOk ==> old(fp.fptr) <= |old(FileBytesOf(fs, fp))|
    ensures old(fp.err) == FrOk && fp.err != FrOk && LastWhole(fs.g, fp.ch) ==> Storable(fs, fp)
    ensures old(fp.err) == FrOk && fp.err != FrOk && LastWhole(fs.g, fp.ch) ==>
      Spared(Overwrite(old(FileBytesOf(fs, fp)), old(fp.fptr), data[..bw]), StorableBytes(fs, fp), fp.fptr, |data| - bw)
    ensures StaysSafe(old(fs.log), fs.log, res != FrDiskErr || old(fp.err) != FrOk)
    ensures Traced(old(fp.ch), old(fs.fat), old(fs.log), fp.ch, fs.fat, fs.log, res == FrOk)
    ensures old(fp.err) == FrOk ==> Onward(old(fs.medium), fs.medium)
  {
    hide Fatfs.Valid, OwnOnly, Grew, Full, CountKnown, CrashSafe, Content, Overwrite, AtRest, Core, Spared,
         Unbuffered, AtCapacity, Traced;
    TracedSelf(fp.ch, fs.fat, fs.log, false);
    bw := 0;
    if fp.err != FrOk { return fp.err, 0; }
    OwnOnlySelf(fs.g, fp.ch, fs.St(), fs.fat);
    GrewSelf(fs.fat, fp.ch);
    CoreSize(fs, fp);
    if !fp.canWrite { return FrDenied, 0; }
    var btw := |data|;
    if (fp.fptr + btw) % 0x1_0000_0000 < fp.fptr { btw := 0xFFFF_FFFF - fp.fptr; }
    res, bw := WriteLoop(fs, fp, data[..btw]);
    assert data[..btw][..bw] == data[..bw];
    if res != FrOk {
      fp.err := res;
      if LastWhole(fs.g, fp.ch) {
        SparedMore(Overwrite(old(FileBytesOf(fs, fp)), old(fp.fptr), data[..bw]), StorableBytes(fs, fp), fp.fptr,
                   btw - bw, |data| - bw);
      }
      return;
    }
    fp.modified := true;
  }

  lemma SparedMore(c0: seq<byte>, c1: seq<byte>, pos: nat, n: nat, m: nat)
    requires Spared(c0, c1, pos, n) && n <= m
    ensures Spared(c0, c1, pos, m)
  {
  }

  lemma CoreSize(fs: Fatfs, fp: Fil)
    requires Open(fs, fp)
    ensures fp.fptr <= fp.objsize <= 0xFFFF_FFFF && |FileBytesOf(fs, fp)| == fp.objsize
  {
  }
}
