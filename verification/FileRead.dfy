/** f_read on FAT12/16/32. */
module FileRead {
  import opened Bytes
  import opened Volume
  import opened Window
  import opened FatAccess
  import opened Forest
  import opened Chains
  import opened FileBytes
  import opened FileSteps
  import opened FatFile

  /** Any sector content. */
  method Unspecified() returns (s: seq<byte>)
    ensures |s| == 512
  {
    s := *;
    if |s| != 512 { s := seq(512, _ => 0); }
  }

  /** disk_read of several sectors into a caller's buffer: `got` arrives at `buff[o..]`. */
  method DiskReadMany(fs: Fatfs, buff: array<byte>, o: nat, sect: nat, cc: nat) returns (ok: bool, ghost got: seq<byte>)
    requires o + 512 * cc <= buff.Length && sect + cc <= |fs.disk|
    modifies buff, fs`medium
    ensures |got| == 512 * cc && buff[..] == Patch(old(buff[..]), o, got)
    ensures ok ==> forall j :: 0 <= j < cc ==> Slice(got, j) == fs.disk[sect + j]
    ensures fs.medium == old(fs.medium).After(ok)
    ensures old(fs.Valid()) && buff != fs.win ==> fs.Valid()
  {
    hide Fatfs.Valid, Patch, Slice;
    ok := *;
    Note(fs, fs.medium.After(ok));
    got := [];
    PatchNothing(buff[..], o);
    var i := 0;
    while i < cc
      invariant 0 <= i <= cc && |got| == 512 * i && buff[..] == Patch(old(buff[..]), o, got)
      invariant fs.medium == old(fs.medium).After(ok) && (old(fs.Valid()) && buff != fs.win ==> fs.Valid())
      invariant ok ==> forall j :: 0 <= j < i ==> Slice(got, j) == fs.disk[sect + j]
    {
      var data := Unspecified();
      if ok { data := fs.disk[sect + i]; }
      CopyInto(buff, o + 512 * i, data);
      PatchNext(old(buff[..]), o, got, data);
      SliceAppend(got, data, i);
      got := got + data;
      i := i + 1;
    }
  }

  lemma PatchNothing(b: seq<byte>, o: nat)
    requires o <= |b|
    ensures Patch(b, o, []) == b
  {
  }

  lemma PatchNext(b: seq<byte>, o: nat, d: seq<byte>, e: seq<byte>)
    requires o + |d| + |e| <= |b|
    ensures Patch(Patch(b, o, d), o + |d|, e) == Patch(b, o, d + e)
  {
  }

  lemma PatchInside(b: seq<byte>, o: nat, d: seq<byte>, m: nat, e: seq<byte>)
    requires o + |d| <= |b| && m + |e| <= |d|
    ensures Patch(Patch(b, o, d), o + m, e) == Patch(b, o, Patch(d, m, e))
  {
  }

  lemma SliceAppend(got: seq<byte>, data: seq<byte>, i: nat)
    requires |got| == 512 * i && |data| == 512
    ensures Slice(got + data, i) == data
    ensures forall j :: 0 <= j < i ==> Slice(got + data, j) == Slice(got, j)
  {
  }

  /** f_read at a sector boundary: find fptr's cluster (following the FAT at a cluster boundary) and sector. */
  method LocateForRead(fs: Fatfs, fp: Fil) returns (r: Round, sect: u32)
    requires Open(fs, fp) && AtRest(fs.g, fp.State()) && fp.fptr % 512 == 0 && fp.fptr < fp.objsize
    modifies fs`disk, fs`wflag, fs`medium, fs`winsect, fs.win, fp`clust
    ensures fs.Valid() && OwnOnly(fs.g, fp.ch, old(fs.St()), fs.fat, fs.St(), fs.fat)
    ensures r.Going? || r == Failed(FrDiskErr)
    ensures r.Failed? ==> Faulted(old(fs.medium), fs.medium)
    ensures r.Going? ==> Refreshed(old(fs.medium), fs.medium, |fs.log|)
    ensures Open(fs, fp) && SameSectors(fs.g, old(fs.disk), old(fp.State()), fs.disk, fp.State())
    ensures r.Going? ==>
      Idx(fs.g, fp.fptr / 512) < |fp.ch| && fp.clust as nat == fp.ch[Idx(fs.g, fp.fptr / 512)]
      && sect as int == SectorOf(fs.g, fp.ch, fp.fptr / 512)
    ensures Onward(old(fs.medium), fs.medium)
  {
    hide Fatfs.Valid, Idx, Off, Sect, SectorOf, Geometry.WellFormed, Capacity, IsChain, GoodChain, Layout,
         SameSectors, WinState.Logical, OwnOnly, InFile, ClstToSect, FatOnly;
    ghost var a, f := fs.St(), fp.State();
    ghost var i: nat := Idx(fs.g, fp.fptr / 512);
    FatOnlyOwnSelf(fs, fp);
    SameSectorsSelf(fs.g, a.disk, f);
    ByteIndex(fs.g, fp.ch, fp.fptr);
    FirstIndex(fs.g);
    ValidBasics(fs);
    MediumBound(fs.g, |fs.disk|);
    if fp.fptr > 0 { NextCluster(fs.g, fp.fptr / 512); }
    sect := 0;
    r := Going;
    var csect: nat := Off(fs.g, fp.fptr / 512);
    if csect == 0 {
      var clst: u32;
      if fp.fptr == 0 {
        clst := fp.sclust;
      } else {
        clst := GetFat(fs, fp.clust);
        FatOnlyOwn(fs.g, fp.ch, a, fs.fat, fs.St(), fs.fat);
        FatStep(fs.g, fs.fat, a, fs.fat, fs.St(), f);
      }
      ChainStep(fs.fat, fp.ch, if fp.fptr == 0 then 0 else i - 1);
      if clst < 2 { r := Failed(FrIntErr); return; }
      if clst == DISK_ERROR { return Failed(FrDiskErr), sect; }
      ClustOnly(fs.g, fs.fat, fs.St(), a.disk, f, f, clst);
      fp.clust := clst;
    }
    var top := ClstToSect(fs.g, fp.clust);
    ClstToSectIs(fs.g, |fs.disk|, fp.ch, fp.clust, fp.fptr / 512);
    if top == 0 { r := Failed(FrIntErr); return; }
    sect := top + csect;
  }

  /** What the direct branch of f_read delivers is the file's own sectors, dirty buffer included. */
  lemma ReadDirectBytes(g: Geometry, disk: seq<Sector>, f: FileState, cc: nat, got: seq<byte>)
    requires Readable(g, disk, f) && f.objsize <= Capacity(g, f.ch) && |got| == 512 * cc && cc > 0
    requires f.fptr % 512 == 0 && f.fptr + 512 * cc <= f.objsize
    requires Idx(g, f.fptr / 512) < |f.ch| && Off(g, f.fptr / 512) + cc <= g.csize
    requires var s0 := SectorOf(g, f.ch, f.fptr / 512);
      0 <= s0 && s0 + cc <= |disk| && forall j :: 0 <= j < cc ==>
        Slice(got, j) == if f.dirty && f.sect as int == s0 + j then f.buf else disk[s0 + j]
    ensures got == Content(g, disk, f)[f.fptr..f.fptr + 512 * cc]
  {
    hide Idx, Off, SectorOf, Geometry.WellFormed, Capacity, GoodChain, Layout, Content;
    var k0 := f.fptr / 512;
    var c := Content(g, disk, f);
    forall q | 0 <= q < 512 * cc
      ensures got[q] == c[f.fptr + q]
    {
      var j := q / 512;
      assert Slice(got, j)[q % 512] == got[q];
      SectorOfNext(g, f.ch, k0, j);
      assert (f.fptr + q) / 512 == k0 + j && (f.fptr + q) % 512 == q % 512;
      ByteIndex(g, f.ch, f.fptr + q);
    }
  }

  /** What the buffered branch delivers. */
  lemma ReadPartialBytes(g: Geometry, disk: seq<Sector>, f: FileState, n: nat)
    requires Readable(g, disk, f) && f.objsize <= Capacity(g, f.ch) && 0 < n && f.fptr + n <= f.objsize
    requires f.fptr % 512 + n <= 512 && Idx(g, f.fptr / 512) < |f.ch|
    requires f.sect as int == SectorOf(g, f.ch, f.fptr / 512)
    requires !f.dirty ==> f.sect < |disk| && disk[f.sect] == f.buf
    ensures f.buf[f.fptr % 512..f.fptr % 512 + n] == Content(g, disk, f)[f.fptr..f.fptr + n]
  {
    hide Idx, Off, SectorOf, Geometry.WellFormed, GoodChain, Layout, Capacity, Content, ByteAt;
    var c := Content(g, disk, f);
    var o := f.fptr % 512;
    var x, y := f.buf[o..o + n], c[f.fptr..f.fptr + n];
    forall q | 0 <= q < n
      ensures x[q] == y[q]
    {
      var p := f.fptr + q;
      ByteIs(g, disk, f, p);
      SameSectorOffset(p, f.fptr, n);
      assert p / 512 == f.fptr / 512 && p % 512 == o + q;
    }
  }

  /** f_read, the branch that transfers whole sectors directly to `buff[o..]`. */
  method ReadDirect(fs: Fatfs, fp: Fil, buff: array<byte>, o: nat, btr: nat, sect: u32) returns (ok: bool, n: nat)
    requires Open(fs, fp) && buff != fs.win && buff != fp.buf && o + btr <= buff.Length
    requires fp.fptr % 512 == 0 && 512 <= btr && fp.fptr + btr <= fp.objsize
    requires Idx(fs.g, fp.fptr / 512) < |fp.ch| && sect as int == SectorOf(fs.g, fp.ch, fp.fptr / 512)
    modifies buff, fs`medium
    ensures Open(fs, fp) && fs.medium == old(fs.medium).After(ok)
    ensures 0 < n <= btr && n % 512 == 0 && Idx(fs.g, (fp.fptr + n - 1) / 512) == Idx(fs.g, fp.fptr / 512)
    ensures ok ==> buff[..] == Patch(old(buff[..]), o, FileBytesOf(fs, fp)[fp.fptr..fp.fptr + n])
    ensures buff[..o] == old(buff[..o])
  {
    hide Fatfs.Valid, Idx, Off, Sect, SectorOf, Geometry.WellFormed, Capacity, IsChain, GoodChain, Layout,
         WinState.Logical, Content, InFile, Patch, Slice, Core, Readable;
    ghost var f := fp.State();
    OpenReadable(fs, fp);
    var csect: nat := Off(fs.g, fp.fptr / 512);
    OffRange(fs.g, fp.fptr / 512);
    var cc: nat := btr / 512;
    if csect + cc > fs.g.csize { cc := fs.g.csize - csect; }
    n := 512 * cc;
    OwnRun(fs.g, fs.disk, f, fp.fptr / 512, cc);
    SectorOfNext(fs.g, fp.ch, fp.fptr / 512, cc - 1);
    assert (fp.fptr + n - 1) / 512 == fp.fptr / 512 + (cc - 1);
    ghost var got;
    ok, got := DiskReadMany(fs, buff, o, sect, cc);
    if !ok { return; }
    AmongSectors(fp.sect, sect, cc);
    if fp.dirty && Sub32(fp.sect, sect) < cc {
      var m: nat := Sub32(fp.sect, sect);
      CopyInto(buff, o + 512 * m, fp.buf[..]);
      PatchInside(old(buff[..]), o, got, 512 * m, fp.buf[..]);
      PatchedSlices(got, Patch(got, 512 * m, fp.buf[..]), m, fp.buf[..], cc);
      got := Patch(got, 512 * m, fp.buf[..]);
    }
    assert buff[..] == Patch(old(buff[..]), o, got);
    assert FileBytesOf(fs, fp) == Content(fs.g, fs.disk, f);
    ReadDirectBytes(fs.g, fs.disk, f, cc, got);
  }

  /** A whole sector copied over slice `m` changes that slice only. */
  lemma PatchedSlices(a: seq<byte>, b: seq<byte>, m: nat, d: seq<byte>, cc: nat)
    requires |a| == 512 * cc && |d| == 512 && m < cc && b == Patch(a, 512 * m, d)
    ensures forall j :: 0 <= j < cc ==> Slice(b, j) == if j == m then d else Slice(a, j)
  {
  }

  /** fptr moved over bytes that were read. */
  lemma SkipCore(g: Geometry, fat: seq<nat>, st: WinState, f: FileState, n: nat)
    requires Core(g, fat, st, f) && n > 0 && f.fptr + n <= f.objsize
    requires Idx(g, (f.fptr + n - 1) / 512) < |f.ch| && f.clust as nat == f.ch[Idx(g, (f.fptr + n - 1) / 512)]
    requires (f.fptr + n) % 512 != 0 ==>
      Idx(g, (f.fptr + n) / 512) < |f.ch| && f.sect as int == SectorOf(g, f.ch, (f.fptr + n) / 512)
    ensures var f1 := f.(fptr := f.fptr + n);
      Core(g, fat, st, f1) && AtRest(g, f1) && Content(g, st.disk, f1) == Content(g, st.disk, f)
  {
    hide Idx, Off, SectorOf, Geometry.WellFormed, Capacity, GoodChain, Layout, InFile, IsChain;
    var f1 := f.(fptr := f.fptr + n);
    forall p | 0 <= p < f.objsize
      ensures ByteAt(g, st.disk, f1, p) == ByteAt(g, st.disk, f, p)
    {
    }
    assert Content(g, st.disk, f1) == Content(g, st.disk, f);
  }

  /** f_read at a sector boundary, the buffered branch: make the buffer show fptr's sector. */
  method FillForRead(fs: Fatfs, fp: Fil, sect: u32) returns (ok: bool)
    requires Open(fs, fp) && Idx(fs.g, fp.fptr / 512) < |fp.ch|
    requires sect as int == SectorOf(fs.g, fp.ch, fp.fptr / 512)
    modifies fs`disk, fs`medium, fp`dirty, fp`sect, fp.buf
    ensures Onward(old(fs.medium), fs.medium) && Refreshed(old(fs.medium), fs.medium, |fs.log|)
    ensures !ok ==> Faulted(old(fs.medium), fs.medium)
    ensures old(fp.sect) == sect ==> ok && fp.State() == old(fp.State()) && fs.St() == old(fs.St())
    ensures fs.Valid() && OwnOnly(fs.g, fp.ch, old(fs.St()), fs.fat, fs.St(), fs.fat)
    ensures ok ==> Open(fs, fp) && fp.sect == sect && FileBytesOf(fs, fp) == old(FileBytesOf(fs, fp))
    ensures fp.dirty ==> old(fp.dirty)
    ensures !ok ==> Storable(fs, fp) && StorableBytes(fs, fp) == old(FileBytesOf(fs, fp))
  {
    hide Fatfs.Valid, Idx, Off, Sect, SectorOf, Geometry.WellFormed, Capacity, IsChain, GoodChain, Layout,
         SameSectors, WinState.Logical, OwnOnly, InFile, Content;
    ghost var a, f := fs.St(), fp.State();
    OwnOnlySelf(fs.g, fp.ch, a, fs.fat);
    ok := true;
    if fp.sect != sect {
      if fp.dirty {
        ok := FlushBuffer(fs, fp);
        SameContent(fs.g, a.disk, f, fs.disk, fp.State());
        if !ok {
          OpenStorable(fs, fp);
          return;
        }
      }
      ghost var f2 := fp.State();
      ok := LoadSector(fs, fp, sect);
      if ok { SameContent(fs.g, fs.disk, f2, fs.disk, fp.State()); }
    }
  }

  /** fptr moved over `n` bytes that the buffer shows. */
  lemma TakeFromBuffer(fs: Fatfs, fp: Fil, n: nat)
    requires Open(fs, fp) && 0 < n <= 512 - fp.fptr % 512 && fp.fptr + n <= fp.objsize
    requires Idx(fs.g, fp.fptr / 512) < |fp.ch| && fp.clust as nat == fp.ch[Idx(fs.g, fp.fptr / 512)]
    requires fp.sect as int == SectorOf(fs.g, fp.ch, fp.fptr / 512)
    ensures |FileBytesOf(fs, fp)| == fp.objsize
    ensures fp.buf[fp.fptr % 512..fp.fptr % 512 + n] == FileBytesOf(fs, fp)[fp.fptr..fp.fptr + n]
    ensures var f1 := fp.State().(fptr := fp.fptr + n);
      Core(fs.g, fs.fat, fs.St(), f1) && AtRest(fs.g, f1) && Content(fs.g, fs.disk, f1) == FileBytesOf(fs, fp)
  {
    hide Fatfs.Valid, Idx, Off, Sect, SectorOf, Geometry.WellFormed, Capacity, IsChain, GoodChain, Layout,
         WinState.Logical, InFile, Content, AtRest;
    EndInSector(fp.fptr, n);
    DataSector(fs, fp);
    ReadPartialBytes(fs.g, fs.disk, fp.State(), n);
    SkipCore(fs.g, fs.fat, fs.St(), fp.State(), n);
  }

  /** f_read, the branch that takes the bytes from the buffer. */
  method ReadPartial(fs: Fatfs, fp: Fil, buff: array<byte>, o: nat, btr: nat) returns (n: nat)
    requires Open(fs, fp) && buff != fs.win && buff != fp.buf
    requires 0 < btr && fp.fptr + btr <= fp.objsize && o + btr <= buff.Length
    requires Idx(fs.g, fp.fptr / 512) < |fp.ch| && fp.clust as nat == fp.ch[Idx(fs.g, fp.fptr / 512)]
    requires fp.sect as int == SectorOf(fs.g, fp.ch, fp.fptr / 512)
    modifies fp`fptr, buff
    ensures 0 < n <= btr && Open(fs, fp) && AtRest(fs.g, fp.State()) && fp.fptr == old(fp.fptr) + n
    ensures FileBytesOf(fs, fp) == old(FileBytesOf(fs, fp))
    ensures buff[..] == Patch(old(buff[..]), o, FileBytesOf(fs, fp)[old(fp.fptr)..fp.fptr])
  {
    hide Fatfs.Valid, Idx, Off, SectorOf, Content, Patch, Core, AtRest;
    n := 512 - fp.fptr % 512;
    if n > btr { n := btr; }
    TakeFromBuffer(fs, fp, n);
    CopyInto(buff, o, fp.buf[fp.fptr % 512..fp.fptr % 512 + n]);
    fp.fptr := fp.fptr + n;
  }

  /** The direct branch, with fptr moved on. */
  method ReadWhole(fs: Fatfs, fp: Fil, buff: array<byte>, o: nat, btr: nat, sect: u32) returns (ok: bool, n: nat)
    requires Open(fs, fp) && buff != fs.win && buff != fp.buf && o + btr <= buff.Length
    requires fp.fptr % 512 == 0 && 512 <= btr && fp.fptr + btr <= fp.objsize
    requires Idx(fs.g, fp.fptr / 512) < |fp.ch| && fp.clust as nat == fp.ch[Idx(fs.g, fp.fptr / 512)]
    requires sect as int == SectorOf(fs.g, fp.ch, fp.fptr / 512)
    modifies fs`medium, fp`fptr, buff
    ensures fs.medium == old(fs.medium).After(ok)
    ensures 0 < n <= btr && Open(fs, fp) && FileBytesOf(fs, fp) == old(FileBytesOf(fs, fp))
    ensures buff[..o] == old(buff[..o]) && (!ok ==> fp.fptr == old(fp.fptr))
    ensures ok ==> AtRest(fs.g, fp.State()) && fp.fptr == old(fp.fptr) + n
    ensures ok ==> buff[..] == Patch(old(buff[..]), o, FileBytesOf(fs, fp)[old(fp.fptr)..fp.fptr])
  {
    hide Fatfs.Valid, Idx, Off, SectorOf, Content, Patch, Core, AtRest;
    ok, n := ReadDirect(fs, fp, buff, o, btr, sect);
    if !ok { return; }
    SkipCore(fs.g, fs.fat, fs.St(), fp.State(), n);
    fp.fptr := fp.fptr + n;
  }

  /** What reads do besides reading: no write fails, a clean buffer stays clean and shows what it did or the file. */
  ghost predicate ReadEffect(g: Geometry, ch: seq<nat>, n: nat, m0: Medium, s0: u32, d0: bool, m1: Medium, s1: u32,
                             d1: bool)
  {
    Refreshed(m0, m1, n) && BufferMoved(g, ch, s0, s1) && (d1 ==> d0)
  }

  lemma ReadEffectSelf(g: Geometry, ch: seq<nat>, n: nat, m: Medium, s: u32, d: bool)
    ensures ReadEffect(g, ch, n, m, s, d, m, s, d)
  {
  }

  lemma ReadEffectTrans(g: Geometry, ch: seq<nat>, n: nat, m0: Medium, s0: u32, d0: bool, m1: Medium, s1: u32, d1: bool,
                        m2: Medium, s2: u32, d2: bool)
    requires ReadEffect(g, ch, n, m0, s0, d0, m1, s1, d1) && ReadEffect(g, ch, n, m1, s1, d1, m2, s2, d2)
    ensures ReadEffect(g, ch, n, m0, s0, d0, m2, s2, d2)
  {
    hide InFile;
  }

  /** One round of f_read: `n` bytes arrive at `buff[o..]`. */
  method ReadRound(fs: Fatfs, fp: Fil, buff: array<byte>, o: nat, btr: nat) returns (r: Round, n: nat)
    requires Open(fs, fp) && AtRest(fs.g, fp.State()) && buff != fs.win && buff != fp.buf
    requires 0 < btr && fp.fptr + btr <= fp.objsize && o + btr <= buff.Length
    modifies fs`disk, fs`wflag, fs`medium, fs`winsect, fs.win, fp`clust, fp`dirty, fp`sect, fp`fptr, fp.buf, buff
    ensures fs.Valid() && OwnOnly(fs.g, fp.ch, old(fs.St()), fs.fat, fs.St(), fs.fat)
    ensures r.Going? || r == Failed(FrDiskErr)
    ensures r.Going? ==> 0 < n <= btr && Open(fs, fp) && AtRest(fs.g, fp.State()) && fp.fptr == old(fp.fptr) + n
    ensures r.Going? ==> FileBytesOf(fs, fp) == old(FileBytesOf(fs, fp))
    ensures r.Going? ==>
      ReadEffect(fs.g, fp.ch, |fs.log|, old(fs.medium), old(fp.sect), old(fp.dirty), fs.medium, fp.sect, fp.dirty)
    ensures r.Going? ==> buff[..] == Patch(old(buff[..]), o, FileBytesOf(fs, fp)[old(fp.fptr)..fp.fptr])
    ensures r.Failed? ==> Storable(fs, fp) && StorableBytes(fs, fp) == old(FileBytesOf(fs, fp))
    ensures r.Failed? ==> buff[..o] == old(buff[..o]) && fp.fptr == old(fp.fptr)
    ensures r.Failed? ==> Faulted(old(fs.medium), fs.medium)
    ensures Onward(old(fs.medium), fs.medium)
  {
    hide Fatfs.Valid, Idx, Off, Sect, SectorOf, Geometry.WellFormed, Capacity, IsChain, GoodChain, Layout,
         SameSectors, WinState.Logical, OwnOnly, InFile, Content, Patch, Unbuffered, Core;
    ghost var a, f, fat0 := fs.St(), fp.State(), fs.fat;
    OwnOnlySelf(fs.g, fp.ch, a, fs.fat);
    n := 0;
    r := Going;
    if fp.fptr % 512 == 0 {
      var sect;
      CoreSize(fs, fp);
      OpenReadable(fs, fp);
      r, sect := LocateForRead(fs, fp);
      SameContent(fs.g, a.disk, f, fs.disk, fp.State());
      OpenStorable(fs, fp);
      if r.Failed? { return; }
      var ok;
      if btr / 512 > 0 {
        ok, n := ReadWhole(fs, fp, buff, o, btr, sect);
        if !ok {
          OpenStorable(fs, fp);
          r := Failed(FrDiskErr);
        }
        return;
      }
      ghost var b := fs.St();
      ok := FillForRead(fs, fp, sect);
      OwnOnlyTrans(fs.g, fp.ch, fp.ch, a, fat0, b, fat0, fs.St(), fs.fat);
      if !ok { r := Failed(FrDiskErr); return; }
    } else {
      SamePrevSector(fp.fptr);
    }
    SectorInFile(fs.g, fp.ch, fp.fptr / 512);
    n := ReadPartial(fs, fp, buff, o, btr);
  }

  lemma SectorInFile(g: Geometry, ch: seq<nat>, k: nat)
    requires g.csize > 0 && Idx(g, k) < |ch|
    ensures InFile(g, ch, SectorOf(g, ch, k))
  {
  }

  lemma DataSector(fs: Fatfs, fp: Fil)
    requires Open(fs, fp) && Idx(fs.g, fp.fptr / 512) < |fp.ch|
    requires fp.sect as int == SectorOf(fs.g, fp.ch, fp.fptr / 512)
    ensures !fp.dirty ==> fp.sect < |fs.disk| && fs.disk[fp.sect] == fp.buf[..]
  {
    FileSectorFacts(fs.g, fs.disk, fp.State());
  }

  lemma OpenValid(fs: Fatfs, fp: Fil)
    requires Open(fs, fp)
    ensures fs.Valid()
  {
  }

  /** The loop of f_read, `n` bytes being left in the file. */
  method ReadLoop(fs: Fatfs, fp: Fil, buff: array<byte>, n: nat) returns (res: FResult, br: nat)
    requires Open(fs, fp) && AtRest(fs.g, fp.State()) && n <= buff.Length && buff != fs.win && buff != fp.buf
    requires fp.fptr + n <= fp.objsize
    modifies fs`disk, fs`wflag, fs`medium, fs`winsect, fs.win, fp`clust, fp`dirty, fp`sect, fp`fptr, fp.buf, buff
    ensures fs.Valid() && OwnOnly(fs.g, fp.ch, old(fs.St()), fs.fat, fs.St(), fs.fat)
    ensures res == FrOk ==> Open(fs, fp) && AtRest(fs.g, fp.State()) && FileBytesOf(fs, fp) == old(FileBytesOf(fs, fp))
    ensures res == FrOk || res == FrDiskErr
    ensures res == FrOk ==> br == n && fp.fptr == old(fp.fptr) + n
    ensures res == FrOk ==>
      ReadEffect(fs.g, fp.ch, |fs.log|, old(fs.medium), old(fp.sect), old(fp.dirty), fs.medium, fp.sect, fp.dirty)
    ensures res == FrOk ==> buff[..] == Patch(old(buff[..]), 0, FileBytesOf(fs, fp)[old(fp.fptr)..fp.fptr])
    ensures res != FrOk ==> Storable(fs, fp) && StorableBytes(fs, fp) == old(FileBytesOf(fs, fp))
    ensures res != FrOk ==> br <= n && fp.fptr == old(fp.fptr) + br <= |StorableBytes(fs, fp)|
    ensures res != FrOk ==> buff[..br] == StorableBytes(fs, fp)[old(fp.fptr)..fp.fptr]
    ensures res != FrOk ==> Faulted(old(fs.medium), fs.medium)
    ensures Onward(old(fs.medium), fs.medium)
  {
    hide Fatfs.Valid, Idx, Off, Sect, SectorOf, Geometry.WellFormed, Capacity, IsChain, GoodChain, Layout,
         WinState.Logical, OwnOnly, InFile, Content, Patch, AtRest, Core, Unbuffered, ReadEffect,
         Open, Storable, FileBytesOf, StorableBytes, Onward, Faulted;
    br := 0;
    ghost var a, fat0 := fs.St(), fs.fat;
    OwnOnlySelf(fs.g, fp.ch, a, fs.fat);
    CoreSize(fs, fp);
    OpenValid(fs, fp);
    ghost var c0, p0 := FileBytesOf(fs, fp), fp.fptr;
    ghost var m0, s0, d0 := fs.medium, fp.sect, fp.dirty;
    ReadEffectSelf(fs.g, fp.ch, |fs.log|, m0, s0, d0);
    OnwardSelf(m0);
    assert c0[p0..p0] == [];
    PatchNothing(buff[..], 0);
    while br < n
      invariant br <= n && p0 + n <= |c0| && fs.Valid()
      invariant Open(fs, fp) && AtRest(fs.g, fp.State()) && fp.fptr == p0 + br && FileBytesOf(fs, fp) == c0
      invariant |c0| == fp.objsize && buff[..] == Patch(old(buff[..]), 0, c0[p0..p0 + br])
      invariant OwnOnly(fs.g, fp.ch, a, fat0, fs.St(), fs.fat)
      invariant ReadEffect(fs.g, fp.ch, |fs.log|, m0, s0, d0, fs.medium, fp.sect, fp.dirty)
      invariant Onward(m0, fs.medium)
      decreases n - br
    {
      ghost var b, m1, s1, d1 := fs.St(), fs.medium, fp.sect, fp.dirty;
      var r, w := ReadRound(fs, fp, buff, br, n - br);
      OnwardTrans(m0, m1, fs.medium);
      OwnOnlyTrans(fs.g, fp.ch, fp.ch, a, fat0, b, fs.fat, fs.St(), fs.fat);
      if r.Failed? { return r.code, br; }
      ReadEffectTrans(fs.g, fp.ch, |fs.log|, m0, s0, d0, m1, s1, d1, fs.medium, fp.sect, fp.dirty);
      PatchRun(old(buff[..]), c0, p0, br, w);
      br := br + w;
    }
    res := FrOk;
  }

  lemma PatchRun(b: seq<byte>, c: seq<byte>, p: nat, n: nat, w: nat)
    requires p + n + w <= |c| && n + w <= |b|
    ensures Patch(Patch(b, 0, c[p..p + n]), n, c[p + n..p + n + w]) == Patch(b, 0, c[p..p + n + w])
  {
    PatchNext(b, 0, c[p..p + n], c[p + n..p + n + w]);
    assert c[p..p + n] + c[p + n..p + n + w] == c[p..p + n + w];
  }

  /** f_read. On FR_OK the caller's buffer starts with exactly the file's bytes at fptr, as many as were asked for
      and are left in the file; the file itself is as before, also when a read fails. */
  method FRead(fs: Fatfs, fp: Fil, buff: array<byte>, btr: nat) returns (res: FResult, br: nat)
    requires fs.g.fsType != ExFat && btr <= buff.Length && buff != fs.win && buff != fp.buf
    requires fp.err == FrOk ==> Open(fs, fp) && AtRest(fs.g, fp.State())
    modifies fs`disk, fs`wflag, fs`medium, fs`winsect, fs.win,
             fp`clust, fp`dirty, fp`sect, fp`fptr, fp`err, fp.buf, buff
    ensures old(fp.err) != FrOk ==> res == old(fp.err) && br == 0
    ensures old(fp.err) == FrOk && !fp.canRead ==> res == FrDenied && br == 0
    ensures old(fp.err) == FrOk && fp.canRead ==> res == FrOk || res == FrDiskErr
    ensures old(fp.err) == FrOk ==> fs.Valid() && OwnOnly(fs.g, fp.ch, old(fs.St()), fs.fat, fs.St(), fs.fat)
    ensures old(fp.err) == FrOk ==> (fp.err != FrOk <==> res != FrOk && fp.canRead)
    ensures res == FrOk ==> Open(fs, fp) && AtRest(fs.g, fp.State()) && FileBytesOf(fs, fp) == old(FileBytesOf(fs, fp))
    ensures res == FrOk ==> br == (if btr < fp.objsize - old(fp.fptr) then btr else fp.objsize - old(fp.fptr))
    ensures res == FrOk ==> fp.fptr == old(fp.fptr) + br
    ensures res == FrOk ==>
      ReadEffect(fs.g, fp.ch, |fs.log|, old(fs.medium), old(fp.sect), old(fp.dirty), fs.medium, fp.sect, fp.dirty)
    ensures res == FrOk ==> buff[..] == Patch(old(buff[..]), 0, FileBytesOf(fs, fp)[old(fp.fptr)..fp.fptr])
    // it fails only with the device, and has delivered what it counts
    ensures old(fp.err) == FrOk && fp.err != FrOk ==> Faulted(old(fs.medium), fs.medium)
    ensures old(fp.err) == FrOk && fp.err != FrOk ==>
      Storable(fs, fp) && StorableBytes(fs, fp) == old(FileBytesOf(fs, fp))
    ensures old(fp.err) == FrOk && fp.err != FrOk ==>
      br <= btr && fp.fptr == old(fp.fptr) + br <= |StorableBytes(fs, fp)|
      && buff[..br] == StorableBytes(fs, fp)[old(fp.fptr)..fp.fptr]
    ensures old(fp.err) == FrOk ==> Onward(old(fs.medium), fs.medium)
  {
    hide Fatfs.Valid, Content, Patch, AtRest, Core, OwnOnly, Unbuffered;
    br := 0;
    if fp.err != FrOk { return fp.err, 0; }
    OwnOnlySelf(fs.g, fp.ch, fs.St(), fs.fat);
    if !fp.canRead { return FrDenied, 0; }
    CoreSize(fs, fp);
    var n := btr;
    if n > fp.objsize - fp.fptr { n := fp.objsize - fp.fptr; }
    res, br := ReadLoop(fs, fp, buff, n);
    if res != FrOk { fp.err := res; }
  }
}
