/** What work on one file leaves alone: directory entries, other files, and what the medium stores of them. */
module FileKeep {
  import opened Bytes
  import opened Arith
  import opened Volume
  import opened Window
  import opened Forest
  import opened Chains
  import opened FileBytes
  import opened FileSteps
  import opened FatFile
  import opened FileSync

  ghost predicate Disjoint(a: seq<nat>, b: seq<nat>) {
    forall i :: 0 <= i < |a| ==> a[i] !in b
  }

  /** The chain consists of cluster numbers. */
  ghost predicate InRange(g: Geometry, ch: seq<nat>) {
    g.csize > 0 && forall i :: 0 <= i < |ch| ==> 2 <= ch[i] < g.nFatent
  }

  lemma GoodRange(g: Geometry, ch: seq<nat>)
    requires GoodChain(g, ch)
    ensures InRange(g, ch)
  {
  }

  lemma GrownRange(g: Geometry, fat: seq<nat>, ch0: seq<nat>, ch1: seq<nat>)
    requires InRange(g, ch0) && Grew(fat, ch0, ch1) && |fat| == g.nFatent
    ensures InRange(g, ch1)
  {
    forall i | 0 <= i < |ch1|
      ensures 2 <= ch1[i] < g.nFatent
    {
      assert ch1[i] in ch1;
      if ch1[i] in ch0 { var j :| 0 <= j < |ch0| && ch0[j] == ch1[i]; }
    }
  }

  /** Sectors of clusters of one file are none of another file's. */
  lemma OtherSectors(g: Geometry, ch: seq<nat>, other: seq<nat>, s: int)
    requires InRange(g, ch) && InRange(g, other) && Disjoint(other, ch) && InFile(g, other, s)
    ensures !InFile(g, ch, s)
  {
    hide Idx, Off, Sect;
    var k: nat :| Idx(g, k) < |other| && SectorOf(g, other, k) == s;
    forall l: nat | Idx(g, l) < |ch|
      ensures SectorOf(g, ch, l) != s
    {
      OffRange(g, k);
      OffRange(g, l);
      if SectorOf(g, ch, l) == s {
        SectInjective(g, other[Idx(g, k)], Off(g, k), ch[Idx(g, l)], Off(g, l));
      }
    }
  }

  /** A file that grew only by free clusters stays disjoint from a file that was disjoint from it. */
  lemma StillDisjoint(fat: seq<nat>, ch0: seq<nat>, ch1: seq<nat>, other: seq<nat>)
    requires Grew(fat, ch0, ch1) && Disjoint(other, ch0) && (|other| > 0 ==> IsChain(fat, other))
    ensures Disjoint(other, ch1)
  {
    forall i | 0 <= i < |other|
      ensures other[i] !in ch1
    {
      if i + 1 < |other| { ChainNext(fat, other, i); }
    }
  }

  // ---------- where the directory entry is ----------

  /** The entry's sector is between FATs and clusters, or in a used cluster that is none of the file. */
  ghost predicate EntryHome(g: Geometry, nsect: nat, fat: seq<nat>, ch: seq<nat>, sect: u32, o: nat) {
    && EntryPlace(g, nsect, sect, o)
    && (g.fatbase <= sect as int < g.database ||
        exists d, j :: 2 <= d < |fat| && fat[d] != 0 && d !in ch && 0 <= j < g.csize && Sect(g, d, j) == sect as int)
  }

  lemma HomeApart(g: Geometry, nsect: nat, fat: seq<nat>, ch: seq<nat>, sect: u32, o: nat)
    requires EntryHome(g, nsect, fat, ch, sect, o) && InRange(g, ch) && g.WellFormed(nsect) && Layout(g)
    ensures !InFile(g, ch, sect)
  {
    hide Idx, Off, Sect;
    if InFile(g, ch, sect) {
      var k: nat :| Idx(g, k) < |ch| && SectorOf(g, ch, k) == sect as int;
      OffRange(g, k);
      SectRange(g, nsect, ch[Idx(g, k)], Off(g, k));
      var d, j :| 2 <= d < |fat| && fat[d] != 0 && d !in ch && 0 <= j < g.csize && Sect(g, d, j) == sect as int;
      SectInjective(g, ch[Idx(g, k)], Off(g, k), d, j);
    }
  }

  lemma HomeNotBoot(g: Geometry, nsect: nat, fat: seq<nat>, ch: seq<nat>, sect: u32, o: nat)
    requires EntryHome(g, nsect, fat, ch, sect, o) && g.WellFormed(nsect)
    ensures EntryPlace(g, nsect, sect, o) && sect != g.volbase
  {
    hide EntryPlace;
    if !(g.fatbase <= sect as int < g.database) {
      var d, j :| 2 <= d < |fat| && fat[d] != 0 && d !in ch && 0 <= j < g.csize && Sect(g, d, j) == sect as int;
      NonNegProduct(g.csize, d - 2);
    }
  }

  /** It stays there when the file grows by free clusters or gives some up. */
  lemma HomeKept(g: Geometry, nsect: nat, fat0: seq<nat>, ch0: seq<nat>, a: WinState, b: WinState, fat1: seq<nat>,
                 ch1: seq<nat>, own: seq<nat>, sect: u32, o: nat)
    requires EntryHome(g, nsect, fat0, ch0, sect, o) && OwnOnly(g, own, a, fat0, b, fat1)
    requires (own == ch0 && ch1 <= ch0) || (own == ch1 && Grew(fat0, ch0, ch1))
    ensures EntryHome(g, nsect, fat1, ch1, sect, o)
  {
    hide InFile, EntryHome;
    HomeStays(g, nsect, fat0, ch0, fat1, ch1, own, sect, o);
  }

  /** Clusters in use but those of `own` have the entries they had. */
  ghost predicate FatApart(own: seq<nat>, fat0: seq<nat>, fat1: seq<nat>) {
    |fat1| == |fat0| && forall d :: 2 <= d < |fat0| && fat0[d] != 0 && d !in own ==> fat1[d] == fat0[d]
  }

  lemma HomeStays(g: Geometry, nsect: nat, fat0: seq<nat>, ch0: seq<nat>, fat1: seq<nat>, ch1: seq<nat>, own: seq<nat>,
                  sect: u32, o: nat)
    requires EntryHome(g, nsect, fat0, ch0, sect, o) && FatApart(own, fat0, fat1)
    requires (Grew(fat0, ch0, own) || own == ch0) && ch1 <= own
    ensures EntryHome(g, nsect, fat1, ch1, sect, o)
  {
    hide InFile, Sect, EntryPlace;
    if sect as int >= g.database {
      var d, j :| 2 <= d < |fat0| && fat0[d] != 0 && d !in ch0 && 0 <= j < g.csize && Sect(g, d, j) == sect as int;
      assert d !in own && d !in ch1;
      assert fat1[d] == fat0[d];
    }
  }

  /** The file, grown by free clusters, is still not where its entry is. */
  lemma GrownApart(g: Geometry, nsect: nat, fat: seq<nat>, ch: seq<nat>, own: seq<nat>, sect: u32, o: nat)
    requires EntryHome(g, nsect, fat, ch, sect, o) && GoodChain(g, ch) && Grew(fat, ch, own) && |fat| == g.nFatent
    requires g.WellFormed(nsect) && Layout(g)
    ensures EntryPlace(g, nsect, sect, o) && !InFile(g, own, sect)
  {
    hide EntryHome, GoodChain, Geometry.WellFormed, Layout, InFile, Grew;
    GoodRange(g, ch);
    GrownRange(g, fat, ch, own);
    HomeStays(g, nsect, fat, ch, fat, own, own, sect, o);
    HomeApart(g, nsect, fat, own, sect, o);
    HomePlace(g, nsect, fat, own, sect, o);
  }

  lemma HomePlace(g: Geometry, nsect: nat, fat: seq<nat>, ch: seq<nat>, sect: u32, o: nat)
    requires EntryHome(g, nsect, fat, ch, sect, o)
    ensures EntryPlace(g, nsect, sect, o)
  {
    hide EntryPlace;
  }

  // ---------- the footprint of an operation ----------

  /** The volume and one file at a moment. */
  datatype Moment = Moment(st: WinState, fat: seq<nat>, log: seq<LogEntry>, medium: Medium, f: FileState)

  ghost function Snapshot(fs: Fatfs, fp: Fil): Moment
    reads fs, fs.win, fp, fp.buf
  {
    Moment(fs.St(), fs.fat, fs.log, fs.medium, fp.State())
  }

  /** Of the sector at most the entry at `o` is different, and of the entry neither name nor case flags; the attribute
      is the old one, perhaps with the archive bit. The entry is not left pending if it was not before. */
  ghost predicate EntryOnly(a: WinState, b: WinState, sect: u32, o: nat) {
    && sect < |a.disk| == |b.disk| && o + 32 <= 512
    && (forall i :: 0 <= i < 512 && i != o + 11 && !(o + 13 <= i < o + 32) ==>
          b.Logical()[sect][i] == a.Logical()[sect][i])
    && (b.Logical()[sect][o + 11] == a.Logical()[sect][o + 11]
        || b.Logical()[sect][o + 11] == WithArchive(a.Logical()[sect][o + 11]))
    && (!(a.wflag && a.winsect == sect) ==> !(b.wflag && b.winsect == sect))
  }

  /** Sector `s` is neither of the FATs, of FSInfo, of the clusters of `own`, nor `sect`. */
  ghost predicate Apart(g: Geometry, own: seq<nat>, sect: u32, nsect: nat, s: int) {
    0 <= s < nsect && Plain(g, s) && !InFile(g, own, s) && s != sect as int
  }

  /** What an operation on the file with its entry at (sect, o) may have done, successful or not: it wrote FAT copies,
      FSInfo, sectors of clusters of `own`, and the entry's sector; `own` is the file's chain, with clusters that were
      free. `whole` tells that in the entry's sector at most the entry is different. */
  ghost predicate Footprint(g: Geometry, own: seq<nat>, sect: u32, o: nat, b: Moment, c: Moment, whole: bool) {
    && |c.st.disk| == |b.st.disk| && FatApart(own, b.fat, c.fat)
    && Grew(b.fat, b.f.ch, own) && c.f.ch <= own
    && (forall s {:trigger c.st.disk[s]} ::
          Apart(g, own, sect, |b.st.disk|, s) && !(b.st.wflag && s == b.st.winsect) ==> c.st.disk[s] == b.st.disk[s])
    && (forall s {:trigger c.st.Logical()[s]} ::
          Apart(g, own, sect, |b.st.disk|, s) ==> c.st.Logical()[s] == b.st.Logical()[s])
    && (c.st.wflag ==> c.st.winsect == sect || g.InFat1(c.st.winsect) || (b.st.wflag && c.st.winsect == b.st.winsect))
    && LogApart(own, b.fat, b.log, c.log) && Onward(b.medium, c.medium)
    && (whole ==> EntryOnly(b.st, c.st, sect, o))
  }

  /** An operation that does not touch the entry. */
  lemma OwnFootprint(g: Geometry, own: seq<nat>, sect: u32, o: nat, b: Moment, c: Moment)
    requires OwnOnly(g, own, b.st, b.fat, c.st, c.fat) && LogApart(own, b.fat, b.log, c.log)
    requires Onward(b.medium, c.medium) && Grew(b.fat, b.f.ch, own) && c.f.ch <= own
    requires EntryPlace(g, |b.st.disk|, sect, o) && !InFile(g, own, sect)
    ensures Footprint(g, own, sect, o, b, c, true)
  {
    hide InFile, LogApart, Grew;
    assert c.st.Logical()[sect] == b.st.Logical()[sect];
  }

  /** f_sync. */
  lemma SyncFootprint(g: Geometry, sect: u32, o: nat, b: Moment, c: Moment, whole: bool)
    requires SyncOnly(g, b.f.ch, sect, b.st, c.st) && c.fat == b.fat && c.log == b.log && c.f.ch == b.f.ch
    requires Onward(b.medium, c.medium) && (whole ==> EntryOnly(b.st, c.st, sect, o))
    ensures Footprint(g, b.f.ch, sect, o, b, c, whole)
  {
    hide InFile, WinState.Logical, EntryOnly;
    GrewSelf(b.fat, b.f.ch);
    ApartSelf(b.f.ch, b.fat, b.log);
  }

  /** Seen from the rest of the volume: clusters in use that are none of the file stay what they are, sectors between
      FATs and clusters and those of such clusters keep what is in them, and in the entry's sector (if `whole`) at most
      the entry is different. */
  ghost predicate Spares(g: Geometry, sect: u32, o: nat, b: Moment, c: Moment, whole: bool) {
    && |c.fat| == |b.fat| && |c.st.disk| == |b.st.disk|
    && (forall d {:trigger b.fat[d]} ::
          2 <= d < |b.fat| && b.fat[d] != 0 && d !in b.f.ch ==> c.fat[d] == b.fat[d] && d !in c.f.ch)
    && (forall s: u32 {:trigger Foreign(g, b, s)} :: Foreign(g, b, s) ==>
          s < |b.st.disk| && Foreign(g, c, s) && (s != sect ==> c.st.Logical()[s] == b.st.Logical()[s]))
    && (whole ==> EntryOnly(b.st, c.st, sect, o))
  }

  /** A sector of the static root directory, or of a cluster in use that is none of the file. */
  ghost predicate Foreign(g: Geometry, b: Moment, s: u32) {
    EntryHome(g, |b.st.disk|, b.fat, b.f.ch, s, 0)
  }

  lemma SparesSelf(g: Geometry, sect: u32, o: nat, b: Moment)
    requires sect < |b.st.disk| && o + 32 <= 512
    ensures Spares(g, sect, o, b, b, true)
  {
    hide EntryHome, WinState.Logical;
    forall s: u32 | Foreign(g, b, s)
      ensures s < |b.st.disk|
    {
      HomePlace(g, |b.st.disk|, b.fat, b.f.ch, s, 0);
    }
  }

  lemma SparesTrans(g: Geometry, sect: u32, o: nat, a: Moment, b: Moment, c: Moment, whole: bool)
    requires Spares(g, sect, o, a, b, true) && Spares(g, sect, o, b, c, whole)
    ensures Spares(g, sect, o, a, c, whole)
  {
    hide Foreign, WinState.Logical;
    forall d | 2 <= d < |a.fat| && a.fat[d] != 0 && d !in a.f.ch
      ensures c.fat[d] == a.fat[d] && d !in c.f.ch
    {
      assert b.fat[d] == a.fat[d] && d !in b.f.ch;
    }
  }

  lemma FootprintSpares(g: Geometry, own: seq<nat>, sect: u32, o: nat, b: Moment, c: Moment, whole: bool)
    requires Footprint(g, own, sect, o, b, c, whole) && GoodChain(g, b.f.ch) && |b.fat| == g.nFatent
    requires g.WellFormed(|b.st.disk|) && Layout(g)
    ensures Spares(g, sect, o, b, c, whole)
  {
    hide InFile, LogApart, EntryHome, GoodChain, Geometry.WellFormed, Layout, WinState.Logical, EntryOnly, Plain;
    forall s: u32 | Foreign(g, b, s)
      ensures s < |b.st.disk| && Foreign(g, c, s) && (s != sect ==> c.st.Logical()[s] == b.st.Logical()[s])
    {
      GrownApart(g, |b.st.disk|, b.fat, b.f.ch, own, s, 0);
      HomeStays(g, |b.st.disk|, b.fat, b.f.ch, c.fat, c.f.ch, own, s, 0);
      if s != sect { assert Apart(g, own, sect, |b.st.disk|, s); }
    }
  }

  // ---------- what the medium stores of other files ----------

  /** A file as the medium stores it: its entry, its chain, its bytes. */
  datatype Record = Record(sect: u32, ofs: nat, ch: seq<nat>, bytes: seq<byte>)

  /** The part of Stores that does not look at the FAT. */
  ghost predicate OnDisk(g: Geometry, disk: seq<Sector>, r: Record) {
    && g.WellFormed(|disk|) && Layout(g) && GoodChain(g, r.ch) && r.sect < |disk| && r.ofs + 32 <= 512
    && (if r.ch == [] then LdClust(g, disk[r.sect], r.ofs) == 0 else r.ch[0] == LdClust(g, disk[r.sect], r.ofs) != 0)
    && |r.bytes| == LdDword(disk[r.sect], r.ofs + 28) <= Capacity(g, r.ch)
    && forall p :: 0 <= p < |r.bytes| ==>
         && Idx(g, p / 512) < |r.ch| && 0 <= SectorOf(g, r.ch, p / 512) < |disk|
         && r.bytes[p] == disk[SectorOf(g, r.ch, p / 512)][p % 512]
  }

  /** The chain in every state of the FAT the medium may come to show. */
  ghost predicate ChainFrom(log: seq<LogEntry>, at: nat, ch: seq<nat>) {
    at < |log| && (ch != [] ==> forall i :: at <= i < |log| ==> IsChain(log[i].fat, ch))
  }

  /** The file is on the medium and nothing of it is pending: entry and data are there, and every state of the FAT from
      the one the medium shows up to the current one has its chain. */
  ghost predicate Secure(g: Geometry, b: Moment, r: Record) {
    && OnDisk(g, b.st.disk, r) && Plain(g, r.sect)
    && (b.st.wflag ==> b.st.winsect != r.sect && !InFile(g, r.ch, b.st.winsect))
    && ChainFrom(b.log, b.medium.at, r.ch)
  }

  /** Whenever power fails while a file is secure, it is stored - unless the write of a first-FAT sector just failed. */
  lemma SecureStored(fs: Fatfs, fp: Fil, r: Record)
    requires fs.Valid() && Secure(fs.g, Snapshot(fs, fp), r) && !fs.medium.damaged
    ensures fs.medium.at < |fs.log|
    ensures Stores(fs.g, fs.disk, r.sect, r.ofs, fs.log[fs.medium.at].fat, r.ch, r.bytes)
  {
    hide LdClust, LdDword, Capacity, Idx, SectorOf, GoodChain, Layout, Geometry.WellFormed, Fatfs.Valid, InFile, FatOf;
    MediumNow(fs);
  }

  /** A file that was just stored is secure: f_sync leaves the medium with the current FAT, and so does mounting. */
  lemma StoredSecure(g: Geometry, b: Moment, fat: seq<nat>, r: Record)
    requires Stores(g, b.st.disk, r.sect, r.ofs, fat, r.ch, r.bytes) && Plain(g, r.sect) && |b.log| > 0
    requires MediumShows(g, b.st.disk, b.log, b.medium) && b.medium.at == |b.log| - 1 && !b.medium.damaged
    requires b.st.wflag ==> b.st.winsect != r.sect && !InFile(g, r.ch, b.st.winsect)
    ensures Secure(g, b, r)
  {
    hide LdClust, LdDword, Capacity, Idx, SectorOf, GoodChain, Layout, Geometry.WellFormed, InFile, FatOf, IsChain;
    FatOfUnique(g, b.st.disk, fat, b.log[b.medium.at].fat);
  }

  /** f_sync makes an open file, or one a failed call has left, secure. */
  lemma SyncedSecure(fs: Fatfs, fp: Fil)
    requires Storable(fs, fp) && Saved(fs, fp) && EntryApart(fs, fp) && fs.medium.at == |fs.log| - 1
    ensures Secure(fs.g, Snapshot(fs, fp), Record(fp.dirSect, fp.dirOfs, fp.ch, StorableBytes(fs, fp)))
  {
    hide Fatfs.Valid, Stores, Secure, Content, InFile, MediumShows, Readable, Capacity;
    MediumNow(fs);
    StorableWindow(fs, fp);
    var f := Unbuffered(fp.State());
    var fat :| Stores(fs.g, fs.disk, fp.dirSect, fp.dirOfs, fat, f.ch, Content(fs.g, fs.disk, f));
    StoredSecure(fs.g, Snapshot(fs, fp), fat, Record(fp.dirSect, fp.dirOfs, fp.ch, StorableBytes(fs, fp)));
  }

  lemma StorableWindow(fs: Fatfs, fp: Fil)
    requires Storable(fs, fp)
    ensures !InFile(fs.g, fp.ch, fs.winsect)
  {
    hide Fatfs.Valid, InFile, IsChain, Readable, Capacity;
  }

  /** The file the operations are on has nothing in common with the stored one: its clusters, its entry's sector and
      its entry are others, and it keeps away from the directory the stored one's entry is in. */
  ghost predicate Beside(g: Geometry, b: Moment, sect: u32, o: nat, r: Record) {
    && Disjoint(r.ch, b.f.ch) && EntryHome(g, |b.st.disk|, b.fat, b.f.ch, r.sect, r.ofs)
    && !InFile(g, r.ch, sect) && (r.sect == sect ==> r.ofs + 32 <= o || o + 32 <= r.ofs)
  }

  /** An operation on one file, successful or not, keeps every other stored file on the medium, whichever state of the
      FAT the medium shows. The one exception is a failed f_sync, which may spoil the sector both entries are in. */
  lemma SecureKept(g: Geometry, own: seq<nat>, sect: u32, o: nat, b: Moment, c: Moment, whole: bool, r: Record)
    requires Footprint(g, own, sect, o, b, c, whole) && (whole || r.sect != sect)
    requires Secure(g, b, r) && Beside(g, b, sect, o, r)
    requires GoodChain(g, b.f.ch) && |b.fat| == g.nFatent && |b.log| > 0 && b.log[|b.log| - 1].fat == b.fat
    requires c.medium.at < |c.log|
    ensures Secure(g, c, r) && Beside(g, c, sect, o, r)
  {
    hide LdClust, LdDword, Capacity, Idx, Off, SectorOf, GoodChain, Layout, Geometry.WellFormed, InFile, IsChain,
         WinState.Logical, EntryHome, LogApart, Plain, EntryOnly;
    DiskBasics(g, b.st.disk, r);
    GoodRange(g, b.f.ch);
    GrownRange(g, b.fat, b.f.ch, own);
    GoodRange(g, r.ch);
    StillDisjoint(b.fat, b.f.ch, own, r.ch);
    HomeStays(g, |b.st.disk|, b.fat, b.f.ch, b.fat, own, own, r.sect, r.ofs);
    HomeApart(g, |b.st.disk|, b.fat, own, r.sect, r.ofs);
    HomeStays(g, |b.st.disk|, b.fat, b.f.ch, c.fat, c.f.ch, own, r.sect, r.ofs);
    ChainsKept(own, b, c, r.ch);
    WindowKept(g, own, sect, o, b, c, whole, r);
    EntryKept(g, own, sect, o, b, c, whole, r);
    DataKept(g, own, sect, o, b, c, whole, r);
  }

  /** What is stored of other files stays stored; `whole` as in Footprint. */
  ghost predicate KeepsStored(g: Geometry, sect: u32, o: nat, b: Moment, c: Moment, whole: bool) {
    forall r: Record {:trigger Secure(g, b, r)} {:trigger Secure(g, c, r)} ::
      Secure(g, b, r) && Beside(g, b, sect, o, r) && (whole || r.sect != sect) ==>
        Secure(g, c, r) && Beside(g, c, sect, o, r)
  }

  lemma FootprintKeeps(g: Geometry, own: seq<nat>, sect: u32, o: nat, b: Moment, c: Moment, whole: bool)
    requires Footprint(g, own, sect, o, b, c, whole) && GoodChain(g, b.f.ch) && |b.fat| == g.nFatent
    requires |b.log| > 0 && b.log[|b.log| - 1].fat == b.fat && c.medium.at < |c.log|
    ensures KeepsStored(g, sect, o, b, c, whole)
  {
    hide Footprint, GoodChain, Secure, Beside;
    forall r: Record | Secure(g, b, r) && Beside(g, b, sect, o, r) && (whole || r.sect != sect)
      ensures Secure(g, c, r) && Beside(g, c, sect, o, r)
    {
      SecureKept(g, own, sect, o, b, c, whole, r);
    }
  }

  lemma KeepsTrans(g: Geometry, sect: u32, o: nat, a: Moment, b: Moment, c: Moment, whole: bool)
    requires KeepsStored(g, sect, o, a, b, true) && KeepsStored(g, sect, o, b, c, whole)
    ensures KeepsStored(g, sect, o, a, c, whole)
  {
    hide Secure, Beside;
  }

  lemma WindowKept(g: Geometry, own: seq<nat>, sect: u32, o: nat, b: Moment, c: Moment, whole: bool, r: Record)
    requires Footprint(g, own, sect, o, b, c, whole) && (whole || r.sect != sect)
    requires Secure(g, b, r) && !InFile(g, r.ch, sect)
    ensures c.st.wflag ==> c.st.winsect != r.sect && !InFile(g, r.ch, c.st.winsect)
  {
    hide LdClust, LdDword, Capacity, Idx, SectorOf, WinState.Logical, LogApart, ChainFrom, InFile, Geometry.WellFormed;
    DiskBasics(g, b.st.disk, r);
    if c.st.wflag && g.InFat1(c.st.winsect) { FatNotInFile(g, |b.st.disk|, r.ch, c.st.winsect); }
  }

  lemma FatNotInFile(g: Geometry, nsect: nat, ch: seq<nat>, s: int)
    requires g.WellFormed(nsect) && Layout(g) && GoodChain(g, ch) && g.InFats(s)
    ensures !InFile(g, ch, s)
  {
    hide Idx, SectorOf, Geometry.WellFormed, GoodChain, Layout;
    if InFile(g, ch, s) {
      var k: nat :| Idx(g, k) < |ch| && SectorOf(g, ch, k) == s;
      SectorOfRange(g, nsect, ch, k);
    }
  }

  /** Sectors of a file are plain. */
  lemma FilePlain(g: Geometry, nsect: nat, ch: seq<nat>, s: int)
    requires g.WellFormed(nsect) && Layout(g) && GoodChain(g, ch) && InFile(g, ch, s)
    ensures Plain(g, s) && 0 <= s < nsect
  {
    hide Idx, SectorOf, GoodChain, Layout;
    var k: nat :| Idx(g, k) < |ch| && SectorOf(g, ch, k) == s;
    SectorOfRange(g, nsect, ch, k);
  }

  lemma EntryKept(g: Geometry, own: seq<nat>, sect: u32, o: nat, b: Moment, c: Moment, whole: bool, r: Record)
    requires Footprint(g, own, sect, o, b, c, whole) && (whole || r.sect != sect)
    requires Secure(g, b, r) && !InFile(g, own, r.sect)
    requires r.sect == sect ==> r.ofs + 32 <= o || o + 32 <= r.ofs
    ensures r.sect < |c.st.disk| == |b.st.disk| && r.ofs + 32 <= 512
    ensures LdClust(g, c.st.disk[r.sect], r.ofs) == LdClust(g, b.st.disk[r.sect], r.ofs)
    ensures LdDword(c.st.disk[r.sect], r.ofs + 28) == LdDword(b.st.disk[r.sect], r.ofs + 28)
  {
    hide LdClust, LdDword, Capacity, Idx, SectorOf, LogApart, ChainFrom, InFile, Geometry.WellFormed;
    DiskBasics(g, b.st.disk, r);
    if r.sect == sect {
      assert b.st.Logical()[sect] == b.st.disk[sect] && c.st.Logical()[sect] == c.st.disk[sect];
      SameEntry(g, b.st.disk[sect], c.st.disk[sect], r.ofs);
    }
  }

  lemma SameEntry(g: Geometry, s: seq<byte>, t: seq<byte>, o: nat)
    requires |s| == |t| && o + 32 <= |s| && forall i :: o <= i < o + 32 ==> t[i] == s[i]
    ensures LdClust(g, t, o) == LdClust(g, s, o) && LdDword(t, o + 28) == LdDword(s, o + 28)
  {
  }

  lemma DataKept(g: Geometry, own: seq<nat>, sect: u32, o: nat, b: Moment, c: Moment, whole: bool, r: Record)
    requires Footprint(g, own, sect, o, b, c, whole) && Secure(g, b, r) && !InFile(g, r.ch, sect)
    requires InRange(g, own) && Disjoint(r.ch, own)
    ensures forall p :: 0 <= p < |r.bytes| ==>
      && Idx(g, p / 512) < |r.ch| && 0 <= SectorOf(g, r.ch, p / 512) < |c.st.disk|
      && r.bytes[p] == c.st.disk[SectorOf(g, r.ch, p / 512)][p % 512]
  {
    hide LdClust, LdDword, Capacity, Idx, SectorOf, LogApart, ChainFrom, InFile, Geometry.WellFormed, WinState.Logical,
         GoodChain, Layout, Plain;
    DiskBasics(g, b.st.disk, r);
    GoodRange(g, r.ch);
    forall p | 0 <= p < |r.bytes|
      ensures Idx(g, p / 512) < |r.ch| && 0 <= SectorOf(g, r.ch, p / 512) < |c.st.disk|
        && r.bytes[p] == c.st.disk[SectorOf(g, r.ch, p / 512)][p % 512]
    {
      var s := SectorOf(g, r.ch, p / 512);
      SectorInChain(g, r.ch, p / 512);
      FilePlain(g, |b.st.disk|, r.ch, s);
      OtherSectors(g, own, r.ch, s);
    }
  }

  lemma SectorInChain(g: Geometry, ch: seq<nat>, k: nat)
    requires g.csize > 0 && Idx(g, k) < |ch|
    ensures InFile(g, ch, SectorOf(g, ch, k))
  {
    hide Idx, SectorOf;
  }

  lemma DiskBasics(g: Geometry, disk: seq<Sector>, r: Record)
    requires OnDisk(g, disk, r)
    ensures g.WellFormed(|disk|) && Layout(g) && GoodChain(g, r.ch)
  {
    hide LdClust, LdDword, Capacity, Idx, SectorOf, GoodChain, Layout, Geometry.WellFormed;
  }

  lemma ChainsKept(own: seq<nat>, b: Moment, c: Moment, ch: seq<nat>)
    requires LogApart(own, b.fat, b.log, c.log) && Onward(b.medium, c.medium) && c.medium.at < |c.log|
    requires |b.log| > 0 && b.log[|b.log| - 1].fat == b.fat
    requires ChainFrom(b.log, b.medium.at, ch) && Disjoint(ch, own)
    ensures ChainFrom(c.log, c.medium.at, ch)
  {
    hide IsChain;
    if ch != [] {
      assert IsChain(b.fat, ch);
      forall i | c.medium.at <= i < |c.log|
        ensures IsChain(c.log[i].fat, ch)
      {
        if i < |b.log| {
          assert c.log[i] == b.log[i];
        } else {
          EntriesKept(b.fat, ch, c.log[i], own);
        }
      }
    }
  }

  lemma EntriesKept(fat: seq<nat>, ch: seq<nat>, e: LogEntry, own: seq<nat>)
    requires IsChain(fat, ch) && Disjoint(ch, own) && |e.fat| == |fat|
    requires forall d :: 2 <= d < |fat| && fat[d] != 0 && d !in own ==> EntryIs(e, d, fat[d])
    ensures IsChain(e.fat, ch)
  {
    forall i | 0 <= i < |ch|
      ensures e.fat[ch[i]] == fat[ch[i]]
    {
      if i + 1 < |ch| { ChainNext(fat, ch, i); }
      assert EntryIs(e, ch[i], fat[ch[i]]);
    }
  }
}
