/** dir_register on FAT12/16/32: the long-name entries and the short entry of a new object. */
module DirWrite {
  import opened Bytes
  import opened Volume
  import opened Forest
  import opened Chains
  import opened FileBytes
  import opened Names
  import opened NameEntries
  import opened DirTable
  import opened DirStep
  import opened DirSlots

  /** A fresh short entry: name, attribute 0, the case flags, everything else zero. */
  function ShortEntry(fn: seq<byte>, body: bool, ext: bool): Slot
    requires |fn| == 11
  {
    var nt: byte := (if body then 0x08 else 0) + (if ext then 0x10 else 0);
    fn + [0, nt] + seq<byte>(19, _ => 0)
  }

  /** The attribute bits dir_read looks at. */
  function Attr(s: Slot): byte {
    (s[11] as int) % 0x40
  }

  /** A short entry with this name and these case flags. Attribute, times, start cluster and size may be anything that
      makes it neither a volume label nor a long-name entry: f_open, f_sync, f_mkdir and others change them. */
  predicate ShortFor(s: Slot, fn: seq<byte>, body: bool, ext: bool) {
    && s[..11] == fn && BodyLower(s[12]) == body && ExtLower(s[12]) == ext
    && Attr(s) != 0x08 && Attr(s) != 0x28 && Attr(s) != AM_LFN
  }

  lemma FreshIsShort(fn: seq<byte>, body: bool, ext: bool)
    requires |fn| == 11
    ensures ShortFor(ShortEntry(fn, body, ext), fn, body, ext)
  {
  }

  /** Number of long-name entries. */
  function LongEntries(flags: NameFlags, len: nat): nat {
    if flags.lfn then (len + 12) / 13 else 0
  }

  /** Slots a..a+n hold the long-name entries of `name`, last part first, and slot a+n the short entry they belong
      to. */
  ghost predicate Registered(t: seq<Slot>, a: nat, n: nat, name: seq<u16>, fn: seq<byte>, body: bool, ext: bool)
    requires |fn| == 11
  {
    && a + n < |t| && n <= 20
    && (forall j :: a <= j < a + n ==> IsPart(t[j], name, a + n - j, Checksum(fn)))
    && ShortFor(t[a + n], fn, body, ext)
  }

  /** Outside the slots a..k the tables agree. */
  ghost predicate OnlySlots(t: seq<Slot>, u: seq<Slot>, a: nat, k: nat) {
    |u| == |t| && forall j :: 0 <= j < |t| && !(a <= j <= k) ==> u[j] == t[j]
  }

  /** Filling a free run from the left keeps the rule that nothing in use follows an end mark. */
  lemma FilledRunMarked(t: seq<Slot>, u: seq<Slot>, a: nat, m: nat, k: nat)
    requires EndMarked(t) && k < |t| && a <= m <= k + 1 && OnlySlots(t, u, a, k)
    requires forall j :: a <= j <= k ==> FreeSlot(t[j])
    requires a > 0 ==> !FreeSlot(t[a - 1])
    requires forall j :: a <= j < m ==> u[j][0] != 0
    requires forall j :: m <= j <= k ==> u[j] == t[j]
    ensures EndMarked(u)
  {
  }

  // ---------- writing one entry ----------

  /** Writes a long-name entry into the slot under the cursor. */
  method WriteLong(fs: Fatfs, dp: Dir, lfn: array<u16>, ord: nat, sum: byte, ghost name: seq<u16>, ghost k: nat)
    returns (res: FResult)
    requires Opened(fs, dp) && OnSlot(fs.g, dp, k) && HoldsName(lfn[..], name) && 0xFFFF !in name
    requires 1 <= ord <= 20 && (ord - 1) * 13 < |name|
    modifies fs`disk, fs`wflag, fs`medium, fs`winsect, fs.win
    ensures Opened(fs, dp) && (res == FrOk || res == FrDiskErr) && k < |Table(fs, dp)|
    ensures res != FrOk ==> Table(fs, dp) == old(Table(fs, dp))
    ensures res == FrOk ==>
      OnlySlots(old(Table(fs, dp)), Table(fs, dp), k, k) && IsPart(Table(fs, dp)[k], name, ord, sum)
    ensures Onward(old(fs.medium), fs.medium)
    ensures res == FrDiskErr ==> Faulted(old(fs.medium), fs.medium)
  {
    hide FatOf, WinState.Logical, Slots, Geometry.WellFormed, Layout, DirLayout, GoodChain, IsChain, TableSect,
         WinState.Coherent, NumSlots, TableSize, TableOf, InSector, HoldsName, IsPart, MirroredBut, WellLogged,
         LdWord, LfnOfs;
    OpenedBasics(fs, dp);
    OnSlotRange(fs, dp, k);
    res := LoadSlot(fs, dp, k);
    if res != FrOk { return; }
    LoadedSlot(fs, dp, k);
    ghost var a, t := fs.St(), Table(fs, dp);
    PutLfn(lfn, fs.win, dp.dptr % 512, ord, sum, name);
    fs.wflag := true;
    StoreSlot(fs, dp, k, a, t);
  }

  /** The short entry in the window: clean the slot, put name and case flags. */
  method PutShort(win: array<byte>, o: nat, fn: array<byte>, body: bool, ext: bool)
    requires o + 32 <= win.Length && fn.Length == 11 && fn != win
    modifies win
    ensures win[o..o + 32] == ShortEntry(fn[..], body, ext)
    ensures forall k :: 0 <= k < win.Length && !(o <= k < o + 32) ==> win[k] == old(win[k])
  {
    forall i | 0 <= i < 32 { win[o + i] := 0; }
    forall i | 0 <= i < 11 { win[o + i] := fn[i]; }
    win[o + 12] := (if body then 0x08 else 0) + (if ext then 0x10 else 0);
  }

  /** Writes the short entry into the slot under the cursor. */
  method WriteShort(fs: Fatfs, dp: Dir, ghost k: nat) returns (res: FResult)
    requires Opened(fs, dp) && OnSlot(fs.g, dp, k) && dp.fn.Length == 11 && dp.fn != fs.win
    modifies fs`disk, fs`wflag, fs`medium, fs`winsect, fs.win
    ensures Opened(fs, dp) && (res == FrOk || res == FrDiskErr) && k < |Table(fs, dp)|
    ensures res != FrOk ==> Table(fs, dp) == old(Table(fs, dp))
    ensures res == FrOk ==> Table(fs, dp) == old(Table(fs, dp))[k := ShortEntry(dp.fn[..], dp.flags.body, dp.flags.ext)]
    ensures res == FrOk ==> Loaded(fs, dp, k) && fs.wflag
    ensures dp.fn[..] == old(dp.fn[..])
    ensures Onward(old(fs.medium), fs.medium)
    ensures res == FrDiskErr ==> Faulted(old(fs.medium), fs.medium)
  {
    hide FatOf, WinState.Logical, Slots, Geometry.WellFormed, Layout, DirLayout, GoodChain, IsChain, TableSect,
         WinState.Coherent, NumSlots, TableSize, TableOf, InSector, MirroredBut, WellLogged, ShortEntry;
    OpenedBasics(fs, dp);
    OnSlotRange(fs, dp, k);
    res := LoadSlot(fs, dp, k);
    if res != FrOk { return; }
    LoadedSlot(fs, dp, k);
    ghost var a, t := fs.St(), Table(fs, dp);
    PutShort(fs.win, dp.dptr % 512, dp.fn, dp.flags.body, dp.flags.ext);
    fs.wflag := true;
    StoreSlot(fs, dp, k, a, t);
  }

  // ---------- writing all entries ----------

  /** The first `m` long-name entries are written, the rest of the run is as it was. */
  ghost predicate PartsWritten(t0: seq<Slot>, t: seq<Slot>, a: nat, m: nat, n: nat, name: seq<u16>, sum: byte) {
    && m <= n && a + n < |t0| && OnlySlots(t0, t, a, a + n)
    && (forall j :: a <= j < a + m ==> IsPart(t[j], name, a + n - j, sum))
    && (forall j :: a + m <= j <= a + n ==> t[j] == t0[j])
  }

  lemma PartsStart(t: seq<Slot>, a: nat, n: nat, name: seq<u16>, sum: byte)
    requires a + n < |t|
    ensures PartsWritten(t, t, a, 0, n, name, sum)
  {
  }

  lemma PartsNext(t0: seq<Slot>, t: seq<Slot>, u: seq<Slot>, a: nat, m: nat, n: nat, name: seq<u16>, sum: byte)
    requires PartsWritten(t0, t, a, m, n, name, sum) && m < n
    requires OnlySlots(t, u, a + m, a + m) && IsPart(u[a + m], name, n - m, sum)
    ensures PartsWritten(t0, u, a, m + 1, n, name, sum)
  {
    hide IsPart;
    forall j | a <= j < a + m + 1
      ensures IsPart(u[j], name, a + n - j, sum)
    {
      if j < a + m { assert u[j] == t[j]; }
    }
  }

  /** A run reserved by dir_alloc. */
  ghost predicate Reserved(t: seq<Slot>, a: nat, n: nat) {
    a + n < |t| && (forall j :: a <= j <= a + n ==> FreeSlot(t[j])) && (a > 0 ==> !FreeSlot(t[a - 1]))
  }

  lemma PartsMarked(t0: seq<Slot>, t: seq<Slot>, a: nat, m: nat, n: nat, name: seq<u16>, sum: byte)
    requires PartsWritten(t0, t, a, m, n, name, sum) && Reserved(t0, a, n) && EndMarked(t0)
    ensures EndMarked(t)
  {
    FilledRunMarked(t0, t, a, a + m, a + n);
  }

  lemma AllWritten(t0: seq<Slot>, t: seq<Slot>, a: nat, n: nat, name: seq<u16>, fn: seq<byte>, body: bool, ext: bool)
    requires UsableShort(fn) && n <= 20 && PartsWritten(t0, t, a, n, n, name, Checksum(fn)) && Reserved(t0, a, n)
    ensures var u := t[a + n := ShortEntry(fn, body, ext)];
      Registered(u, a, n, name, fn, body, ext) && OnlySlots(t0, u, a, a + n) && (EndMarked(t0) ==> EndMarked(u))
  {
    hide IsPart, Checksum, ShortFor;
    FreshIsShort(fn, body, ext);
    var u := t[a + n := ShortEntry(fn, body, ext)];
    if EndMarked(t0) {
      forall j | a <= j < a + n
        ensures u[j][0] != 0
      {
        PartInUse(t[j], name, a + n - j, Checksum(fn));
      }
      FilledRunMarked(t0, u, a, a + n + 1, a + n);
    }
  }

  lemma PartInUse(s: Slot, name: seq<u16>, ord: nat, sum: byte)
    requires IsPart(s, name, ord, sum)
    ensures s[0] != 0 && s[0] != DDEM
  {
  }

  /** One of them, into slot `a + m`, and the cursor moved on. */
  method WritePart(fs: Fatfs, dp: Dir, lfn: array<u16>, sum: byte, n: nat, ghost a: nat, m: nat, ghost name: seq<u16>,
                   ghost t0: seq<Slot>)
    returns (res: FResult, ghost m1: nat)
    requires Opened(fs, dp) && OnSlot(fs.g, dp, a + m) && m < n <= 20
    requires HoldsName(lfn[..], name) && 0xFFFF !in name && (n - 1) * 13 < |name|
    requires PartsWritten(t0, Table(fs, dp), a, m, n, name, sum)
    modifies fs, fs.win, dp`ch, dp`sect, dp`clust, dp`dptr
    ensures Opened(fs, dp) && dp.ch == old(dp.ch) && m <= m1 <= m + 1
    ensures res == FrOk || res == FrNoFile || res == FrDiskErr
    ensures PartsWritten(t0, Table(fs, dp), a, m1, n, name, sum)
    ensures res == FrOk || res == FrNoFile ==> m1 == m + 1
    ensures res == FrNoFile ==> a + m + 1 >= NumSlots(fs.g, dp.ch) || 32 * (a + m + 1) >= MAX_DIR
    ensures res == FrOk ==> OnSlot(fs.g, dp, a + m + 1)
    ensures SameFat(fs.fat, fs.log, fs.freeClst, old(fs.fat), old(fs.log), old(fs.freeClst))
    ensures Onward(old(fs.medium), fs.medium)
    ensures res == FrDiskErr ==> Faulted(old(fs.medium), fs.medium)
  {
    hide Fatfs.Valid, WinState.Logical, Slots, Geometry.WellFormed, Opened, OnSlot, HoldsName, IsPart, PartsWritten,
         Checksum, OnlySlots, Table, Kept, CrashSafe, OnlyTable, CountKnown, Full, NumSlots;
    m1 := m;
    OnSlotRange(fs, dp, a + m);
    ghost var t := Table(fs, dp);
    res := WriteLong(fs, dp, lfn, n - m, sum, name, a + m);
    if res != FrOk { return; }
    PartsNext(t0, t, Table(fs, dp), a, m, n, name, sum);
    m1 := m + 1;
    res := NextSlot(fs, dp, a + m);
  }

  /** dir_register, the long-name entries: from the first slot of the reserved run to the one before the last. */
  method WriteParts(fs: Fatfs, dp: Dir, lfn: array<u16>, n: nat, ghost a: nat, ghost name: seq<u16>,
                    ghost t0: seq<Slot>)
    returns (res: FResult, ghost m: nat)
    requires Opened(fs, dp) && OnSlot(fs.g, dp, a + n) && dp.fn.Length == 11 && dp.fn != fs.win && 1 <= n <= 20
    requires HoldsName(lfn[..], name) && 0xFFFF !in name && (n - 1) * 13 < |name| && a + n < |Table(fs, dp)|
    requires t0 == Table(fs, dp)
    modifies fs, fs.win, dp`ch, dp`sect, dp`clust, dp`dptr
    ensures Opened(fs, dp) && dp.ch == old(dp.ch) && dp.fn[..] == old(dp.fn[..]) && lfn[..] == old(lfn[..])
    ensures res == FrOk || res == FrDiskErr
    ensures PartsWritten(t0, Table(fs, dp), a, m, n, name, Checksum(dp.fn[..]))
    ensures res == FrOk ==> OnSlot(fs.g, dp, a + n) && m == n
    ensures SameFat(fs.fat, fs.log, fs.freeClst, old(fs.fat), old(fs.log), old(fs.freeClst))
    ensures Onward(old(fs.medium), fs.medium)
    ensures res == FrDiskErr ==> Faulted(old(fs.medium), fs.medium)
  {
    hide Fatfs.Valid, WinState.Logical, Slots, Geometry.WellFormed, Opened, OnSlot, HoldsName, IsPart, PartsWritten,
         Checksum, OnlySlots, Table, Kept, CrashSafe, OnlyTable, CountKnown, Full, NumSlots;
    OpenedBasics(fs, dp);
    OnSlotRange(fs, dp, a + n);
    m := 0;
    ghost var sum0 := Checksum(dp.fn[..]);
    PartsStart(t0, a, n, name, sum0);
    CursorBack(fs.g, dp, a + n, n);
    res := DirSdi(fs, dp, dp.dptr - n * 32);
    if res != FrOk { return; }
    var sum := SumSfn(dp.fn[..]);
    assert dp.fn[..][..11] == dp.fn[..];
    var ord: nat := n;
    while true
      invariant 1 <= ord <= n && Opened(fs, dp) && dp.ch == old(dp.ch) && OnSlot(fs.g, dp, a + n - ord)
      invariant m == n - ord && PartsWritten(t0, Table(fs, dp), a, m, n, name, sum)
      invariant SameFat(fs.fat, fs.log, fs.freeClst, old(fs.fat), old(fs.log), old(fs.freeClst))
      invariant Onward(old(fs.medium), fs.medium)
      decreases ord
    {
      res, m := WritePart(fs, dp, lfn, sum, n, a, n - ord, name, t0);
      ord := ord - 1;
      if res != FrOk || ord == 0 { return; }
    }
  }

  lemma CursorBack(g: Geometry, dp: Dir, k: nat, n: nat)
    requires g.csize > 0 && OnSlot(g, dp, k) && n <= k
    ensures dp.dptr - n * 32 == 32 * (k - n) && 32 * (k - n) % 32 == 0 && 32 * (k - n) / 32 == k - n
  {
    hide InSector, NumSlots;
  }

  /** Length of the name in the buffer. */
  method NameLength(lfn: array<u16>, ghost name: seq<u16>) returns (len: nat)
    requires HoldsName(lfn[..], name)
    ensures len == |name|
  {
    NameInBuffer(lfn[..], name);
    len := 0;
    while lfn[len] != 0
      invariant len <= |name|
      decreases |name| - len
    {
      len := len + 1;
    }
  }

  /** No `n` free slots in a row, and no room for more: the table is at its maximum, or (the count being right) no
      cluster is free. */
  ghost predicate NoPlace(fs: Fatfs, dp: Dir, n: nat)
    requires Opened(fs, dp)
    reads fs, fs.win, dp
  {
    && NoRun(Table(fs, dp), n, MAX_DIR / 32)
    && (AtMaximum(fs, dp) || (CountKnown(fs.fat, fs.freeClst) ==> Full(fs.fat)))
  }

  /** Slot `k` holds the short entry of `dp` and nothing else yet. */
  ghost predicate FreshShort(t: seq<Slot>, k: nat, dp: Dir)
    reads dp, dp.fn
  {
    dp.fn.Length == 11 && k < |t| && t[k] == ShortEntry(dp.fn[..], dp.flags.body, dp.flags.ext)
  }

  /** dir_register behind the numbering: reserve the slots and write the entries. `t1` is the table after reserving. */
  method RegisterEntries(fs: Fatfs, dp: Dir, lfn: array<u16>, len: nat, ghost name: seq<u16>)
    returns (res: FResult, ghost a: nat, ghost t1: seq<Slot>)
    requires Opened(fs, dp) && dp.fn.Length == 11 && dp.fn != fs.win && UsableShort(dp.fn[..])
    requires HoldsName(lfn[..], name) && 0xFFFF !in name && 0 < len == |name| <= MAX_LFN
    modifies fs, fs.win, dp`ch, dp`sect, dp`clust, dp`dptr
    ensures res == FrOk || res == FrDenied || res == FrDiskErr || (res == FrIntErr && HasReserved(old(fs.fat)))
    ensures res == FrOk || res == FrDenied ==> Opened(fs, dp)
    ensures res == FrOk ==> var n := LongEntries(dp.flags, len);
      && Registered(Table(fs, dp), a, n, name, dp.fn[..], dp.flags.body, dp.flags.ext) && OnSlot(fs.g, dp, a + n)
      && GrownBy(old(Table(fs, dp)), t1) && Reserved(t1, a, n) && OnlySlots(t1, Table(fs, dp), a, a + n)
    ensures res == FrOk ==> var k := a + LongEntries(dp.flags, len);
      FreshShort(Table(fs, dp), k, dp) && Loaded(fs, dp, k) && fs.wflag
    ensures res == FrOk && EndMarked(old(Table(fs, dp))) ==> EndMarked(Table(fs, dp))
    ensures res == FrDenied ==> GrownBy(old(Table(fs, dp)), Table(fs, dp))
    ensures res == FrDenied ==> NoPlace(fs, dp, LongEntries(dp.flags, len) + 1)
    ensures res == FrOk || res == FrDenied ==> Kept(old(fs.fat), old(fs.freeClst), fs.fat, fs.freeClst)
    ensures OnlyTable(old(fs.fat), old(dp.ch), fs.fat, dp.ch)
    ensures StaysSafe(old(fs.log), fs.log, res != FrDiskErr)
    ensures dp.fn[..] == old(dp.fn[..]) && lfn[..] == old(lfn[..])
    ensures Onward(old(fs.medium), fs.medium)
    ensures res == FrDiskErr ==> Faulted(old(fs.medium), fs.medium)
  {
    hide Fatfs.Valid, WinState.Logical, Slots, Geometry.WellFormed, Opened, OnSlot, HoldsName, IsPart, PartsWritten,
         Checksum, OnlySlots, Table, Loaded, FreeRun, Registered, UsableShort, GrownBy, NoRun, Kept, OnlyTable,
         CrashSafe, CountKnown, Full, EndMarked, ShortEntry;
    OpenedBasics(fs, dp);
    ghost var t0, fn := Table(fs, dp), dp.fn[..];
    a, t1 := 0, t0;
    var n := LongEntries(dp.flags, len);
    ghost var k;
    res, k := DirAlloc(fs, dp, n + 1);
    if res != FrOk { return; }
    t1 := Table(fs, dp);
    ReservedRun(fs, dp, n, k);
    GrownMarked(t0, t1);
    a := k - n;
    res := WriteEntries(fs, dp, lfn, n, a, name, t1);
  }

  /** The writing half of dir_register, after dir_alloc. */
  method WriteEntries(fs: Fatfs, dp: Dir, lfn: array<u16>, n: nat, ghost a: nat, ghost name: seq<u16>,
                      ghost t1: seq<Slot>) returns (res: FResult)
    requires Opened(fs, dp) && OnSlot(fs.g, dp, a + n) && dp.fn.Length == 11 && dp.fn != fs.win
    requires UsableShort(dp.fn[..]) && n <= 20
    requires HoldsName(lfn[..], name) && 0xFFFF !in name && (n > 0 ==> (n - 1) * 13 < |name|)
    requires t1 == Table(fs, dp) && Reserved(t1, a, n)
    modifies fs, fs.win, dp`ch, dp`sect, dp`clust, dp`dptr
    ensures Opened(fs, dp) && (res == FrOk || res == FrDiskErr) && dp.ch == old(dp.ch)
    ensures res == FrOk ==> OnSlot(fs.g, dp, a + n) && OnlySlots(t1, Table(fs, dp), a, a + n)
    ensures res == FrOk ==> Registered(Table(fs, dp), a, n, name, dp.fn[..], dp.flags.body, dp.flags.ext)
    ensures res == FrOk ==> FreshShort(Table(fs, dp), a + n, dp) && Loaded(fs, dp, a + n) && fs.wflag
    ensures EndMarked(t1) ==> EndMarked(Table(fs, dp))
    ensures dp.fn[..] == old(dp.fn[..]) && lfn[..] == old(lfn[..])
    ensures SameFat(fs.fat, fs.log, fs.freeClst, old(fs.fat), old(fs.log), old(fs.freeClst))
    ensures Onward(old(fs.medium), fs.medium)
    ensures res == FrDiskErr ==> Faulted(old(fs.medium), fs.medium)
  {
    hide Fatfs.Valid, WinState.Logical, Slots, Geometry.WellFormed, Opened, OnSlot, HoldsName, IsPart, PartsWritten,
         Checksum, OnlySlots, Table, Loaded, Registered, UsableShort, EndMarked, ShortEntry, ShortFor;
    OpenedBasics(fs, dp);
    ghost var fn := dp.fn[..];
    ghost var m := 0;
    PartsStart(t1, a, n, name, Checksum(fn));
    PartsMarkedIf(t1, t1, a, 0, n, name, Checksum(fn));
    if n > 0 {
      res, m := WriteParts(fs, dp, lfn, n, a, name, t1);
      PartsMarkedIf(t1, Table(fs, dp), a, m, n, name, Checksum(fn));
      if res != FrOk { return; }
    }
    AllWritten(t1, Table(fs, dp), a, n, name, fn, dp.flags.body, dp.flags.ext);
    OpenedBasics(fs, dp);
    OnSlotRange(fs, dp, a + n);
    res := WriteShort(fs, dp, a + n);
  }

  lemma PartsMarkedIf(t0: seq<Slot>, t: seq<Slot>, a: nat, m: nat, n: nat, name: seq<u16>, sum: byte)
    requires PartsWritten(t0, t, a, m, n, name, sum) && Reserved(t0, a, n)
    ensures EndMarked(t0) ==> EndMarked(t)
  {
    if EndMarked(t0) { PartsMarked(t0, t, a, m, n, name, sum); }
  }

  lemma ReservedRun(fs: Fatfs, dp: Dir, n: nat, k: nat)
    requires Opened(fs, dp) && Loaded(fs, dp, k) && FreeRun(Table(fs, dp), n + 1, k)
    requires (k >= n + 1 ==> !FreeSlot(Table(fs, dp)[k - n - 1]))
    ensures n <= k && Reserved(Table(fs, dp), k - n, n) && OnSlot(fs.g, dp, k)
  {
  }

  lemma GrownMarked(t: seq<Slot>, u: seq<Slot>)
    requires GrownBy(t, u)
    ensures EndMarked(t) ==> EndMarked(u)
  {
    if EndMarked(t) { ZeroSlotsFree(t, |u| - |t|); }
  }
}
