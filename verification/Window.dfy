/** Sector transfers and the one-sector write-back window (sync_window, move_window). */
module Window {
  import opened Bytes
  import opened Volume

  // ---------- the medium: transfers may fail at any time ----------

  /** The record of the device, brought up to date after a request to it. */
  ghost method Note(fs: Fatfs, m: Medium)
    requires m == fs.medium.(flushed := m.flushed, faults := m.faults)
    modifies fs`medium
    ensures fs.medium == m
    ensures old(fs.Valid()) ==> fs.Valid()
  {
    hide MirroredBut, WellLogged, FatOf, WinState.Coherent, WinState.Logical, InfoCounts;
    fs.medium := m;
  }

  /** disk_read of one sector. A failed read leaves the buffer unspecified. Only for a sector the medium has it is a
      failure of the device. */
  method DiskRead(fs: Fatfs, buf: array<byte>, sect: u32) returns (ok: bool)
    requires buf.Length == 512
    modifies buf, fs`medium
    ensures ok ==> sect < |fs.disk| && buf[..] == fs.disk[sect]
    ensures fs.medium == old(fs.medium).After(ok || sect >= |fs.disk|)
    ensures old(fs.Valid()) && buf != fs.win ==> fs.Valid()
  {
    hide MirroredBut, WellLogged, FatOf, WinState.Coherent, WinState.Logical, InfoKept;
    ok := *;
    if sect >= |fs.disk| {
      ok := false;
    } else {
      Note(fs, fs.medium.After(ok));
    }
    if ok {
      var data := fs.disk[sect];
      forall i | 0 <= i < 512 { buf[i] := data[i]; }
      assert buf[..] == data;
    } else {
      modify buf;
    }
  }

  /** disk_write of one sector. A failed write leaves that one sector unspecified. */
  method DiskWrite(fs: Fatfs, data: Sector, sect: nat) returns (ok: bool)
    modifies fs`disk, fs`medium
    ensures |fs.disk| == old(|fs.disk|)
    ensures forall s :: 0 <= s < |fs.disk| && s != sect ==> fs.disk[s] == old(fs.disk[s])
    ensures ok ==> sect < |fs.disk| && fs.disk[sect] == data
    ensures fs.medium == if sect < |fs.disk| then old(fs.medium).Written(ok) else old(fs.medium)
  {
    ok := *;
    if sect >= |fs.disk| {
      ok := false;
    } else {
      var stored: Sector := *;
      if ok { stored := data; }
      fs.disk := fs.disk[sect := stored];
      Note(fs, fs.medium.Written(ok));
    }
  }

  /** The `j`-th sector of a transfer buffer. */
  function Slice(data: seq<byte>, j: nat): (r: Sector)
    requires 512 * j + 512 <= |data|
  {
    data[512 * j..512 * j + 512]
  }

  /** The medium after the sectors `s0..s0+cc` were replaced by `data`. */
  ghost predicate Transferred(a: seq<Sector>, b: seq<Sector>, s0: nat, cc: nat, data: seq<byte>) {
    && |b| == |a| && s0 + cc <= |a| && |data| == 512 * cc
    && (forall s :: 0 <= s < |a| && !(s0 <= s < s0 + cc) ==> b[s] == a[s])
    && (forall s :: s0 <= s < s0 + cc ==> b[s] == Slice(data, s - s0))
  }

  /** disk_write of several sectors. A failed write leaves all of them unspecified. */
  method DiskWriteMany(fs: Fatfs, data: seq<byte>, sect: nat, cc: nat) returns (ok: bool)
    requires |data| == 512 * cc && sect + cc <= |fs.disk|
    modifies fs`disk, fs`medium
    ensures |fs.disk| == old(|fs.disk|)
    ensures forall s :: 0 <= s < |fs.disk| && !(sect <= s < sect + cc) ==> fs.disk[s] == old(fs.disk)[s]
    ensures ok ==> Transferred(old(fs.disk), fs.disk, sect, cc, data)
    ensures fs.medium == old(fs.medium).Written(ok)
  {
    ok := *;
    Note(fs, fs.medium.Written(ok));
    var was := fs.disk;
    var i := 0;
    while i < cc
      invariant 0 <= i <= cc && |fs.disk| == |was| && fs.medium == old(fs.medium).Written(ok)
      invariant forall s :: 0 <= s < |was| && !(sect <= s < sect + cc) ==> fs.disk[s] == was[s]
      invariant ok ==> forall s :: sect <= s < sect + i ==> fs.disk[s] == Slice(data, s - sect)
    {
      var stored: Sector := *;
      if ok { stored := Slice(data, i); }
      fs.disk := fs.disk[sect + i := stored];
      i := i + 1;
    }
  }

  // ---------- what a flush may change ----------

  /** From `a` to `b` only the FAT copies and the sector that was dirty in the window were written,
      and nothing outside the second FAT changed logically. */
  ghost predicate Flushed(g: Geometry, a: WinState, b: WinState) {
    && |b.disk| == |a.disk|
    && (forall s {:trigger b.disk[s]} :: 0 <= s < |a.disk| && !g.InFats(s) && !(a.wflag && s == a.winsect)
          ==> b.disk[s] == a.disk[s])
    && (forall s {:trigger b.Logical()[s]} :: 0 <= s < |a.disk| && !g.InFat2(s) ==> b.Logical()[s] == a.Logical()[s])
  }

  lemma FlushedSelf(g: Geometry, a: WinState)
    ensures Flushed(g, a, a)
  {
  }

  /** After a successful write of the window (and perhaps of its mirror image) the medium is the logical image. */
  lemma FlushStep(g: Geometry, a: WinState, b: WinState, fat: seq<nat>)
    requires a.Coherent(g) && a.wflag && |b.disk| == |a.disk|
    requires b.win == a.win && b.winsect == a.winsect && !b.wflag
    requires forall s :: 0 <= s < |a.disk| && s != a.winsect && !g.InFat2(s) ==> b.disk[s] == a.disk[s]
    requires a.winsect < |a.disk| && b.disk[a.winsect] == a.win
    requires FatOf(g, a.Logical(), fat)
    ensures b.Coherent(g) && Flushed(g, a, b) && FatOf(g, b.Logical(), fat) && FatOf(g, b.disk, fat)
  {
    assert forall s :: 0 <= s < |a.disk| && !g.InFat2(s) ==> b.disk[s] == a.Logical()[s];
    FatOfFrame(g, a.Logical(), b.disk, fat);
  }

  /** A failed write of the window loses nothing logically: the window stays dirty and hides the damage. The
      first FAT on the medium is damaged only if the sector is one of its own. */
  lemma FailedFlush(g: Geometry, a: WinState, b: WinState, fat: seq<nat>)
    requires a.Coherent(g) && a.wflag && |b.disk| == |a.disk|
    requires b.win == a.win && b.winsect == a.winsect && b.wflag
    requires forall s :: 0 <= s < |a.disk| && s != a.winsect ==> b.disk[s] == a.disk[s]
    requires FatOf(g, a.Logical(), fat)
    ensures b.Coherent(g) && Flushed(g, a, b) && FatOf(g, b.Logical(), fat) && b.Logical() == a.Logical()
    ensures forall m :: FatOf(g, a.disk, m) && !g.InFat1(a.winsect) ==> FatOf(g, b.disk, m)
    ensures forall x :: MirroredBut(g, a.disk, x) && (x == -1 || x == a.winsect as int) ==>
      MirroredBut(g, b.disk, if g.InFat1(a.winsect) then a.winsect else x)
  {
    hide FatOf;
    assert b.Logical() == a.Logical();
    forall m | FatOf(g, a.disk, m) && !g.InFat1(a.winsect)
      ensures FatOf(g, b.disk, m)
    {
      FatOfFrame(g, a.disk, b.disk, m);
    }
  }

  /** sync_window. */
  method SyncWindow(fs: Fatfs) returns (res: FResult)
    requires fs.Valid()
    modifies fs`disk, fs`wflag, fs`medium
    ensures fs.Valid()
    ensures res == FrOk || res == FrDiskErr
    ensures Flushed(fs.g, old(fs.St()), fs.St())
    ensures res == FrOk ==> !fs.wflag
    ensures res != FrOk ==> fs.wflag == old(fs.wflag)
    ensures !old(fs.wflag) ==> res == FrOk && fs.disk == old(fs.disk) && fs.medium == old(fs.medium)
    // it fails only with the device
    ensures res != FrOk ==> Faulted(old(fs.medium), fs.medium)
    // a successful flush makes the medium show the current FAT; no flush ever makes it show an older one, or, unless
    // the device fails, lets the copies of the FAT differ
    ensures Onward(old(fs.medium), fs.medium)
    ensures res == FrOk && old(fs.wflag) ==> fs.medium.at == |fs.log| - 1
    ensures res == FrOk ==> !fs.medium.damaged
    ensures res != FrOk ==> fs.medium.at == old(fs.medium.at) && fs.medium.mirrored == old(fs.medium.mirrored)
    // only a failed write of a first-FAT sector damages the FAT on the medium
    ensures fs.medium.damaged ==> fs.g.InFat1(fs.winsect)
  {
    hide FatOf, Flushed, MirroredBut, Geometry.WellFormed, WinState.Logical, WellLogged, InfoCounts;
    FlushedSelf(fs.g, fs.St());
    res := FrOk;
    if fs.wflag {
      ghost var a, m := fs.St(), fs.medium;
      var ok := DiskWrite(fs, fs.win[..], fs.winsect);
      if ok {
        fs.wflag := false;
        ghost var reflected := WriteMirror(fs, a, m, fs.fat);
        fs.medium := fs.medium.(at := |fs.log| - 1, damaged := false, mirrored := m.mirrored && reflected);
        InfoSpared(fs.g, a, fs.St(), fs.medium, fs.fsiDirty, fs.freeClst, fs.lastClst);
      } else {
        FailedFlush(fs.g, a, fs.St(), fs.fat);
        fs.medium := fs.medium.(damaged := fs.g.InFat1(fs.winsect));
        res := FrDiskErr;
      }
    }
  }

  /** The second half of sync_window, after the window was written: reflect a FAT sector to the second FAT. */
  method WriteMirror(fs: Fatfs, ghost a: WinState, ghost m: Medium, ghost fat: seq<nat>) returns (ghost reflected: bool)
    requires a.Coherent(fs.g) && a.wflag && |fs.disk| == |a.disk|
    requires fs.win.Length == 512 && fs.win[..] == a.win && fs.winsect == a.winsect < |a.disk| && !fs.wflag
    requires forall s :: 0 <= s < |a.disk| && s != a.winsect ==> fs.disk[s] == a.disk[s]
    requires fs.disk[a.winsect] == a.win
    requires FatOf(fs.g, a.Logical(), fat)
    requires m.mirrored ==> MirroredBut(fs.g, a.disk, if m.damaged then a.winsect else -1)
    requires !fs.medium.flushed
    modifies fs`disk, fs`medium
    ensures fs.St().Coherent(fs.g) && Flushed(fs.g, a, fs.St())
    ensures FatOf(fs.g, fs.St().Logical(), fat) && FatOf(fs.g, fs.disk, fat)
    ensures m.mirrored && reflected ==> Mirrored(fs.g, fs.disk)
    // the copy is written unless the device fails
    ensures fs.medium == old(fs.medium).After(reflected)
  {
    hide FatOf, Flushed, MirroredBut, Geometry.WellFormed, WinState.Logical;
    InFirstFat(fs.g, |fs.disk|, fs.winsect);
    reflected := true;
    if Sub32(fs.winsect, fs.g.fatbase) < fs.g.fsize {
      if fs.g.nFats == 2 {
        var ok := DiskWrite(fs, fs.win[..], fs.winsect + fs.g.fsize);
        reflected := ok;
      }
    }
    FlushStep(fs.g, a, fs.St(), fat);
    if m.mirrored && reflected {
      MirrorStep(fs.g, a, fs.St(), if m.damaged then a.winsect else -1);
    }
  }

  /** A flush leaves the FSInfo sector alone. */
  lemma InfoSpared(g: Geometry, a: WinState, b: WinState, m: Medium, dirty: bool, free: u32, last: u32)
    requires a.Coherent(g) && Flushed(g, a, b) && InfoKept(g, a.disk, m, dirty, free, last)
    ensures InfoKept(g, b.disk, m, dirty, free, last)
  {
    hide WinState.Logical, InfoCounts;
    if g.fsinfo { assert !g.InFats(g.volbase + 1); }
  }

  /** The DWORD test `winsect - fatbase < fsize` means: inside the first FAT. The copy lies inside the medium. */
  lemma InFirstFat(g: Geometry, nsect: nat, s: u32)
    requires g.WellFormed(nsect)
    ensures Sub32(s, g.fatbase) < g.fsize <==> g.InFat1(s)
    ensures g.nFats == 2 && g.InFat1(s) ==> s + g.fsize < nsect
  {
    if s < g.fatbase {
      assert Sub32(s, g.fatbase) == s - g.fatbase + 0x1_0000_0000;
    }
  }

  /** The mirror write makes both copies equal, also where an earlier write had failed. */
  lemma MirrorStep(g: Geometry, a: WinState, b: WinState, x: int)
    requires a.Coherent(g) && MirroredBut(g, a.disk, x) && a.wflag && |b.disk| == |a.disk|
    requires x == -1 || x == a.winsect as int
    requires b.disk[a.winsect] == a.win
    requires g.nFats == 2 && g.InFat1(a.winsect) ==> b.disk[a.winsect + g.fsize] == a.win
    requires forall s ::
      (0 <= s < |a.disk| && s != a.winsect && !(g.nFats == 2 && g.InFat1(a.winsect) && s == a.winsect + g.fsize))
      ==> b.disk[s] == a.disk[s]
    ensures Mirrored(g, b.disk)
  {
  }

  /** Copies of the FAT that were equal at mount time are equal whenever the window is clean, if no mirror write has
      failed; and without any failure of the device since then, always. */
  lemma MirrorKept(fs: Fatfs, m0: Medium)
    requires fs.Valid() && Onward(m0, fs.medium)
    requires (!fs.wflag && fs.medium.mirrored) || (m0.mirrored && !m0.damaged && fs.medium.faults == m0.faults)
    ensures Mirrored(fs.g, fs.disk)
  {
    hide MirroredBut, WellLogged, FatOf, WinState.Coherent, WinState.Logical, InfoKept;
  }

  /** move_window: afterwards the window shows the logical content of `sect`. */
  method MoveWindow(fs: Fatfs, sect: u32) returns (res: FResult)
    requires fs.Valid()
    modifies fs`disk, fs`wflag, fs`medium, fs`winsect, fs.win
    ensures fs.Valid()
    ensures res == FrOk || res == FrDiskErr
    ensures Flushed(fs.g, old(fs.St()), fs.St())
    ensures res == FrOk ==> fs.winsect == sect
    ensures (res == FrOk && sect != INVALID_SECTOR && !(fs.g.fsinfo && sect == fs.g.volbase + 1))
              ==> sect < |fs.disk| && fs.win[..] == fs.St().Logical()[sect]
    ensures fs.winsect == sect || fs.winsect == old(fs.winsect) || fs.winsect == INVALID_SECTOR
    // a window that is still dirty has not moved
    ensures fs.wflag ==> old(fs.wflag) && fs.winsect == old(fs.winsect)
    // it fails only with the device, or for a sector that the medium does not have
    ensures res != FrOk && sect < |fs.disk| ==> Faulted(old(fs.medium), fs.medium)
    // a dirty window that moves is flushed; otherwise the medium is left alone
    ensures Onward(old(fs.medium), fs.medium)
    ensures sect == old(fs.winsect) ==> res == FrOk && fs.St() == old(fs.St())
    ensures sect == old(fs.winsect) || !old(fs.wflag) ==>
      fs.disk == old(fs.disk) && SameShown(old(fs.medium), fs.medium)
    ensures sect != old(fs.winsect) && old(fs.wflag) && res == FrOk ==>
      fs.medium.at == |fs.log| - 1 && !fs.medium.damaged
  {
    hide MirroredBut, WellLogged, FatOf, Flushed, Geometry.WellFormed, InfoCounts;
    res := FrOk;
    ghost var a := fs.St();
    var target := sect;
    if target != fs.winsect {
      res := SyncWindow(fs);
      if res == FrOk {
        ghost var b := fs.St();
        CleanLogical(b);
        WinLength(fs);
        var ok := DiskRead(fs, fs.win, target);
        if !ok {
          target := INVALID_SECTOR;
          res := FrDiskErr;
        }
        fs.winsect := target;
        CleanLogical(fs.St());
        FlushedMoved(fs.g, a, b, fs.St());
      }
    } else {
      FlushedSelf(fs.g, fs.St());
    }
  }

  lemma CleanLogical(st: WinState)
    requires !st.wflag
    ensures st.Logical() == st.disk
  {
  }

  lemma CleanFat(fs: Fatfs)
    requires fs.Valid() && !fs.wflag
    ensures FatOf(fs.g, fs.disk, fs.fat)
  {
    assert fs.St().Logical() == fs.disk;
  }

  lemma WinLength(fs: Fatfs)
    requires fs.Valid()
    ensures fs.win.Length == 512
  {
    ValidBasics(fs);
  }

  /** Reading another sector into a clean window changes nothing. */
  lemma FlushedMoved(g: Geometry, a: WinState, b: WinState, c: WinState)
    requires Flushed(g, a, b) && c.disk == b.disk && c.Logical() == b.Logical()
    ensures Flushed(g, a, c)
  {
    hide WinState.Logical;
    forall s | 0 <= s < |a.disk| && !g.InFat2(s)
      ensures c.Logical()[s] == a.Logical()[s]
    {
      assert b.Logical()[s] == a.Logical()[s];
    }
  }

  // ---------- editing sectors outside the FAT ----------

  /** Sectors a flush of everything leaves alone or brings to their logical content: all but FAT copies and FSInfo. */
  ghost predicate Plain(g: Geometry, s: int) {
    !g.InFats(s) && !(g.fsinfo && s == g.volbase + 1)
  }

  /** Changing bytes of the window over a plain sector. */
  lemma EditStep(g: Geometry, a: WinState, b: WinState, fat: seq<nat>)
    requires a.Coherent(g) && FatOf(g, a.Logical(), fat) && Plain(g, a.winsect) && a.winsect < |a.disk|
    requires a.winsect != INVALID_SECTOR && a.win == a.Logical()[a.winsect]
    requires b == a.(win := b.win, wflag := true) && |b.win| == 512
    ensures b.Coherent(g) && FatOf(g, b.Logical(), fat) && b.Logical()[b.winsect] == b.win
  {
    FatOfFrame(g, a.Logical(), b.Logical(), fat);
  }
}
