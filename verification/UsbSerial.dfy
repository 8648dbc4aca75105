/** The double-buffered USB output stream (usb_serial.c). */
module UsbSerial {
  import opened Bytes
  import opened Arith

  const ASCII_LF: byte := 0x0A

  /** All bytes of a sequence of transfers. */
  ghost function Flatten(packets: seq<seq<byte>>): seq<byte> {
    if |packets| == 0 then [] else Flatten(packets[..|packets| - 1]) + packets[|packets| - 1]
  }

  lemma FlattenOne(packets: seq<seq<byte>>, p: seq<byte>)
    ensures Flatten(packets + [p]) == Flatten(packets) + p
  {
    assert (packets + [p])[..|packets|] == packets;
  }

  lemma FlattenTwo(packets: seq<seq<byte>>, p: seq<byte>)
    ensures Flatten(packets + [p] + [[]]) == Flatten(packets) + p
  {
    FlattenOne(packets, p);
    FlattenOne(packets + [p], []);
  }

  /** A transfer, with an empty one behind it where needed, keeps the rule. */
  lemma TerminatedNext(packets: seq<seq<byte>>, p: seq<byte>)
    requires Terminated(packets)
    ensures Terminated(packets + [p] + [[]]) && (|p| % 64 != 0 ==> Terminated(packets + [p]))
  {
    var a, b := packets + [p], packets + [p] + [[]];
    forall i | 0 <= i < |b| && |b[i]| > 0 && |b[i]| % 64 == 0
      ensures i + 1 < |b| && b[i + 1] == []
    {
      if i < |packets| { assert b[i] == packets[i] && packets[i + 1] == b[i + 1]; }
    }
    if |p| % 64 != 0 {
      forall i | 0 <= i < |a| && |a[i]| > 0 && |a[i]| % 64 == 0
        ensures i + 1 < |a| && a[i + 1] == []
      {
        assert a[i] == packets[i] && packets[i + 1] == a[i + 1];
      }
    }
  }

  /** A transfer of whole 64-byte packets is followed by an empty one, so that the host knows it has ended. */
  ghost predicate Terminated(packets: seq<seq<byte>>) {
    forall i :: 0 <= i < |packets| && |packets[i]| > 0 && |packets[i]| % 64 == 0 ==>
                  i + 1 < |packets| && packets[i + 1] == []
  }

  /** txbuf, and the device behind CDC_Transmit_FS. */
  class TxStream {
    const data: array<byte>
    const data2: array<byte>
    const dummy: array<byte>
    const maxLength: nat
    var useTx2: bool
    var ofs: nat             // txbuf.s, as an offset into the buffer in use
    var length: nat

    /** The transfers the device has accepted. */
    ghost var packets: seq<seq<byte>>
    /** The buffer the device may still be reading, and what it was handed over with. */
    ghost var flight: array?<byte>
    ghost var flightBytes: seq<byte>
    /** The blocking callback has refused to wait any longer. */
    ghost var gaveUp: bool

    /** usbInit. */
    constructor (n: nat)
      requires n > 0
      ensures Valid() && maxLength == n && Sent() == [] && Pending() == [] && !gaveUp
    {
      data, data2, dummy, maxLength := new byte[n](_ => 0), new byte[n](_ => 0), new byte[1](_ => 0), n;
      useTx2, ofs, length := false, 0, 0;
      packets, flight, flightBytes, gaveUp := [], null, [], false;
    }

    /** The buffer that is being filled. */
    function Current(): array<byte>
      reads this`useTx2
    {
      if useTx2 then data2 else data
    }

    ghost predicate Shape()
      reads this`length
    {
      && maxLength > 0 && data.Length == maxLength && data2.Length == maxLength && dummy.Length == 1
      && data != data2 && dummy != data && dummy != data2 && length <= maxLength
    }

    /** The device reads exactly what it was handed over. */
    ghost predicate FlightIntact()
      reads this`flight, this`flightBytes, data, data2, dummy
    {
      flight != null ==>
        && (flight == data || flight == data2 || flight == dummy)
        && |flightBytes| <= flight.Length && flight[..|flightBytes|] == flightBytes
    }

    ghost predicate Valid()
      reads this, data, data2, dummy
    {
      Shape() && ofs == length && FlightIntact() && flight != Current() && Terminated(packets)
    }

    ghost function Sent(): seq<byte>
      reads this`packets
    {
      Flatten(packets)
    }

    ghost function Pending(): seq<byte>
      requires Shape()
      reads this`length, this`useTx2, data, data2
    {
      Current()[..length]
    }

    /** Offer the buffer to the device for as long as it is busy; it gets ready after some tries, unless the blocking
        callback gives up. */
    method Transmit(buf: array<byte>, len: nat) returns (ok: bool)
      requires len <= buf.Length && (buf == data || buf == data2 || buf == dummy)
      modifies this`packets, this`flight, this`flightBytes, this`gaveUp
      ensures ok ==> packets == old(packets) + [buf[..len]] && flight == buf && flightBytes == buf[..len]
      ensures !ok ==> packets == old(packets) && flight == old(flight) && flightBytes == old(flightBytes)
      ensures gaveUp == (old(gaveUp) || !ok)
    {
      var tries: nat := *;
      while tries > 0
        invariant gaveUp == old(gaveUp)
      {
        var goOn: bool := *;
        if !goOn {
          gaveUp := true;
          return false;
        }
        tries := tries - 1;
      }
      packets := packets + [buf[..len]];
      flight, flightBytes := buf, buf[..len];
      ok := true;
    }

    /** usb_write: hands the buffer over and goes on with the other one. */
    method UsbWriteOut() returns (ok: bool)
      requires Shape() && FlightIntact() && flight != Current() && Terminated(packets)
      modifies this`useTx2, this`ofs, this`length, this`packets, this`flight, this`flightBytes, this`gaveUp
      ensures ok ==> Valid() && Pending() == [] && Sent() == old(Sent()) + old(Pending()) && useTx2 != old(useTx2)
      ensures ok ==> packets == old(packets) + [old(Pending())] + if old(length) % 64 == 0 then [[]] else []
      // given up: the buffer stays in use with its bytes, but will be filled from the start
      ensures !ok ==> useTx2 == old(useTx2) && length == old(length) && ofs == 0
      ensures gaveUp == (old(gaveUp) || !ok)
    {
      hide Terminated, Flatten;
      ofs := 0;
      ok := Transmit(Current(), length);
      if !ok { return; }
      ghost var d := Current()[..length];
      if length % 64 == 0 {
        ok := Transmit(dummy, 0);
        if !ok { return; }
        assert dummy[..0] == [];
        FlattenTwo(old(packets), d);
      } else {
        FlattenOne(old(packets), d);
      }
      TerminatedNext(old(packets), d);
      useTx2 := !useTx2;
      ofs := 0;
      length := 0;
    }

    /** memcpy(txbuf.s, s, |s|). */
    method Store(s: seq<byte>)
      requires Shape() && ofs + |s| <= maxLength
      modifies Current()
      ensures Current()[..ofs] == old(Current()[..ofs]) && Current()[ofs..ofs + |s|] == s
    {
      var buf := Current();
      forall i | 0 <= i < |s| { buf[ofs + i] := s[i]; }
    }

    /** A full buffer of text, sent at once. */
    method SendFull(s: seq<byte>) returns (ok: bool)
      requires Valid() && length == 0 && |s| == maxLength
      modifies this`useTx2, this`ofs, this`length, this`packets, this`flight, this`flightBytes, this`gaveUp,
               data, data2
      ensures ok ==> Valid() && Pending() == [] && Sent() == old(Sent()) + s
      ensures gaveUp == (old(gaveUp) || !ok)
    {
      hide Terminated, Flatten;
      length := maxLength;
      Store(s);
      assert Pending() == s;
      ok := UsbWriteOut();
    }

    /** What is left of a text after some whole buffers of it. */
    ghost predicate Tail(s: seq<byte>, rest: seq<byte>) {
      0 < |rest| <= |s| && rest == s[|s| - |rest|..] && maxLength > 0 && (|s| - |rest|) % maxLength == 0
    }

    ghost predicate LastPart(s: seq<byte>, rest: seq<byte>) {
      Tail(s, rest) && |rest| <= maxLength
    }

    lemma TailSelf(s: seq<byte>)
      requires |s| > 0 && maxLength > 0
      ensures Tail(s, s)
    {
      DivModIs(0, maxLength, 0, 0);
    }

    lemma TailEnds(s: seq<byte>, rest: seq<byte>)
      requires Tail(s, rest)
      ensures |rest| > 0 && |s| > 0 && rest[|rest| - 1] == s[|s| - 1]
      ensures |rest| <= maxLength ==> LastPart(s, rest)
    {
    }

    lemma TailNext(s: seq<byte>, rest: seq<byte>)
      requires Tail(s, rest) && |rest| > maxLength
      ensures Tail(s, rest[maxLength..])
    {
      var done := |s| - |rest|;
      DivModIs(done + maxLength, maxLength, done / maxLength + 1, 0);
    }

    /** The common part of usbWriteS and usbWrite: flush if the text does not fit behind the pending one, and send
        what fills whole buffers. `rest` is what remains to be stored. */
    method SendWhole(s: seq<byte>) returns (ok: bool, rest: seq<byte>)
      requires Valid() && |s| > 0
      modifies this`useTx2, this`ofs, this`length, this`packets, this`flight, this`flightBytes, this`gaveUp,
               data, data2
      ensures ok ==> Valid() && length + |rest| <= maxLength && Sent() + Pending() + rest == old(Sent() + Pending()) + s
      ensures ok ==> LastPart(s, rest) && |rest| > 0 && rest[|rest| - 1] == s[|s| - 1]
      ensures ok && old(length) + |s| <= maxLength ==>
        rest == s && packets == old(packets) && Pending() == old(Pending())
      ensures ok && old(length) + |s| > maxLength ==> Pending() == []
      ensures gaveUp == (old(gaveUp) || !ok)
    {
      hide Terminated, Flatten, TxStream.Tail, TxStream.LastPart;
      TailSelf(s);
      ok, rest := true, s;
      if length != 0 && length + |rest| > maxLength {
        ok := UsbWriteOut();
        if !ok { return; }
      }
      while |rest| > maxLength
        invariant Valid() && Tail(s, rest) && gaveUp == old(gaveUp)
        invariant Sent() + Pending() + rest == old(Sent() + Pending()) + s
        invariant length + |rest| <= maxLength || (length == 0 && Pending() == [])
        invariant if old(length) + |s| > maxLength then Pending() == []
                  else rest == s && packets == old(packets) && Pending() == old(Pending())
        decreases |rest|
      {
        ghost var sent := Sent();
        ok := SendFull(rest[..maxLength]);
        if !ok { return; }
        assert sent + [] + rest == (sent + rest[..maxLength]) + [] + rest[maxLength..];
        TailNext(s, rest);
        rest := rest[maxLength..];
        TailEnds(s, rest);
      }
      TailEnds(s, rest);
    }

    /** Stores the rest behind the pending bytes. */
    method StoreRest(rest: seq<byte>)
      requires Valid() && length + |rest| <= maxLength
      modifies this`ofs, this`length, data, data2
      ensures Valid() && Pending() == old(Pending()) + rest && packets == old(packets)
    {
      Store(rest);
      length := length + |rest|;
      ofs := ofs + |rest|;
      assert Current()[..length] == Current()[..old(length)] + Current()[old(length)..length];
    }

    /** usbWriteS: the text is sent or pending, in order, behind everything written before; a line is sent at once. */
    method UsbWriteS(s: seq<byte>) returns (ok: bool)
      requires Valid()
      modifies this`useTx2, this`ofs, this`length, this`packets, this`flight, this`flightBytes, this`gaveUp,
               data, data2
      ensures ok ==> Valid() && Sent() + Pending() == old(Sent() + Pending()) + s
      ensures ok && |s| > 0 && s[|s| - 1] == 0x0A ==> Pending() == []
      // without a line end it stays pending if it fits behind what is pending, and nothing is sent; else what is left
      // of it after whole buffers stays
      ensures ok && (|s| == 0 || s[|s| - 1] != 0x0A) && old(length) + |s| <= maxLength ==>
        packets == old(packets) && Pending() == old(Pending()) + s
      ensures ok && |s| > 0 && s[|s| - 1] != 0x0A && old(length) + |s| > maxLength ==> LastPart(s, Pending())
      ensures gaveUp == (old(gaveUp) || !ok)
    {
      hide Terminated, Flatten, TxStream.Tail, TxStream.LastPart;
      if |s| == 0 { return true; }
      var rest;
      ok, rest := SendWhole(s);
      if !ok { return; }
      if |rest| > 0 {
        ghost var sent, p := Sent(), Pending();
        StoreRest(rest);
        assert sent + (p + rest) == sent + p + rest;
        if p == [] { assert Pending() == rest; }
        if rest[|rest| - 1] == ASCII_LF { ok := UsbWriteOut(); }
      }
    }

    /** usbWrite: the bytes are sent, in order, behind everything written before. */
    method UsbWrite(s: seq<byte>) returns (ok: bool)
      requires Valid()
      modifies this`useTx2, this`ofs, this`length, this`packets, this`flight, this`flightBytes, this`gaveUp,
               data, data2
      ensures ok ==> Valid() && Sent() + Pending() == old(Sent() + Pending()) + s && (|s| > 0 ==> Pending() == [])
      ensures gaveUp == (old(gaveUp) || !ok)
    {
      if |s| == 0 { return true; }
      var rest;
      ok, rest := SendWhole(s);
      if !ok { return; }
      if |rest| > 0 {
        ghost var sent, p := Sent(), Pending();
        StoreRest(rest);
        assert sent + (p + rest) == sent + p + rest;
        ok := UsbWriteOut();
      }
    }
  }

  // ---------- whole runs ----------

  datatype Call = Text(s: seq<byte>) | Block(s: seq<byte>)

  ghost function Inputs(calls: seq<Call>): seq<byte> {
    if |calls| == 0 then [] else Inputs(calls[..|calls| - 1]) + calls[|calls| - 1].s
  }

  lemma InputsNext(calls: seq<Call>, i: nat, was: seq<byte>)
    requires i < |calls|
    ensures was + Inputs(calls[..i]) + calls[i].s == was + Inputs(calls[..i + 1])
  {
    assert calls[..i + 1][..i] == calls[..i];
  }

  /** One call. */
  method Issue(t: TxStream, call: Call) returns (ok: bool)
    requires t.Valid()
    modifies t`useTx2, t`ofs, t`length, t`packets, t`flight, t`flightBytes, t`gaveUp, t.data, t.data2
    ensures ok ==> t.Valid() && t.Sent() + t.Pending() == old(t.Sent() + t.Pending()) + call.s
    ensures t.gaveUp == (old(t.gaveUp) || !ok)
  {
    hide TxStream.Shape, TxStream.FlightIntact, TxStream.Sent, TxStream.Pending, Terminated;
    match call {
      case Text(s) => ok := t.UsbWriteS(s);
      case Block(s) => ok := t.UsbWrite(s);
    }
  }

  /** Any sequence of calls: as long as the blocking callback never gives up, the bytes sent and the bytes pending are
      the concatenation of all inputs, and Valid() has held all along - never more than maxLength bytes were pending,
      and no byte of a buffer in flight was touched. */
  method WriteAll(t: TxStream, calls: seq<Call>) returns (ok: bool)
    requires t.Valid()
    modifies t, t.data, t.data2
    ensures !t.gaveUp ==> ok
    ensures ok ==> t.Valid() && t.Sent() + t.Pending() == old(t.Sent() + t.Pending()) + Inputs(calls)
  {
    hide TxStream.Shape, TxStream.FlightIntact, TxStream.Sent, TxStream.Pending, Terminated, Inputs;
    ghost var was := t.Sent() + t.Pending();
    NoInputs(calls, was);
    ok := true;
    var i := 0;
    while i < |calls|
      invariant 0 <= i <= |calls| && t.Valid() && t.gaveUp == old(t.gaveUp)
      invariant t.Sent() + t.Pending() == was + Inputs(calls[..i])
      decreases |calls| - i
    {
      InputsNext(calls, i, was);
      ok := Issue(t, calls[i]);
      if !ok { return; }
      i := i + 1;
    }
    assert calls[..i] == calls;
  }

  lemma NoInputs(calls: seq<Call>, was: seq<byte>)
    ensures was + Inputs(calls[..0]) == was
  {
  }
}
