/** The quadrature decoder (qei_update in driver.c). */
module Quadrature {
  import opened Arith
  import opened Bytes

  /** encoder_valid_state: is the change from the old pins (upper two bits) to the new ones a single step? */
  const VALID_STATE: seq<bool> := [false, true, true, false, true, false, false, true,
                                   true, false, false, true, false, true, true, false]

  /** The pins as two bits: `a` and `b` of qei_state_t. */
  type Pins = p: int | 0 <= p < 4

  /** Place of the pins on the cycle 0, 1, 3, 2 the encoder runs through when turned forward. */
  function Place(p: Pins): (n: nat)
    ensures n < 4
  {
    match p
    case 0 => 0
    case 1 => 1
    case 3 => 2
    case 2 => 3
  }

  /** The quarter-step between two readings: one forward, one backward, or neither (a repeat, or both pins changed). */
  function Step(p: Pins, q: Pins): int {
    if Place(q) == (Place(p) + 1) % 4 then 1
    else if Place(p) == (Place(q) + 1) % 4 then -1
    else 0
  }

  /** The pins the decoder holds: a reading counts only if it is a single step away from them. */
  function Held(samples: seq<Pins>): Pins {
    if |samples| == 0 then 0
    else
      var p, q := Held(samples[..|samples| - 1]), samples[|samples| - 1];
      if Step(p, q) != 0 then q else p
  }

  /** Net number of accepted quarter-steps. */
  function Net(samples: seq<Pins>): int {
    if |samples| == 0 then 0
    else Net(samples[..|samples| - 1]) + Step(Held(samples[..|samples| - 1]), samples[|samples| - 1])
  }

  /** Direction of the last accepted step; 0 before the first. */
  function LastStep(samples: seq<Pins>): int {
    if |samples| == 0 then 0
    else
      var s := Step(Held(samples[..|samples| - 1]), samples[|samples| - 1]);
      if s != 0 then s else LastStep(samples[..|samples| - 1])
  }

  /** The place of the pins on the cycle is the net number of steps modulo 4. */
  lemma {:induction false} HeldIsNet(samples: seq<Pins>)
    ensures Place(Held(samples)) == Net(samples) % 4
  {
    hide Place, Step;
    if |samples| > 0 {
      var before := samples[..|samples| - 1];
      HeldIsNet(before);
      PlaceMoves(Held(before), samples[|samples| - 1], Net(before));
    } else {
      assert Place(0) == 0 by { PlaceZero(); }
    }
  }

  lemma PlaceZero()
    ensures Place(0) == 0
  {
  }

  lemma PlaceMoves(p: Pins, q: Pins, n: int)
    requires Place(p) == n % 4
    ensures Place(if Step(p, q) != 0 then q else p) == (n + Step(p, q)) % 4
  {
  }

  /** `(state << 2) & 0x0F | pins` */
  function Index(state: byte, pins: Pins): (i: nat)
    ensures i < 16
  {
    (state as int) * 4 % 16 + pins
  }

  /** `((state << 4) | idx) & 0xFF` */
  function Shifted(state: byte, idx: nat): byte
    requires idx < 16
  {
    ((state as int) * 16 + idx) % 0x100
  }

  /** The low nibble of the state codes the last accepted step: the pins before it and the pins after it. */
  ghost predicate Codes(state: byte, p: Pins, last: int) {
    var o: Pins := (state as int) % 16 / 4;
    (state as int) % 4 == p && Step(o, p) == last
  }

  class Qei {
    var state: byte
    var count: int

    /** All readings so far. */
    ghost var samples: seq<Pins>

    constructor ()
      ensures Valid() && count == 0 && samples == []
    {
      state, count, samples := 0, 0, [];
    }

    /** The counter trails the net number of steps by at most one, on the side of the last step. */
    ghost predicate Valid()
      reads this
    {
      var last, drift := LastStep(samples), Net(samples) - count;
      && -1 <= last <= 1 && Codes(state, Held(samples), last)
      && (last == 0 ==> drift == 0)
      && (last == 1 ==> 0 <= drift <= 1)
      && (last == -1 ==> -1 <= drift <= 0)
    }

    lemma Near()
      requires Valid()
      ensures -1 <= count - Net(samples) <= 1
    {
    }

    /** qei_update: one interrupt with the pins `pins`. */
    method Update(pins: Pins)
      requires Valid()
      modifies this
      ensures Valid() && samples == old(samples) + [pins]
      // the counter moves only on an accepted step in the direction of the one before
      ensures var s := Step(Held(old(samples)), pins);
        count == old(count) + if s == LastStep(old(samples)) then s else 0
    {
      hide Step, Place, Index, Shifted, Codes;
      ghost var p, last, s := Held(samples), LastStep(samples), Step(Held(samples), pins);
      StepRange(p, pins);
      assert (samples + [pins])[..|samples|] == samples;
      Transition(state, p, last, pins);
      var idx := Index(state, pins);
      if VALID_STATE[idx] {
        state := Shifted(state, idx);
        if state == 0x42 || state == 0xD4 || state == 0x2B || state == 0xBD {
          count := count - 1;
        } else if state == 0x81 || state == 0x17 || state == 0xE8 || state == 0x7E {
          count := count + 1;
        }
      }
      samples := samples + [pins];
    }
  }

  lemma StepRange(p: Pins, q: Pins)
    ensures -1 <= Step(p, q) <= 1
  {
  }

  /** One step after another: the table accepts exactly the single steps, and the new state is one of the four codes of
      two steps forward exactly if both steps went forward, and likewise backward. */
  lemma StepTable(o: Pins, p: Pins, q: Pins, n: byte)
    requires n as int == 64 * o + 20 * p + q
    ensures VALID_STATE[4 * p + q] <==> Step(p, q) != 0
    ensures (n == 0x42 || n == 0xD4 || n == 0x2B || n == 0xBD) <==> Step(o, p) == -1 && Step(p, q) == -1
    ensures (n == 0x81 || n == 0x17 || n == 0xE8 || n == 0x7E) <==> Step(o, p) == 1 && Step(p, q) == 1
  {
  }

  /** What qei_update computes from a state. */
  lemma Transition(state: byte, p: Pins, last: int, q: Pins)
    requires Codes(state, p, last)
    ensures var n := Shifted(state, Index(state, q));
      && (VALID_STATE[Index(state, q)] <==> Step(p, q) != 0)
      && Codes(n, q, Step(p, q))
      && ((n == 0x42 || n == 0xD4 || n == 0x2B || n == 0xBD) <==> last == -1 && Step(p, q) == -1)
      && ((n == 0x81 || n == 0x17 || n == 0xE8 || n == 0x7E) <==> last == 1 && Step(p, q) == 1)
  {
    hide Step, Shifted, Index;
    var o: Pins := (state as int) % 16 / 4;
    LowBits(state, o, p);
    ShiftedIs(state, o, p, q);
    StepTable(o, p, q, Shifted(state, Index(state, q)));
  }

  lemma LowBits(state: byte, o: Pins, p: Pins)
    requires o as int == (state as int) % 16 / 4 && p as int == (state as int) % 4
    ensures (state as int) % 16 == 4 * o + p
  {
    var x, y := (state as int) % 16, (state as int) / 16;
    DivModIs(state, 4, 4 * y + x / 4, x % 4);
  }

  /** The two pairs of pins in the low half of the state, and a third one shifted in. */
  lemma ShiftedIs(state: byte, o: Pins, p: Pins, q: Pins)
    requires (state as int) % 16 == 4 * o + p
    ensures Index(state, q) == 4 * p + q
    ensures var n := Shifted(state, Index(state, q)); n as int == 64 * o + 20 * p + q && (n as int) % 16 == 4 * p + q
  {
    var m := (state as int) / 16;
    assert state as int == 16 * m + 4 * o + p;
    DivModIs((state as int) * 4, 16, 4 * m + o, 4 * p);
    DivModIs((state as int) * 16 + 4 * p + q, 0x100, m, 64 * o + 20 * p + q);
    DivModIs(64 * o + 20 * p + q, 16, 4 * o + p, 4 * p + q);
  }

  /** From rest, for every sequence of readings: the counter differs from the net number of accepted quarter-steps by at
      most one. */
  method Decode(readings: seq<Pins>) returns (count: int)
    ensures -1 <= count - Net(readings) <= 1
  {
    hide Net, Held, LastStep, Qei.Valid;
    var qei := new Qei();
    var i := 0;
    while i < |readings|
      invariant 0 <= i <= |readings| && qei.Valid() && qei.samples == readings[..i]
    {
      qei.Update(readings[i]);
      assert readings[..i + 1] == readings[..i] + [readings[i]];
      i := i + 1;
    }
    assert readings[..i] == readings;
    qei.Near();
    count := qei.count;
  }
}
