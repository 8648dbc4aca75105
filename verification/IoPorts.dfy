/** Claiming auxiliary pins (claim in ioports.c, for inputs and outputs, and in ioports_analog.c): the map from logical
    port numbers to pins. */
module IoPorts {
  import opened Bytes

  /** Every pin has exactly one logical number. */
  ghost predicate IsPermutation(m: seq<byte>) {
    && (forall i :: 0 <= i < |m| ==> m[i] < |m|)
    && (forall i, j :: 0 <= i < j < |m| ==> m[i] != m[j])
  }

  /** The logical number of pin `p`. */
  ghost predicate NumberOf(m: seq<byte>, p: byte, i: nat) {
    i < |m| && m[i] == p
  }

  /** Different numbers below |m| in all places: each number occurs. */
  lemma {:induction false} EachOccurs(m: seq<byte>, n: nat, p: nat)
    requires |m| == n && p < n && n <= 0x100
    requires (forall i :: 0 <= i < n ==> m[i] < n) && (forall i, j :: 0 <= i < j < n ==> m[i] != m[j])
    ensures p in m
    decreases n
  {
    if p !in m {
      // n different values other than p below n: replace the value n - 1 by p and drop its place
      if p == n - 1 {
        Crowded(m, n - 1);
      } else {
        var q := seq<byte>(n, i requires 0 <= i < n => if m[i] == n - 1 then p else m[i]);
        Crowded(q, n - 1);
      }
    }
  }

  /** More places than values. */
  lemma {:induction false} Crowded(m: seq<byte>, n: nat)
    requires |m| == n + 1 && (forall i :: 0 <= i < |m| ==> m[i] < n)
    requires (forall i, j :: 0 <= i < j < |m| ==> m[i] != m[j])
    ensures false
    decreases n
  {
    var last := m[n];
    if n > 0 {
      var q := seq<byte>(n, i requires 0 <= i < n => if m[i] == n - 1 then last else m[i]);
      Crowded(q, n - 1);
    }
  }

  /** `m` without the element at `i`. */
  function Without(m: seq<byte>, i: nat): seq<byte>
    requires i < |m|
  {
    m[..i] + m[i + 1..]
  }

  /** Where element `k` comes from when element `lo` moves behind the elements up to `hi`. */
  function From(lo: nat, hi: nat, k: nat): nat {
    if lo <= k < hi then k + 1 else if k == hi then lo else k
  }

  ghost predicate Rotated(m: seq<byte>, r: seq<byte>, lo: nat, hi: nat) {
    lo <= hi < |m| && |r| == |m| && forall k :: 0 <= k < |m| ==> From(lo, hi, k) < |m| && r[k] == m[From(lo, hi, k)]
  }

  /** Rotation keeps a permutation, and the order of the other elements. */
  lemma RotatedPermutation(m: seq<byte>, r: seq<byte>, lo: nat, hi: nat)
    requires Rotated(m, r, lo, hi) && IsPermutation(m)
    ensures IsPermutation(r) && r[..hi] == Without(m[..hi + 1], lo)
    ensures (forall i, j :: 0 <= i < j <= hi ==> m[i] < m[j]) ==> forall i, j :: 0 <= i < j < hi ==> r[i] < r[j]
  {
    forall i, j | 0 <= i < j < |r|
      ensures r[i] != r[j]
    {
      assert r[i] == m[From(lo, hi, i)] && r[j] == m[From(lo, hi, j)];
    }
    forall i | 0 <= i < |r|
      ensures r[i] < |r|
    {
      assert r[i] == m[From(lo, hi, i)];
    }
    forall k | 0 <= k < hi
      ensures r[k] == Without(m[..hi + 1], lo)[k]
    {
      assert r[k] == m[From(lo, hi, k)];
    }
    if forall i, j :: 0 <= i < j <= hi ==> m[i] < m[j] {
      forall i, j | 0 <= i < j < hi
        ensures r[i] < r[j]
      {
        assert r[i] == m[From(lo, hi, i)] && r[j] == m[From(lo, hi, j)];
      }
    }
  }

  /** The shifting loop of claim and the store behind it. */
  method Rotate(a: array<byte>, lo: nat, hi: nat, port: byte)
    requires lo <= hi < a.Length && a[lo] == port
    modifies a
    ensures Rotated(old(a[..]), a[..], lo, hi)
  {
    var i := lo;
    while i < hi
      invariant lo <= i <= hi
      invariant forall k :: 0 <= k < a.Length && !(lo <= k < i) ==> a[k] == old(a[k])
      invariant forall k :: lo <= k < i ==> a[k] == old(a[k + 1])
    {
      a[i] := a[i + 1];
      i := i + 1;
    }
    a[hi] := port;
  }

  /** The map is a permutation; the unclaimed pins have the numbers below `num`, in their original order. */
  ghost predicate PinsOk(m: seq<byte>, c: seq<bool>, num: nat) {
    && |m| == |c| <= 0xFF && num <= |m| && IsPermutation(m)
    && (forall i :: 0 <= i < |m| ==> (c[m[i]] <==> i >= num))
    && (forall i, j :: 0 <= i < j < num ==> m[i] < m[j])
  }

  /** What claim does to map and flags keeps that. */
  lemma ClaimStep(m: seq<byte>, c: seq<bool>, num: nat, r: seq<byte>, port: byte, idx: nat)
    requires PinsOk(m, c, num) && NumberOf(m, port, idx) && !c[port] && num > 0 && Rotated(m, r, idx, num - 1)
    ensures PinsOk(r, c[port := true], num - 1) && NumberOf(r, port, num - 1)
    ensures idx < num && r[..num - 1] == Without(m[..num], idx) && forall i :: num <= i < |m| ==> r[i] == m[i]
  {
    RotatedPermutation(m, r, idx, num - 1);
    assert r[num - 1] == m[From(idx, num - 1, num - 1)];
    forall i | 0 <= i < |r|
      ensures c[port := true][r[i]] <==> i >= num - 1
    {
      assert r[i] == m[From(idx, num - 1, i)];
      if i != num - 1 { assert r[i] != r[num - 1]; }
    }
    forall i | num <= i < |m|
      ensures r[i] == m[i]
    {
      assert r[i] == m[From(idx, num - 1, i)];
    }
  }

  lemma Unclaimed(m: seq<byte>, c: seq<bool>, num: nat, port: byte, idx: nat)
    requires PinsOk(m, c, num) && NumberOf(m, port, idx)
    ensures port < |c| && (!c[port] ==> idx < num)
  {
  }

  /** A group of pins of one direction: the map, the claimed flags and hal.port.num_..., the number of unclaimed
      pins. */
  class Pins {
    const pinMap: array<byte>
    const claimed: array<bool>
    var num: nat

    /** All pins unclaimed, numbered in order. */
    constructor (n: nat)
      requires n <= 0xFF
      ensures Valid() && num == n == pinMap.Length && forall i :: 0 <= i < n ==> pinMap[i] == i
      ensures fresh(pinMap) && fresh(claimed)
    {
      pinMap := new byte[n](i requires 0 <= i < n <= 0xFF => i);
      claimed := new bool[n](_ => false);
      num := n;
      new;
      assert forall i :: 0 <= i < n ==> pinMap[..][i] == i;
    }

    ghost predicate Valid()
      reads this, pinMap, claimed
    {
      PinsOk(pinMap[..], claimed[..], num)
    }

    /** ioports_map_reverse: searches from the end. */
    method MapReverse(port: byte) returns (idx: byte)
      requires Valid() && port < pinMap.Length
      ensures NumberOf(pinMap[..], port, idx)
    {
      EachOccurs(pinMap[..], pinMap.Length, port);
      var i := pinMap.Length;
      while true
        invariant 0 < i <= pinMap.Length && forall k :: i <= k < pinMap.Length ==> pinMap[..][k] != port
        decreases i
      {
        i := i - 1;
        if pinMap[i] == port { return i; }
        if i == 0 { break; }
      }
      idx := port;
    }

    /** claim: takes pin `port` out of the unclaimed ones; its new logical number is the first one behind them, and no
        logical number of a pin claimed before changes. */
    method Claim(port: byte) returns (ok: bool, number: byte)
      requires Valid()
      modifies this`num, pinMap, claimed
      ensures Valid()
      ensures ok <==> port < pinMap.Length && !old(claimed[..])[port]
      ensures !ok ==>
        num == old(num) && pinMap[..] == old(pinMap[..]) && claimed[..] == old(claimed[..]) && number == port
      ensures ok ==> num == old(num) - 1 && number as int == num && NumberOf(pinMap[..], port, number)
      ensures ok ==> claimed[..] == old(claimed[..])[port := true]
      ensures ok ==> forall i :: old(num) <= i < pinMap.Length ==> pinMap[i] == old(pinMap[i])
      ensures ok ==>
        exists i :: 0 <= i < old(num) && old(pinMap[i]) == port
                    && pinMap[..num] == Without(old(pinMap[..])[..old(num)], i)
    {
      hide PinsOk, IsPermutation, Rotated;
      number := port;
      Sizes();
      ok := (port as int) < pinMap.Length && !claimed[port];
      if !ok { return; }
      var idx := MapReverse(port);
      ghost var m, c := pinMap[..], claimed[..];
      Unclaimed(m, c, num, port, idx);
      num := num - 1;
      Rotate(pinMap, idx, num, port);
      claimed[port] := true;
      number := num;
      ClaimStep(m, c, old(num), pinMap[..], port, idx);
      assert claimed[..] == c[port := true];
    }

    lemma Sizes()
      requires Valid()
      ensures pinMap.Length == claimed.Length <= 0xFF && num <= pinMap.Length
    {
    }
  }

  /** The numbers handed out so far denote their pins and lie behind the unclaimed ones. */
  ghost predicate AllDenote(m: seq<byte>, c: seq<bool>, num: nat, ports: seq<byte>, numbers: seq<byte>,
                            oks: seq<bool>)
  {
    && |numbers| == |oks| <= |ports| && |c| == |m|
    && (forall k :: 0 <= k < |numbers| && oks[k] ==> NumberOf(m, ports[k], numbers[k]) && numbers[k] >= num)
    && forall k :: 0 <= k < |numbers| && ports[k] < |m| ==> c[ports[k]]
  }

  /** One more claim: successful, or of a pin that is claimed or none of the group. */
  lemma DenoteStep(m: seq<byte>, c: seq<bool>, num: nat, r: seq<byte>, d: seq<bool>, num1: nat, ports: seq<byte>,
                   numbers: seq<byte>, oks: seq<bool>, n: byte, ok: bool)
    requires AllDenote(m, c, num, ports, numbers, oks) && |numbers| < |ports| && |r| == |m|
    requires ok <==> ports[|numbers|] < |m| && !c[ports[|numbers|]]
    requires !ok ==> r == m && d == c && num1 == num
    requires ok ==> d == c[ports[|numbers|] := true] && n as int == num1 < num && NumberOf(r, ports[|numbers|], n)
    requires ok ==> forall i :: num <= i < |m| ==> r[i] == m[i]
    ensures AllDenote(r, d, num1, ports, numbers + [n], oks + [ok])
  {
  }

  /** Any sequence of claims: every logical number handed out keeps denoting the pin it was handed out for. */
  method ClaimAll(pins: Pins, ports: seq<byte>) returns (numbers: seq<byte>, oks: seq<bool>)
    requires pins.Valid()
    modifies pins`num, pins.pinMap, pins.claimed
    ensures pins.Valid() && |numbers| == |oks| == |ports|
    ensures forall k :: 0 <= k < |ports| && oks[k] ==> NumberOf(pins.pinMap[..], ports[k], numbers[k])
    ensures forall i :: old(pins.num) <= i < pins.pinMap.Length ==> pins.pinMap[i] == old(pins.pinMap[i])
    ensures forall k :: 0 <= k < |ports| && ports[k] < pins.pinMap.Length ==> pins.claimed[ports[k]]
  {
    hide AllDenote, PinsOk, NumberOf;
    numbers, oks := [], [];
    pins.Sizes();
    NoneDenote(pins.pinMap[..], pins.claimed[..], pins.num, ports);
    while |numbers| < |ports|
      invariant pins.Valid() && |numbers| == |oks| <= |ports| && pins.num <= old(pins.num)
      invariant AllDenote(pins.pinMap[..], pins.claimed[..], pins.num, ports, numbers, oks)
      invariant forall i :: old(pins.num) <= i < pins.pinMap.Length ==> pins.pinMap[i] == old(pins.pinMap[i])
    {
      ghost var m, c, num := pins.pinMap[..], pins.claimed[..], pins.num;
      var ok, n := pins.Claim(ports[|numbers|]);
      pins.Sizes();
      DenoteStep(m, c, num, pins.pinMap[..], pins.claimed[..], pins.num, ports, numbers, oks, n, ok);
      numbers, oks := numbers + [n], oks + [ok];
    }
    Denoted(pins.pinMap[..], pins.claimed[..], pins.num, ports, numbers, oks);
  }

  lemma NoneDenote(m: seq<byte>, c: seq<bool>, num: nat, ports: seq<byte>)
    requires |c| == |m|
    ensures AllDenote(m, c, num, ports, [], [])
  {
  }

  lemma Denoted(m: seq<byte>, c: seq<bool>, num: nat, ports: seq<byte>, numbers: seq<byte>, oks: seq<bool>)
    requires AllDenote(m, c, num, ports, numbers, oks) && |numbers| == |ports|
    ensures forall k :: 0 <= k < |ports| && oks[k] ==> NumberOf(m, ports[k], numbers[k])
    ensures forall k :: 0 <= k < |ports| && ports[k] < |m| ==> c[ports[k]]
  {
  }
}
