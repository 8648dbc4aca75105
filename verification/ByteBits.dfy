/** Bytes as bit vectors: what the arithmetic on bytes means for their bits. */
module ByteBits {
  import opened Bytes

  /** The byte whose bits are `x`. */
  function Value(x: bv8): byte {
    x as int
  }

  lemma RotatedValue(x: bv8)
    ensures Value(x.RotateRight(1)) == Value(x) / 2 + Value(x) % 2 * 0x80
  {
  }

  lemma OddValue(x: bv8)
    ensures Value(x) % 2 == 1 <==> x & 1 == 1
  {
  }

  lemma HalfValue(x: bv8)
    ensures Value(x >> 1) == Value(x) / 2
  {
  }

  lemma NextValue(x: bv8)
    ensures Value(x + 1) == (Value(x) + 1) % 0x100 && Value(0) == 0
  {
  }

  lemma PreviousValue(x: bv8)
    requires x != 0
    ensures Value(x - 1) == Value(x) - 1
  {
  }

  function Sum(x: bv8, y: bv8): bv8 {
    x + y
  }

  function Previous(x: bv8): bv8 {
    x - 1
  }

  lemma Regrouped(x: bv8, y: bv8)
    ensures Sum(x, y) == Sum(x, Previous(y)) + 1
  {
  }

  lemma SumNothing(x: bv8, y: bv8)
    requires Value(y) == 0
    ensures Sum(x, y) == x
  {
  }

  lemma SumStep(x: bv8, y: bv8)
    requires Value(y) != 0
    ensures Value(Previous(y)) == Value(y) - 1
    ensures Value(Sum(x, y)) == (Value(Sum(x, Previous(y))) + 1) % 0x100
  {
    hide Value, Sum;
    NextValue(0);
    PreviousValue(y);
    Regrouped(x, y);
    NextValue(Sum(x, Previous(y)));
  }

  lemma OneMore(s: int, p: int, r: int)
    requires p == (s - 1) % 0x100 && r == (p + 1) % 0x100
    ensures r == s % 0x100
  {
  }

  /** The sum of two bytes is that of their values modulo 256. */
  lemma {:induction false} SumValue(x: bv8, y: bv8)
    ensures Value(Sum(x, y)) == (Value(x) + Value(y)) % 0x100
    decreases Value(y)
  {
    hide Value, Sum, Previous;
    if Value(y) == 0 {
      SumNothing(x, y);
    } else {
      SumStep(x, y);
      SumValue(x, Previous(y));
      OneMore(Value(x) + Value(y), Value(Sum(x, Previous(y))), Value(Sum(x, y)));
    }
  }
}
