/**
  `seg1dT<int>` (`seg1i`): a closed interval [min, max] of 32-bit ints.

  The queries (`contains`, `intersects`, `getIntersection`, ...) are const
  member functions over the two fields, so they are functions of the value
  `Span`; the mutators (`set`, `add`, `shift`, ...) are methods of `Seg1i`,
  which holds the two fields, each proved to leave the value given by a
  function of the old one.  A span whose max is below its min holds no
  point; `empty()` makes the emptiest one.
 */
module Vector1d {
  import opened Ints

  /** `std::numeric_limits<int>::max()` and `min()`. */
  const IntMax: int32 := TWO31 - 1
  const IntMin: int32 := -TWO31

  datatype Span = Span(min: int32, max: int32)

  predicate IsEmpty(s: Span)
  {
    s.max < s.min
  }

  /** The closed interval. */
  predicate Contains(s: Span, b: int)
  {
    s.min <= b && b <= s.max
  }

  /** The open interval. */
  predicate ContainsOpen(s: Span, b: int)
  {
    s.min < b && b < s.max
  }

  /** The interval closed on the left and open on the right. */
  predicate ContainsHalf(s: Span, b: int)
  {
    s.min <= b && b < s.max
  }

  /** `contains(const seg1d &b)`. */
  predicate ContainsSpan(s: Span, b: Span)
  {
    s.min <= b.min && b.max <= s.max
  }

  predicate Intersects(s: Span, b: Span)
  {
    Contains(s, b.min) || Contains(b, s.min)
  }

  predicate IntersectsOpen(s: Span, b: Span)
  {
    ContainsHalf(s, b.min) || ContainsOpen(b, s.min)
  }

  predicate IntersectsHalf(s: Span, b: Span)
  {
    ContainsHalf(s, b.min) || ContainsHalf(b, s.min)
  }

  /** `getLength`: `max - min` in int arithmetic, which wraps around for spans wider than the int range. */
  function Length(s: Span): (r: int32)
    ensures s.min <= s.max && s.max - s.min < TWO31 ==> r == s.max - s.min
  {
    Wrap32(s.max - s.min)
  }

  const Empty: Span := Span(IntMax, IntMin)

  const Infinity: Span := Span(IntMin, IntMax)

  function Intersection(s: Span, b: Span): (r: Span)
    ensures forall x :: Contains(r, x) <==> Contains(s, x) && Contains(b, x)
  {
    Span(if s.min > b.min then s.min else b.min, if s.max < b.max then s.max else b.max)
  }

  /** `getUnion`: the smallest span around both; for two disjoint spans it also holds the gap between them. */
  function Union(s: Span, b: Span): (r: Span)
    ensures forall x :: Contains(s, x) || Contains(b, x) ==> Contains(r, x)
    ensures forall t: Span :: ContainsSpan(t, s) && ContainsSpan(t, b) ==> ContainsSpan(t, r)
  {
    Span(if s.min < b.min then s.min else b.min, if s.max > b.max then s.max else b.max)
  }

  /** `set(a, b)`. */
  function Spanning(a: int32, b: int32): (r: Span)
    ensures r.min <= r.max && Contains(r, a) && Contains(r, b)
    ensures forall x :: Contains(r, x) <==> (a <= x <= b || b <= x <= a)
  {
    if a < b then Span(a, b) else Span(b, a)
  }

  function ExpandedMin(s: Span, b: int32): Span
  {
    if s.min > b then Span(b, s.max) else s
  }

  function ExpandedMax(s: Span, b: int32): Span
  {
    if s.max < b then Span(s.min, b) else s
  }

  /** `add(b)`: b is now contained, and so is every point that was. */
  function Added(s: Span, b: int32): (r: Span)
    ensures Contains(r, b)
    ensures forall x :: Contains(s, x) ==> Contains(r, x)
  {
    ExpandedMax(ExpandedMin(s, b), b)
  }

  /** `add(const seg1d &b)`. */
  function AddedSpan(s: Span, b: Span): Span
  {
    ExpandedMax(ExpandedMin(s, b.min), b.max)
  }

  function Shifted(s: Span, delta: int32): Span
  {
    Span(Wrap32(s.min + delta), Wrap32(s.max + delta))
  }

  // ---------------------------------------------------------------------
  // What the operations mean.

  /** `empty()` holds no point; `infinity()` holds every int. */
  lemma EmptyAndInfinity(x: int32)
    ensures IsEmpty(Empty) && !Contains(Empty, x)
    ensures !IsEmpty(Infinity) && Contains(Infinity, x)
  {
  }

  /** Adding a span is taking the union with it. */
  lemma AddedSpanIsUnion(s: Span, b: Span)
    ensures AddedSpan(s, b) == Union(s, b)
  {
  }

  /** Adding a point to the empty span gives the one-point span. */
  lemma AddedToEmpty(b: int32)
    ensures Added(Empty, b) == Span(b, b)
  {
  }

  /** The union of an empty span with b is b. */
  lemma UnionWithEmpty(b: Span)
    ensures Union(Empty, b) == b
  {
  }

  /** Shifting keeps the length, wrap-around included. */
  lemma ShiftedLength(s: Span, delta: int32)
    ensures Length(Shifted(s, delta)) == Length(s)
  {
    var a, b := s.min + delta, s.max + delta;
    var ka := WrapOffset(a);
    var kb := WrapOffset(b);
    assert Wrap32(b) - Wrap32(a) == (s.max - s.min) + (kb - ka) * TWO32;
    WrapPeriod(s.max - s.min, kb - ka);
  }

  /** Wrapping adds a multiple of 2^32. */
  lemma WrapOffset(x: int) returns (k: int)
    ensures Wrap32(x) == x + k * TWO32
  {
    var q, m := x / TWO32, x % TWO32;
    assert x == q * TWO32 + m;
    k := if m < TWO31 then -q else -q - 1;
  }

  lemma WrapPeriod(x: int, k: int)
    ensures Wrap32(x + k * TWO32) == Wrap32(x)
  {
    var q, m := x / TWO32, x % TWO32;
    assert x + k * TWO32 == (q + k) * TWO32 + m;
    assert (x + k * TWO32) % TWO32 == m;
  }

  /** Without overflow, what a span contains moves with it. */
  lemma ShiftedContains(s: Span, delta: int32, x: int)
    requires IntMin <= s.min + delta <= IntMax && IntMin <= s.max + delta <= IntMax
    ensures Contains(Shifted(s, delta), x + delta) <==> Contains(s, x)
  {
  }

  /** Open, half-open and closed membership nest. */
  lemma MembershipNests(s: Span, x: int)
    ensures ContainsOpen(s, x) ==> ContainsHalf(s, x)
    ensures ContainsHalf(s, x) ==> Contains(s, x)
  {
  }

  /**
    `contains(b)` says what its comment promises for a non-empty b: the
    intersection of this and b is b, and every point of b is a point of
    this.
   */
  lemma ContainsSpanMeaning(s: Span, b: Span)
    requires !IsEmpty(b)
    ensures ContainsSpan(s, b) <==> Intersection(s, b) == b
    ensures ContainsSpan(s, b) <==> forall x :: Contains(b, x) ==> Contains(s, x)
  {
    if forall x :: Contains(b, x) ==> Contains(s, x) {
      assert Contains(b, b.min) && Contains(b, b.max);
    }
  }

  /** For non-empty spans, `intersects` holds iff some point lies in both. */
  lemma IntersectsMeaning(s: Span, b: Span)
    requires !IsEmpty(s) && !IsEmpty(b)
    ensures Intersects(s, b) <==> exists x :: Contains(s, x) && Contains(b, x)
  {
    if Intersects(s, b) {
      if Contains(s, b.min) {
        assert Contains(s, b.min) && Contains(b, b.min);
      } else {
        assert Contains(s, s.min) && Contains(b, s.min);
      }
    }
  }

  /**
    For spans with some room (min < max), `intersectsHalf` holds iff the
    half-open intervals share a point.
   */
  lemma IntersectsHalfMeaning(s: Span, b: Span)
    requires s.min < s.max && b.min < b.max
    ensures IntersectsHalf(s, b) <==> exists x :: ContainsHalf(s, x) && ContainsHalf(b, x)
  {
    if IntersectsHalf(s, b) {
      if ContainsHalf(s, b.min) {
        assert ContainsHalf(s, b.min) && ContainsHalf(b, b.min);
      } else {
        assert ContainsHalf(s, s.min) && ContainsHalf(b, s.min);
      }
    }
  }

  /**
    For spans with some room, `intersectsOpen` holds iff the two intervals
    overlap in more than a point: the larger min lies below the smaller
    max, which is what sharing an interior point means for the real
    intervals the template also serves.
   */
  lemma IntersectsOpenMeaning(s: Span, b: Span)
    requires s.min < s.max && b.min < b.max
    ensures IntersectsOpen(s, b) <==> Intersection(s, b).min < Intersection(s, b).max
  {
  }

  /**
    A `seg1i` object.  `seg1dT(void)` starts out empty, `seg1dT(val)` as the
    single point and `seg1dT(min, max)` with the fields as given.
   */
  class Seg1i {
    var min: int32
    var max: int32

    function Value(): Span
      reads this
    {
      Span(min, max)
    }

    constructor ()
      ensures Value() == Empty
    {
      min, max := IntMax, IntMin;
    }

    constructor Point(val: int32)
      ensures Value() == Span(val, val)
    {
      min, max := val, val;
    }

    constructor Between(nmin: int32, nmax: int32)
      ensures Value() == Span(nmin, nmax)
    {
      min, max := nmin, nmax;
    }

    /** `init(a)`. */
    method InitPoint(a: int32)
      modifies this
      ensures Value() == Span(a, a)
    {
      min, max := a, a;
    }

    /** `init(a, b)`. */
    method InitRange(a: int32, b: int32)
      modifies this
      ensures Value() == Spanning(a, b)
    {
      SetRange(a, b);
    }

    /** `init(a, b, c)`: the smallest span holding all three. */
    method InitThree(a: int32, b: int32, c: int32)
      modifies this
      ensures Value() == Added(Spanning(a, b), c)
      ensures Contains(Value(), a) && Contains(Value(), b) && Contains(Value(), c)
    {
      SetRange(a, b);
      AddPoint(c);
    }

    method SetMinMax(lo: int32, hi: int32)
      modifies this
      ensures Value() == Span(lo, hi)
    {
      min, max := lo, hi;
    }

    method Shift(delta: int32)
      modifies this
      ensures Value() == Shifted(old(Value()), delta)
      ensures Length(Value()) == Length(old(Value()))
    {
      min := Wrap32(min + delta);
      max := Wrap32(max + delta);
      ShiftedLength(old(Value()), delta);
    }

    /** `empty()`. */
    method MakeEmpty()
      modifies this
      ensures Value() == Empty && IsEmpty(Value())
    {
      min, max := IntMax, IntMin;
    }

    /** `infinity()`. */
    method MakeInfinity()
      modifies this
      ensures Value() == Infinity
      ensures forall x: int32 :: Contains(Value(), x)
    {
      min, max := IntMin, IntMax;
    }

    /** `set(b)`. */
    method SetPoint(b: int32)
      modifies this
      ensures Value() == Span(b, b)
    {
      min, max := b, b;
    }

    /** `set(a, b)`. */
    method SetRange(a: int32, b: int32)
      modifies this
      ensures Value() == Spanning(a, b)
    {
      if a < b {
        min, max := a, b;
      } else {
        min, max := b, a;
      }
    }

    method ExpandMin(b: int32)
      modifies this
      ensures Value() == ExpandedMin(old(Value()), b)
    {
      if min > b {
        min := b;
      }
    }

    method ExpandMax(b: int32)
      modifies this
      ensures Value() == ExpandedMax(old(Value()), b)
    {
      if max < b {
        max := b;
      }
    }

    /** `add(b)`. */
    method AddPoint(b: int32)
      modifies this
      ensures Value() == Added(old(Value()), b)
    {
      ExpandMin(b);
      ExpandMax(b);
    }

    /** `add(const seg1d &b)`. */
    method AddSpan(b: Span)
      modifies this
      ensures Value() == AddedSpan(old(Value()), b) == Union(old(Value()), b)
    {
      ExpandMin(b.min);
      ExpandMax(b.max);
      AddedSpanIsUnion(old(Value()), b);
    }
  }
}
