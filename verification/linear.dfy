/** Integer helpers and two-component integer vectors (linear.c / linear.h).
    C `int` arithmetic is modelled with unbounded integers. */
module Linear {

  /** `V2i` of linear.h; the datatype constructor plays the role of `v2i(x, y)`. */
  datatype V2i = V2i(x: int, y: int)

  /** The four move directions of linear.h, with y growing downwards. */
  const DirectionRight := V2i(1, 0)
  const DirectionLeft := V2i(-1, 0)
  const DirectionUp := V2i(0, -1)
  const DirectionDown := V2i(0, 1)

  function Mini(a: int, b: int): (r: int)
    ensures r <= a && r <= b
    ensures r == a || r == b
  {
    if a < b then a else b
  }

  function Maxi(a: int, b: int): (r: int)
    ensures a <= r && b <= r
    ensures r == a || r == b
  {
    if a < b then b else a
  }

  lemma MiniLeMaxi(a: int, b: int)
    ensures Mini(a, b) <= Maxi(a, b)
    ensures Mini(a, b) + Maxi(a, b) == a + b
  {
  }

  /** `clampi(x, a, b)`: raise `x` to at least `a`, then cap it at `b`. */
  function Clampi(x: int, a: int, b: int): (r: int)
    ensures a <= b ==> a <= r <= b
    ensures a <= x <= b ==> r == x
    ensures x < a <= b ==> r == a
    ensures a <= b < x ==> r == b
    // with an empty range the upper bound wins
    ensures b < a ==> r == b
  {
    Mini(Maxi(a, x), b)
  }

  /** `v2i_add`: subtracting `b` again gives back `a`. */
  function V2iAdd(a: V2i, b: V2i): (r: V2i)
    ensures V2iSub(r, b) == a
  {
    V2i(a.x + b.x, a.y + b.y)
  }

  /** `v2i_sub`: the difference is what must be added to `b` to reach `a`. */
  function V2iSub(a: V2i, b: V2i): (r: V2i)
    ensures r.x + b.x == a.x && r.y + b.y == a.y
  {
    V2i(a.x - b.x, a.y - b.y)
  }

  /** `v2i_scale`: scaling by 1 keeps the vector, and the result is zero
      only when the factor or the vector is. */
  function V2iScale(a: V2i, scale: int): (r: V2i)
    ensures scale == 1 ==> r == a
    ensures r == V2i(0, 0) <==> scale == 0 || a == V2i(0, 0)
  {
    V2i(a.x * scale, a.y * scale)
  }

  /** `v2i_clamp`: for a non-empty box from `a` to `b` the result lies in
      the box, and a vector already inside is kept. Each component is
      clamped on its own: below the range it rises to the lower bound, above
      it drops to the upper one, and an empty range gives the upper bound. */
  function V2iClamp(x: V2i, a: V2i, b: V2i): (r: V2i)
    ensures a.x <= b.x && a.y <= b.y ==> a.x <= r.x <= b.x && a.y <= r.y <= b.y
    ensures a.x <= x.x <= b.x && a.y <= x.y <= b.y ==> r == x
    ensures a.x <= x.x <= b.x ==> r.x == x.x
    ensures x.x < a.x <= b.x ==> r.x == a.x
    ensures a.x <= b.x < x.x ==> r.x == b.x
    ensures b.x < a.x ==> r.x == b.x
    ensures a.y <= x.y <= b.y ==> r.y == x.y
    ensures x.y < a.y <= b.y ==> r.y == a.y
    ensures a.y <= b.y < x.y ==> r.y == b.y
    ensures b.y < a.y ==> r.y == b.y
  {
    V2i(Clampi(x.x, a.x, b.x), Clampi(x.y, a.y, b.y))
  }

  /** `v2i_eq`: the vectors are equal. */
  function V2iEq(a: V2i, b: V2i): (r: bool)
    ensures r <==> a == b
  {
    a.x == b.x && a.y == b.y
  }

  /** `reverse_direction`: the additive inverse of `d`. */
  function ReverseDirection(d: V2i): (r: V2i)
    ensures r.x + d.x == 0 && r.y + d.y == 0
  {
    V2i(-d.x, -d.y)
  }

  /** `v2i_scale` is scalar multiplication: scaling by 0 gives the zero
      vector, and scaling by a sum of factors adds the scaled vectors. With
      `V2iScale(a, 1) == a` this fixes `V2iScale(a, n)` as `n` copies of `a`. */
  lemma ScaleLinear(a: V2i, s: int, t: int)
    ensures V2iScale(a, 0) == V2i(0, 0)
    ensures V2iScale(a, s + t) == V2iAdd(V2iScale(a, s), V2iScale(a, t))
    ensures V2iScale(V2iScale(a, s), t) == V2iScale(a, s * t)
  {
  }

  lemma AddSubRoundTrip(a: V2i, b: V2i)
    ensures V2iSub(V2iAdd(a, b), b) == a
    ensures V2iAdd(V2iSub(a, b), b) == a
  {
  }

  lemma ReverseInvolution(d: V2i)
    ensures ReverseDirection(ReverseDirection(d)) == d
    ensures V2iAdd(d, ReverseDirection(d)) == V2i(0, 0)
    ensures V2iScale(d, -1) == ReverseDirection(d)
  {
  }

  /** Each of the four directions is a unit step, and opposite directions reverse each other. */
  lemma DirectionsAreUnitSteps()
    ensures ReverseDirection(DirectionLeft) == DirectionRight
    ensures ReverseDirection(DirectionUp) == DirectionDown
    ensures IsUnitStep(DirectionLeft) && IsUnitStep(DirectionRight)
    ensures IsUnitStep(DirectionUp) && IsUnitStep(DirectionDown)
  {
    assert IsUnitStep(DirectionLeft) && IsUnitStep(DirectionRight);
    assert IsUnitStep(DirectionUp) && IsUnitStep(DirectionDown);
    assert ReverseDirection(DirectionLeft) == DirectionRight;
  }

  /** Exactly one component is non-zero, and it is 1 or -1. */
  predicate IsUnitStep(d: V2i)
  {
    (d.x == 0) != (d.y == 0) && -1 <= d.x <= 1 && -1 <= d.y <= 1
  }

  /** A clamped vector lies in the box spanned by `a` and `b`, component by component. */
  lemma ClampComponentwise(x: V2i, a: V2i, b: V2i)
    requires a.x <= b.x && a.y <= b.y
    ensures var c := V2iClamp(x, a, b);
      a.x <= c.x <= b.x && a.y <= c.y <= b.y
    ensures (a.x <= x.x <= b.x && a.y <= x.y <= b.y) <==> V2iClamp(x, a, b) == x
  {
  }

  /** `v2i_clamp` is `clampi` applied to each component, for every box,
      empty ones included. */
  lemma ClampIsClampi(x: V2i, a: V2i, b: V2i)
    ensures V2iClamp(x, a, b) == V2i(Clampi(x.x, a.x, b.x), Clampi(x.y, a.y, b.y))
  {
  }

  /** `v2i_eq` is structural equality, hence an equivalence relation. */
  lemma V2iEqIsEquality(a: V2i, b: V2i, c: V2i)
    ensures V2iEq(a, b) <==> a == b
    ensures V2iEq(a, a)
    ensures V2iEq(a, b) ==> V2iEq(b, a)
    ensures V2iEq(a, b) && V2iEq(b, c) ==> V2iEq(a, c)
  {
  }
}
