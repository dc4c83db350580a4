/**
 Table lookup with linear interpolation, bertos/algo/table.c: a binary search and a division that
 truncates toward zero.
 */
module Table {
  import opened Division
  import opened Registers

  datatype Point = Point(x: int, y: int)

  ghost predicate Sorted(t: seq<Point>) {
    forall i, j :: 0 <= i < j < |t| ==> t[i].x <= t[j].x
  }

  predicate Below(t: seq<Point>, x: int, j: nat) {
    j < |t| && t[j].x <= x
  }

  /** The first index whose `x` is greater. */
  ghost predicate IsUpper(t: seq<Point>, x: int, i: nat) {
    && i <= |t|
    && (forall j :: 0 <= j < i ==> t[j].x <= x)
    && (forall j :: i <= j < |t| ==> x < t[j].x)
  }

  /** There is exactly one such index. */
  lemma UpperIsUnique(t: seq<Point>, x: int, i: nat, j: nat)
    requires IsUpper(t, x, i) && IsUpper(t, x, j)
    ensures i == j
  {
    assert !Below(t, x, i) && !Below(t, x, j);
  }

  function Upper(t: seq<Point>, x: int): (i: nat)
    requires Sorted(t)
    ensures IsUpper(t, x, i)
    decreases |t|
  {
    if t != [] && x < t[|t| - 1].x then Upper(t[..|t| - 1], x) else |t|
  }

  /** `upper_bound`. */
  method UpperBound(t: seq<Point>, x: int) returns (i: nat)
    requires Sorted(t)
    ensures IsUpper(t, x, i) && i == Upper(t, x)
  {
    i := 0;
    var size := |t|;
    while size > 0
      invariant 0 <= size && i + size <= |t|
      invariant forall j :: 0 <= j < i ==> t[j].x <= x
      invariant forall j :: i + size <= j < |t| ==> x < t[j].x
      decreases size
    {
      var pos := size / 2;
      if x < t[i + pos].x {
        size := pos;
      } else {
        i, size := i + (pos + 1), size - (pos + 1);
      }
    }
    UpperIsUnique(t, x, i, Upper(t, x));
  }

  /** The C division, which truncates toward zero. */
  function Quotient(n: int, d: int): int
    requires d != 0
  {
    if n >= 0 then (if d > 0 then n / d else -(n / -d))
    else if d > 0 then -((-n) / d) else (-n) / -d
  }

  /** The line from `p` to `q` at `x`, truncated but not cut to any width. */
  function Line(p: Point, q: Point, x: int): int
    requires p.x < q.x
  {
    Quotient((x - p.x) * (q.y - p.y), q.x - p.x) + p.y
  }

  /** The same in registers, `int` and `long` having 32 bits. */
  function Line32(p: Point, q: Point, x: int): int
    requires p.x < q.x && Fits(p.x) && Fits(q.x)
  {
    NeverZero(q.x - p.x);
    var (dy, dx) := (Int32(q.y - p.y), Int32(q.x - p.x));
    Int32(Quotient(Int32(Int32(x - p.x) * dy), dx) + p.y)
  }

  /** A difference of two different `int` values keeps some bit. */
  lemma NeverZero(d: int)
    requires 0 < d < 0x1_0000_0000
    ensures Int32(d) != 0
  {
  }

  /** The values are `int`. */
  ghost predicate Ints(t: seq<Point>) {
    forall i :: 0 <= i < |t| ==> Fits(t[i].x) && Fits(t[i].y)
  }

  /** The exact interpolation, without registers. */
  function Lookup(t: seq<Point>, x: int): int
    requires t != [] && Sorted(t)
  {
    var i := Upper(t, x);
    if i == 0 then t[0].y else if i == |t| then t[|t| - 1].y else Line(t[i - 1], t[i], x)
  }

  /** What the source computes. */
  function Lookup32(t: seq<Point>, x: int): int
    requires t != [] && Sorted(t) && Ints(t)
  {
    var i := Upper(t, x);
    if i == 0 then t[0].y else if i == |t| then t[|t| - 1].y else Line32(t[i - 1], t[i], x)
  }

  /** `table_linearInterpolation`: the divisor is never zero. */
  method Interpolate(t: seq<Point>, x: int) returns (y: int)
    requires t != [] && Sorted(t) && Ints(t)
    ensures y == Lookup32(t, x)
  {
    var i := UpperBound(t, x);
    if i == 0 {
      return t[0].y;
    }
    if i == |t| {
      return t[|t| - 1].y;
    }
    assert t[i - 1].x <= x < t[i].x;
    NeverZero(t[i].x - t[i - 1].x);
    var dy := Int32(t[i].y - t[i - 1].y);
    var dx := Int32(t[i].x - t[i - 1].x);
    y := Int32(Quotient(Int32(Int32(x - t[i - 1].x) * dy), dx) + t[i - 1].y);
  }

  // ----- The truncating quotient -----

  lemma Rises(a: int, b: int, d: int)
    requires d > 0 && a <= b
    ensures Quotient(a, d) <= Quotient(b, d)
  {
    if a >= 0 {
      Floors(a, b, d);
    } else if b < 0 {
      Floors(-b, -a, d);
    } else {
      Floors(0, -a, d);
      Floors(0, b, d);
    }
  }

  lemma Floors(a: nat, b: nat, d: int)
    requires d > 0 && a <= b
    ensures a / d <= b / d
  {
    var k := a / d - b / d;
    assert d * k == d * (a / d) - d * (b / d);
    assert k >= 1 ==> d * k >= d;
  }

  lemma Exact(n: int, d: int)
    requires d > 0
    ensures Quotient(n * d, d) == n
  {
    if n >= 0 {
      Divides(n, d, 0);
    } else {
      Divides(-n, d, 0);
      assert -(n * d) == (-n) * d;
      assert n * d < 0;
    }
  }

  // ----- One segment -----

  /** Between two points the result lies between their values. */
  lemma LineStaysBetween(p: Point, q: Point, x: int)
    requires p.x <= x < q.x
    ensures p.y <= q.y ==> p.y <= Line(p, q, x) <= q.y
    ensures q.y <= p.y ==> q.y <= Line(p, q, x) <= p.y
  {
    var (n, dy, dx) := (x - p.x, q.y - p.y, q.x - p.x);
    Exact(0, dx);
    Exact(dy, dx);
    if dy >= 0 {
      assert 0 * dx <= n * dy <= dy * dx;
      Rises(0 * dx, n * dy, dx);
      Rises(n * dy, dy * dx, dx);
    } else {
      assert dy * dx <= n * dy <= 0 * dx;
      Rises(dy * dx, n * dy, dx);
      Rises(n * dy, 0 * dx, dx);
    }
  }

  lemma LineRises(p: Point, q: Point, x: int, z: int)
    requires p.x <= x <= z < q.x
    ensures p.y <= q.y ==> Line(p, q, x) <= Line(p, q, z)
    ensures q.y <= p.y ==> Line(p, q, z) <= Line(p, q, x)
  {
    var (dy, dx) := (q.y - p.y, q.x - p.x);
    if dy >= 0 {
      assert (x - p.x) * dy <= (z - p.x) * dy;
      Rises((x - p.x) * dy, (z - p.x) * dy, dx);
    }
    if dy <= 0 {
      assert (z - p.x) * dy <= (x - p.x) * dy;
      Rises((z - p.x) * dy, (x - p.x) * dy, dx);
    }
  }

  lemma LineStarts(p: Point, q: Point)
    requires p.x < q.x && Fits(p.x) && Fits(q.x) && Fits(p.y)
    ensures Line32(p, q, p.x) == p.y
  {
    NeverZero(q.x - p.x);
    assert Quotient(0, Int32(q.x - p.x)) == 0;
  }

  // ----- When nothing wraps -----

  /** No register cuts anything at the query `x`. */
  predicate Whole(p: Point, q: Point, x: int) {
    Fits(x - p.x) && Fits(q.x - p.x) && Fits(q.y - p.y) && Fits((x - p.x) * (q.y - p.y))
  }

  /** Something to look at in the table: the differences fit, and so does the largest product. */
  predicate Roomy(p: Point, q: Point) {
    Fits(q.x - p.x) && Fits(q.y - p.y) && Fits((q.x - 1 - p.x) * (q.y - p.y))
  }

  lemma ProductInside(n: nat, m: nat, dy: int)
    requires n <= m && Fits(m * dy)
    ensures Fits(n * dy)
  {
    if dy >= 0 {
      assert 0 <= n * dy <= m * dy;
    } else {
      assert m * dy <= n * dy <= 0;
    }
  }

  /** Nothing wraps anywhere on a segment if and only if the segment has room. */
  lemma WholeExactly(p: Point, q: Point)
    requires p.x < q.x
    ensures (forall x :: p.x <= x < q.x ==> Whole(p, q, x)) <==> Roomy(p, q)
  {
    if Roomy(p, q) {
      forall x | p.x <= x < q.x ensures Whole(p, q, x) {
        ProductInside(x - p.x, q.x - 1 - p.x, q.y - p.y);
      }
    }
    if forall x :: p.x <= x < q.x ==> Whole(p, q, x) {
      assert Whole(p, q, q.x - 1);
    }
  }

  lemma WholeIsExact(p: Point, q: Point, x: int)
    requires p.x <= x < q.x && Fits(p.x) && Fits(q.x) && Fits(p.y) && Fits(q.y) && Whole(p, q, x)
    ensures Line32(p, q, x) == Line(p, q, x)
  {
    LineStaysBetween(p, q, x);
  }

  /** Every segment of the table has room. */
  ghost predicate AllRoomy(t: seq<Point>) {
    forall i: nat :: RoomyAt(t, i)
  }

  predicate RoomyAt(t: seq<Point>, i: nat) {
    0 < i < |t| && t[i - 1].x < t[i].x ==> Roomy(t[i - 1], t[i])
  }

  ghost predicate WholeAt(t: seq<Point>, x: int)
    requires Sorted(t)
  {
    var i := Upper(t, x);
    0 < i < |t| ==> Whole(t[i - 1], t[i], x)
  }

  /** No query of the table makes anything wrap if and only if every segment has room. */
  lemma TableIsWhole(t: seq<Point>)
    requires Sorted(t)
    ensures (forall x :: WholeAt(t, x)) <==> AllRoomy(t)
  {
    if AllRoomy(t) {
      forall x ensures WholeAt(t, x) {
        var i := Upper(t, x);
        assert RoomyAt(t, i);
        if 0 < i < |t| {
          WholeExactly(t[i - 1], t[i]);
        }
      }
    }
    if forall x :: WholeAt(t, x) {
      forall i: nat ensures RoomyAt(t, i) {
        if 0 < i < |t| && t[i - 1].x < t[i].x {
          var (p, q) := (t[i - 1], t[i]);
          forall x | p.x <= x < q.x ensures Whole(p, q, x) {
            assert WholeAt(t, x);
            UpperIsUnique(t, x, i, Upper(t, x));
          }
          WholeExactly(p, q);
        }
      }
    }
  }

  /** On such a table the source computes the exact interpolation. */
  lemma RoomyIsExact(t: seq<Point>, x: int)
    requires t != [] && Sorted(t) && Ints(t) && AllRoomy(t)
    ensures Lookup32(t, x) == Lookup(t, x)
  {
    var i := Upper(t, x);
    assert RoomyAt(t, i);
    if 0 < i < |t| {
      WholeExactly(t[i - 1], t[i]);
      WholeIsExact(t[i - 1], t[i], x);
    }
  }

  /** Two points whose product of differences wraps: the result leaves the range of their values. */
  lemma WrappedLookup()
    ensures var t := [Point(0, 0), Point(65536, 65536)];
            Sorted(t) && Ints(t) && !AllRoomy(t) && Lookup32(t, 65535) == -1
  {
    var t := [Point(0, 0), Point(65536, 65536)];
    assert !RoomyAt(t, 1);
    UpperIsUnique(t, 65535, 1, Upper(t, 65535));
    assert Int32(65535 * 65536) == -65536;
  }

  // ----- Results about the lookup -----

  /** The value on the left of a query, or the first one. */
  function Left(t: seq<Point>, x: int): int
    requires t != [] && Sorted(t)
  {
    var i := Upper(t, x);
    t[if i == 0 then 0 else i - 1].y
  }

  /** The value on its right, or the last one. */
  function Right(t: seq<Point>, x: int): int
    requires t != [] && Sorted(t)
  {
    var i := Upper(t, x);
    t[if i == |t| then |t| - 1 else i].y
  }

  lemma LookupIsBetween(t: seq<Point>, x: int)
    requires t != [] && Sorted(t)
    ensures Left(t, x) <= Right(t, x) ==> Left(t, x) <= Lookup(t, x) <= Right(t, x)
    ensures Right(t, x) <= Left(t, x) ==> Right(t, x) <= Lookup(t, x) <= Left(t, x)
  {
    var i := Upper(t, x);
    if 0 < i < |t| {
      LineStaysBetween(t[i - 1], t[i], x);
    }
  }

  /** The result lies between the neighbouring values. */
  lemma ResultIsBetween(t: seq<Point>, x: int)
    requires t != [] && Sorted(t) && Ints(t) && AllRoomy(t)
    ensures Left(t, x) <= Right(t, x) ==> Left(t, x) <= Lookup32(t, x) <= Right(t, x)
    ensures Right(t, x) <= Left(t, x) ==> Right(t, x) <= Lookup32(t, x) <= Left(t, x)
  {
    RoomyIsExact(t, x);
    LookupIsBetween(t, x);
  }

  lemma Truncates(n: int, d: int)
    requires d > 0
    ensures n >= 0 ==> 0 <= n - Quotient(n, d) * d < d
    ensures n <= 0 ==> 0 <= Quotient(n, d) * d - n < d
  {
    if n >= 0 {
      DivBounds(n, d);
    } else {
      DivBounds(-n, d);
      assert Quotient(n, d) * d == -((-n) / d * d);
    }
  }

  /**
   Between two points the result is on the line through them, less than one step short of it
   towards the point on the left; outside the table it is the nearest value.
   */
  lemma ResultIsLinear(t: seq<Point>, x: int, i: nat)
    requires t != [] && Sorted(t) && Ints(t) && AllRoomy(t) && i < |t|
    ensures x < t[0].x ==> Lookup32(t, x) == t[0].y
    ensures t[|t| - 1].x <= x ==> Lookup32(t, x) == t[|t| - 1].y
    ensures 0 < i && t[i - 1].x <= x < t[i].x ==>
              var (dx, dy) := (t[i].x - t[i - 1].x, t[i].y - t[i - 1].y);
              var (rise, run) := (Lookup32(t, x) - t[i - 1].y, x - t[i - 1].x);
              if dy >= 0 then 0 <= run * dy - rise * dx < dx else 0 <= rise * dx - run * dy < dx
  {
    RoomyIsExact(t, x);
    if 0 < i && t[i - 1].x <= x < t[i].x {
      UpperIsUnique(t, x, i, Upper(t, x));
      OnLine(t[i - 1], t[i], x);
    }
  }

  lemma OnLine(p: Point, q: Point, x: int)
    requires p.x <= x < q.x
    ensures var (dx, dy) := (q.x - p.x, q.y - p.y);
            var (rise, run) := (Line(p, q, x) - p.y, x - p.x);
            if dy >= 0 then 0 <= run * dy - rise * dx < dx else 0 <= rise * dx - run * dy < dx
  {
    var (dx, dy, run) := (q.x - p.x, q.y - p.y, x - p.x);
    assert (dy >= 0 ==> run * dy >= 0) && (dy <= 0 ==> run * dy <= 0);
    Truncates(run * dy, dx);
  }

  /**
   A query at a table point gives the value there, whatever wraps: of several points at one
   place, the last.
   */
  lemma PointsAreHit(t: seq<Point>, k: nat)
    requires Sorted(t) && Ints(t) && k < |t|
    ensures var i := Upper(t, t[k].x);
            && k < i && t[i - 1].x == t[k].x && Lookup32(t, t[k].x) == t[i - 1].y
            && ((k + 1 < |t| ==> t[k].x < t[k + 1].x) ==> i == k + 1)
  {
    var i := Upper(t, t[k].x);
    assert k < i && t[i - 1].x <= t[k].x;
    if i < |t| {
      LineStarts(t[i - 1], t[i]);
    }
  }

  ghost predicate Rising(t: seq<Point>) {
    forall i, j :: 0 <= i < j < |t| ==> t[i].y <= t[j].y
  }

  ghost predicate Falling(t: seq<Point>) {
    forall i, j :: 0 <= i < j < |t| ==> t[i].y >= t[j].y
  }

  lemma LookupIsMonotone(t: seq<Point>, x: int, z: int)
    requires t != [] && Sorted(t) && x <= z
    ensures Rising(t) ==> Lookup(t, x) <= Lookup(t, z)
    ensures Falling(t) ==> Lookup(t, x) >= Lookup(t, z)
  {
    var (i, j) := (Upper(t, x), Upper(t, z));
    assert !Below(t, z, j);
    LookupIsBetween(t, x);
    LookupIsBetween(t, z);
    if i == j && 0 < i < |t| {
      LineRises(t[i - 1], t[i], x, z);
    }
  }

  /** Over the whole range the result is monotone when the values are. */
  lemma ResultIsMonotone(t: seq<Point>, x: int, z: int)
    requires t != [] && Sorted(t) && Ints(t) && AllRoomy(t) && x <= z
    ensures Rising(t) ==> Lookup32(t, x) <= Lookup32(t, z)
    ensures Falling(t) ==> Lookup32(t, x) >= Lookup32(t, z)
  {
    RoomyIsExact(t, x);
    RoomyIsExact(t, z);
    LookupIsMonotone(t, x, z);
  }
}
