/**
 * The breakpoint curve of the configuration tool (software/breath-controller.py):
 * canonicalisation (`fix_curve`), expansion into the 128-entry lookup table
 * (`curve_table`), the mapping from canvas pixels to plot units
 * (`event_to_point`) and the point selection used by the canvas handlers.
 *
 * Python integers are unbounded, so coordinates are `int`. Python's `round`
 * rounds half to even; the interpolation is done here over exact rationals,
 * which is what the float computation yields because every denominator is
 * at most 127 and no float error can move a value across a .5 boundary.
 */
module Curve {
  import Common

  /** A breakpoint `(x, y)`: x is the pressure index, y the MIDI value. */
  datatype Point = Point(x: int, y: int)

  const MaxCoord: int := 127

  /** The curve the tool starts with, and what the middle button restores. */
  const Identity: seq<Point> := [Point(0, 0), Point(127, 127)]

  /** Python's `clamp(x, low, high) = max(low, min(high, x))`: `low` wins when the bounds cross. */
  function Clamp(x: int, low: int, high: int): (r: int)
    ensures low <= high ==> low <= r <= high
    ensures low <= x <= high ==> r == x
    ensures high < low ==> r == low
    ensures x <= high ==> r == Common.Max(low, x)
  {
    Common.Max(low, Common.Min(high, x))
  }

  function Abs(x: int): (r: int)
    ensures r >= 0 && (r == x || r == -x)
  {
    if x < 0 then -x else x
  }

  predicate InRange(v: int) {
    0 <= v <= MaxCoord
  }

  predicate PointInRange(p: Point) {
    InRange(p.x) && InRange(p.y)
  }

  /** Python's ordering of `(x, y)` tuples. */
  predicate Le(p: Point, q: Point) {
    p.x < q.x || (p.x == q.x && p.y <= q.y)
  }

  predicate Sorted(s: seq<Point>) {
    forall i, j :: 0 <= i < j < |s| ==> Le(s[i], s[j])
  }

  predicate NondecreasingX(s: seq<Point>) {
    forall i, j :: 0 <= i < j < |s| ==> s[i].x <= s[j].x
  }

  predicate StrictlyAscendingX(s: seq<Point>) {
    forall i, j :: 0 <= i < j < |s| ==> s[i].x < s[j].x
  }

  predicate AllInRange(s: seq<Point>) {
    forall q :: q in s ==> PointInRange(q)
  }

  /** The abscissas present in a list of points. */
  function XsOf(s: seq<Point>): set<int> {
    set q | q in s :: q.x
  }

  /** The shape `fix_curve` establishes and every edit handler re-establishes. */
  predicate Canonical(c: seq<Point>) {
    && |c| >= 2
    && StrictlyAscendingX(c)
    && AllInRange(c)
    && c[0].x == 0
    && c[|c| - 1].x == MaxCoord
  }

  /** A prefix of a strictly ascending list is strictly ascending. */
  lemma AscendingPrefix(c: seq<Point>, n: nat)
    requires StrictlyAscendingX(c) && n <= |c|
    ensures StrictlyAscendingX(c[..n])
  {
    var p := c[..n];
    forall i, j | 0 <= i < j < |p| ensures p[i].x < p[j].x {
      assert p[i] == c[i] && p[j] == c[j];
    }
  }

  /** Two points in range, left to right. */
  lemma PairCanonicalShape(a: Point, b: Point)
    requires a.x < b.x && PointInRange(a) && PointInRange(b)
    ensures StrictlyAscendingX([a, b]) && AllInRange([a, b])
  {
    var t := [a, b];
    forall i, j | 0 <= i < j < |t| ensures t[i].x < t[j].x {
      assert i == 0 && j == 1;
    }
  }

  // ---------------------------------------------------------------------
  // Sorting: Python's `list.sort()` on tuples, as an insertion sort.
  // ---------------------------------------------------------------------

  function Insert(p: Point, s: seq<Point>): (r: seq<Point>)
    ensures |r| == |s| + 1
    ensures p in r
  {
    if s == [] then [p]
    else if Le(p, s[0]) then [p] + s
    else
      assert s == [s[0]] + s[1..];
      [s[0]] + Insert(p, s[1..])
  }

  lemma SortedCons(a: Point, t: seq<Point>)
    requires Sorted(t)
    requires forall q :: q in t ==> Le(a, q)
    ensures Sorted([a] + t)
  {
    forall i, j | 0 <= i < j < |[a] + t| ensures Le(([a] + t)[i], ([a] + t)[j]) {
      if i == 0 {
        assert ([a] + t)[j] == t[j - 1];
        assert t[j - 1] in t;
      } else {
        assert ([a] + t)[i] == t[i - 1] && ([a] + t)[j] == t[j - 1];
      }
    }
  }

  lemma {:induction false} InsertSorted(p: Point, s: seq<Point>)
    requires Sorted(s)
    ensures Sorted(Insert(p, s))
  {
    if s == [] {
    } else if Le(p, s[0]) {
      forall q | q in s ensures Le(p, q) {
        var k :| 0 <= k < |s| && s[k] == q;
        if k > 0 {
          assert Le(s[0], s[k]);
        }
      }
      SortedCons(p, s);
    } else {
      var t := Insert(p, s[1..]);
      InsertSorted(p, s[1..]);
      InsertMembers(p, s[1..]);
      forall q | q in t ensures Le(s[0], q) {
        if q != p {
          var k :| 0 <= k < |s[1..]| && s[1..][k] == q;
          assert s[k + 1] == q;
        }
      }
      SortedCons(s[0], t);
    }
  }

  /** The sorted permutation of `s`: what `list.sort()` leaves in the list. */
  function Sort(s: seq<Point>): (r: seq<Point>)
    ensures |r| == |s|
    ensures Sorted(r)
  {
    if s == [] then []
    else
      assert s == s[..|s| - 1] + [s[|s| - 1]];
      var t := Sort(s[..|s| - 1]);
      InsertSorted(s[|s| - 1], t);
      Insert(s[|s| - 1], t)
  }

  /** Inserting adds exactly one occurrence of the point. */
  lemma {:induction false} InsertPermutes(p: Point, s: seq<Point>)
    ensures multiset(Insert(p, s)) == multiset(s) + multiset{p}
  {
    if s != [] && !Le(p, s[0]) {
      InsertPermutes(p, s[1..]);
      assert s == [s[0]] + s[1..];
    }
  }

  lemma InsertMembers(p: Point, s: seq<Point>)
    ensures forall q :: q in Insert(p, s) <==> q in s || q == p
  {
    var r := Insert(p, s);
    InsertPermutes(p, s);
    forall q ensures q in r <==> q in s || q == p {
      assert q in r <==> q in multiset(r);
      assert q in s <==> q in multiset(s);
    }
  }

  /** `list.sort()` permutes: the sorted list has the same points, as often. */
  lemma {:induction false} SortPermutes(s: seq<Point>)
    ensures multiset(Sort(s)) == multiset(s)
  {
    if s != [] {
      var n := |s|;
      SortPermutes(s[..n - 1]);
      InsertPermutes(s[n - 1], Sort(s[..n - 1]));
      assert s == s[..n - 1] + [s[n - 1]];
    }
  }

  lemma SortMembers(s: seq<Point>)
    ensures forall q :: q in Sort(s) <==> q in s
  {
    SortPermutes(s);
    forall q ensures q in Sort(s) <==> q in s {
      assert q in Sort(s) <==> q in multiset(Sort(s));
      assert q in s <==> q in multiset(s);
    }
  }

  lemma InsertAtEnd(p: Point, s: seq<Point>)
    requires forall q :: q in s ==> Le(q, p) && q != p
    ensures Insert(p, s) == s + [p]
  {
    if s != [] {
      assert s[0] in s;
      assert forall q :: q in s[1..] ==> q in s;
      InsertAtEnd(p, s[1..]);
      assert s == [s[0]] + s[1..];
    }
  }

  /** Sorting a sorted list of distinct points changes nothing. */
  lemma {:induction false} SortSorted(s: seq<Point>)
    requires StrictlyAscendingX(s)
    ensures Sort(s) == s
  {
    if s != [] {
      var n := |s|;
      AscendingPrefix(s, n - 1);
      SortSorted(s[..n - 1]);
      var pre := s[..n - 1];
      forall q | q in pre ensures Le(q, s[n - 1]) && q != s[n - 1] {
        var k :| 0 <= k < n - 1 && pre[k] == q;
        assert s[k].x < s[n - 1].x;
      }
      InsertAtEnd(s[n - 1], pre);
      assert s[..n - 1] + [s[n - 1]] == s;
    }
  }

  /** Appending one point to a sorted list and sorting inserts it in place. */
  lemma SortAppend(s: seq<Point>, p: Point)
    requires StrictlyAscendingX(s)
    ensures Sort(s + [p]) == Insert(p, s)
  {
    assert (s + [p])[..|s|] == s;
    SortSorted(s);
  }

  // ---------------------------------------------------------------------
  // Clamping and deduplication.
  // ---------------------------------------------------------------------

  function ClampPoint(p: Point): (r: Point)
    ensures PointInRange(r)
    ensures PointInRange(p) ==> r == p
  {
    Point(Clamp(p.x, 0, MaxCoord), Clamp(p.y, 0, MaxCoord))
  }

  /** The list comprehension of `fix_curve` that clamps both coordinates. */
  function ClampAll(s: seq<Point>): (r: seq<Point>)
    ensures |r| == |s|
    ensures AllInRange(r)
    ensures forall i :: 0 <= i < |s| ==> r[i] == ClampPoint(s[i])
  {
    seq(|s|, i requires 0 <= i < |s| => ClampPoint(s[i]))
  }

  lemma ClampAllKeepsOrder(s: seq<Point>)
    requires Sorted(s)
    ensures NondecreasingX(ClampAll(s))
  {
  }

  lemma ClampAllInRange(s: seq<Point>)
    requires AllInRange(s)
    ensures ClampAll(s) == s
  {
  }

  /**
   * The `reduce` of `fix_curve`: a point is appended unless the last point
   * kept so far has the same x.
   */
  function Dedup(s: seq<Point>): (r: seq<Point>)
    ensures |r| <= |s|
    ensures (r == []) == (s == [])
    ensures forall q :: q in r ==> q in s
  {
    if s == [] then []
    else
      var r := Dedup(s[..|s| - 1]);
      var p := s[|s| - 1];
      if r != [] && r[|r| - 1].x == p.x then r else r + [p]
  }

  lemma NondecreasingPrefix(s: seq<Point>, n: nat)
    requires NondecreasingX(s) && n <= |s|
    ensures NondecreasingX(s[..n])
  {
    var p := s[..n];
    forall i, j | 0 <= i < j < |p| ensures p[i].x <= p[j].x {
      assert p[i] == s[i] && p[j] == s[j];
    }
  }

  /** One step of the `reduce`: the last point is dropped exactly when the kept list ends at its x. */
  lemma DedupSnoc(s: seq<Point>)
    requires s != []
    ensures var r := Dedup(s[..|s| - 1]);
      Dedup(s) == if r != [] && r[|r| - 1].x == s[|s| - 1].x then r else r + [s[|s| - 1]]
  {
  }

  /** On x-sorted input the kept points have strictly ascending x, and keep the first and last x. */
  lemma {:induction false} DedupShape(s: seq<Point>)
    requires NondecreasingX(s)
    ensures var r := Dedup(s);
      && StrictlyAscendingX(r)
      && (s != [] ==> r[0] == s[0] && r[|r| - 1].x == s[|s| - 1].x)
  {
    if s != [] {
      var n := |s|;
      var pre := s[..n - 1];
      var p := s[n - 1];
      NondecreasingPrefix(s, n - 1);
      DedupShape(pre);
      DedupSnoc(s);
      var r := Dedup(pre);
      if r != [] {
        assert pre[0] == s[0] && pre[n - 2] == s[n - 2];
        assert r[|r| - 1].x == s[n - 2].x;
        assert s[n - 2].x <= p.x;
        if r[|r| - 1].x != p.x {
          AppendKeepsAscending(r, p);
        }
      } else {
        assert n == 1;
      }
    }
  }

  /** On x-sorted input every x of the input survives. */
  lemma {:induction false} DedupKeepsEveryX(s: seq<Point>, i: nat)
    requires NondecreasingX(s)
    requires i < |s|
    ensures exists q :: q in Dedup(s) && q.x == s[i].x
  {
    var n := |s|;
    var pre := s[..n - 1];
    var r := Dedup(pre);
    DedupSnoc(s);
    if i == n - 1 {
      if r != [] && r[|r| - 1].x == s[n - 1].x {
        assert r[|r| - 1] in Dedup(s);
      } else {
        assert Dedup(s) == r + [s[n - 1]];
        assert s[n - 1] in Dedup(s);
      }
    } else {
      NondecreasingPrefix(s, n - 1);
      assert pre[i] == s[i];
      DedupKeepsEveryX(pre, i);
      var q :| q in r && q.x == s[i].x;
      assert q in Dedup(s);
    }
  }

  /** A list with strictly ascending x has nothing to remove. */
  lemma {:induction false} DedupStrict(s: seq<Point>)
    requires StrictlyAscendingX(s)
    ensures Dedup(s) == s
  {
    if s != [] {
      var n := |s|;
      DedupStrict(s[..n - 1]);
      assert s[..n - 1] + [s[n - 1]] == s;
    }
  }

  /** The index of the first point of `s` with abscissa `x`, or |s| when there is none. */
  function FirstWithX(s: seq<Point>, x: int): (i: nat)
    ensures i <= |s|
    ensures i < |s| ==> s[i].x == x
    ensures forall j :: 0 <= j < i ==> s[j].x != x
  {
    if s == [] then 0
    else if s[0].x == x then 0
    else 1 + FirstWithX(s[1..], x)
  }

  lemma FirstWithXPrefix(s: seq<Point>, k: nat, x: int)
    requires k <= |s|
    requires FirstWithX(s[..k], x) < k
    ensures FirstWithX(s, x) == FirstWithX(s[..k], x)
  {
  }

  /** Each kept point is the first point of the input with its x (Python's `reduce` keeps the first). */
  lemma DedupKeepsFirst(s: seq<Point>)
    requires NondecreasingX(s)
    ensures forall q :: q in Dedup(s) ==> FirstWithX(s, q.x) < |s| && s[FirstWithX(s, q.x)] == q
  {
    forall q | q in Dedup(s) ensures FirstWithX(s, q.x) < |s| && s[FirstWithX(s, q.x)] == q {
      DedupKeepsFirstAt(s, q);
    }
  }

  lemma {:induction false} DedupKeepsFirstAt(s: seq<Point>, q: Point)
    requires NondecreasingX(s)
    requires q in Dedup(s)
    ensures FirstWithX(s, q.x) < |s| && s[FirstWithX(s, q.x)] == q
  {
    var n := |s|;
    var pre := s[..n - 1];
    var r := Dedup(pre);
    if q in r {
      NondecreasingPrefix(s, n - 1);
      DedupKeepsFirstAt(pre, q);
      FirstWithXPrefix(s, n - 1, q.x);
    } else {
      DedupSnoc(s);
      assert Dedup(s) == r + [s[n - 1]];
      assert q == s[n - 1];
      DedupLastIsNew(s);
    }
  }

  /** The last input point is kept only when its x is new, and then it is the first with that x. */
  lemma DedupLastIsNew(s: seq<Point>)
    requires NondecreasingX(s) && s != []
    requires var r := Dedup(s[..|s| - 1]); r == [] || r[|r| - 1].x != s[|s| - 1].x
    ensures FirstWithX(s, s[|s| - 1].x) == |s| - 1
  {
    var n := |s|;
    var x := s[n - 1].x;
    var r := Dedup(s[..n - 1]);
    if r != [] {
      DedupShape(s[..n - 1]);
      assert s[n - 2].x != x;
      forall j | 0 <= j < n - 1 ensures s[j].x != x {
        assert s[j].x <= s[n - 2].x;
      }
    }
    var f := FirstWithX(s, x);
    if f < n - 1 {
      assert s[f].x == x;
    }
  }

  // ---------------------------------------------------------------------
  // fix_curve
  // ---------------------------------------------------------------------

  /** The first `if` of the tail of `fix_curve`: a point at x = 0 with the first point's y. */
  function WithLeftEndpoint(r: seq<Point>): (c: seq<Point>)
    requires r != []
    ensures c != [] && c[0].x == 0 && c[|c| - 1] == r[|r| - 1]
  {
    if r[0].x != 0 then [Point(0, r[0].y)] + r else r
  }

  /** The second `if`: a point at x = 127 with the last point's y. */
  function WithRightEndpoint(r: seq<Point>): (c: seq<Point>)
    requires r != []
    ensures c != [] && c[0] == r[0] && c[|c| - 1].x == MaxCoord
  {
    if r[|r| - 1].x != MaxCoord then r + [Point(MaxCoord, r[|r| - 1].y)] else r
  }

  /** Synthesises the endpoints x = 0 and x = 127, copying the y of the current first and last point. */
  function AddEndpoints(r: seq<Point>): (c: seq<Point>)
    requires r != []
    ensures |r| <= |c| <= |r| + 2
    ensures c[0].x == 0 && c[|c| - 1].x == MaxCoord
    ensures r[0].x != 0 ==> c[0] == Point(0, r[0].y)
    ensures r[|r| - 1].x != MaxCoord ==> c[|c| - 1] == Point(MaxCoord, r[|r| - 1].y)
  {
    WithRightEndpoint(WithLeftEndpoint(r))
  }

  /** `fix_curve`: the canonical form of any list of points. */
  function Fixed(c: seq<Point>): (r: seq<Point>)
    ensures |r| >= 2 && r[0].x == 0 && r[|r| - 1].x == MaxCoord
  {
    if c == [] then Identity
    else AddEndpoints(Dedup(ClampAll(Sort(c))))
  }

  lemma PrependKeepsAscending(p: Point, r: seq<Point>)
    requires StrictlyAscendingX(r)
    requires r != [] ==> p.x < r[0].x
    ensures StrictlyAscendingX([p] + r)
  {
    forall i, j | 0 <= i < j < |[p] + r| ensures ([p] + r)[i].x < ([p] + r)[j].x {
      if i == 0 {
        assert ([p] + r)[j] == r[j - 1];
        assert r[0].x <= r[j - 1].x;
      } else {
        assert ([p] + r)[i] == r[i - 1] && ([p] + r)[j] == r[j - 1];
      }
    }
  }

  lemma AppendKeepsAscending(r: seq<Point>, p: Point)
    requires StrictlyAscendingX(r)
    requires r != [] ==> r[|r| - 1].x < p.x
    ensures StrictlyAscendingX(r + [p])
  {
    forall i, j | 0 <= i < j < |r + [p]| ensures (r + [p])[i].x < (r + [p])[j].x {
      if j == |r| {
        assert r[i].x <= r[|r| - 1].x;
      }
    }
  }

  lemma WithLeftEndpointShape(r: seq<Point>)
    requires r != [] && StrictlyAscendingX(r) && AllInRange(r)
    ensures var c := WithLeftEndpoint(r);
      StrictlyAscendingX(c) && AllInRange(c) && forall q :: q in r ==> q in c
    ensures r[0].x == 0 ==> WithLeftEndpoint(r) == r
  {
    assert r[0] in r;
    if r[0].x != 0 {
      PrependKeepsAscending(Point(0, r[0].y), r);
    }
  }

  lemma WithRightEndpointShape(r: seq<Point>)
    requires r != [] && StrictlyAscendingX(r) && AllInRange(r)
    ensures var c := WithRightEndpoint(r);
      StrictlyAscendingX(c) && AllInRange(c) && forall q :: q in r ==> q in c
    ensures r[|r| - 1].x == MaxCoord ==> WithRightEndpoint(r) == r
  {
    assert r[|r| - 1] in r;
    if r[|r| - 1].x != MaxCoord {
      AppendKeepsAscending(r, Point(MaxCoord, r[|r| - 1].y));
    }
  }

  lemma AddEndpointsCanonical(r: seq<Point>)
    requires r != [] && StrictlyAscendingX(r) && AllInRange(r)
    ensures Canonical(AddEndpoints(r))
    ensures forall q :: q in r ==> q in AddEndpoints(r)
    ensures Canonical(r) ==> AddEndpoints(r) == r
  {
    WithLeftEndpointShape(r);
    WithRightEndpointShape(WithLeftEndpoint(r));
  }

  /** After `fix_curve` the curve is canonical: sorted by unique x, inside [0,127]², from x=0 to x=127. */
  lemma FixedIsCanonical(c: seq<Point>)
    ensures Canonical(Fixed(c))
  {
    if c != [] {
      var s := Sort(c);
      ClampAllKeepsOrder(s);
      DedupShape(ClampAll(s));
      AddEndpointsCanonical(Dedup(ClampAll(s)));
    }
  }

  /** A canonical curve is left unchanged by `fix_curve`. */
  lemma FixedCanonical(c: seq<Point>)
    requires Canonical(c)
    ensures Fixed(c) == c
  {
    SortSorted(c);
    ClampAllInRange(c);
    DedupStrict(c);
    AddEndpointsCanonical(c);
  }

  /** `fix_curve` is idempotent. */
  lemma FixedIdempotent(c: seq<Point>)
    ensures Fixed(Fixed(c)) == Fixed(c)
  {
    FixedIsCanonical(c);
    FixedCanonical(Fixed(c));
  }

  /** The identity curve, from (0, 0) to (127, 127), is canonical. */
  lemma IdentityCanonical()
    ensures Canonical(Identity)
  {
    PairCanonicalShape(Point(0, 0), Point(127, 127));
  }

  /** The identity curve is canonical, so `fix_curve` keeps it. */
  lemma FixedIdentity()
    ensures Canonical(Identity) && Fixed(Identity) == Identity
  {
    IdentityCanonical();
    FixedCanonical(Identity);
  }

  /** An empty curve becomes the identity curve. */
  lemma FixedEmpty()
    ensures Fixed([]) == [Point(0, 0), Point(127, 127)]
  {
  }

  /** When sorting already gives distinct x inside the square, only the endpoints are added. */
  lemma FixedOfSorted(c: seq<Point>, t: seq<Point>)
    requires c != [] && Sort(c) == t
    requires StrictlyAscendingX(t) && AllInRange(t)
    ensures Fixed(c) == AddEndpoints(t)
  {
    ClampAllInRange(t);
    DedupStrict(t);
  }

  /** On distinct ascending x inside the square, `fix_curve` only adds the endpoints. */
  lemma FixedAscending(r: seq<Point>)
    requires r != [] && StrictlyAscendingX(r) && AllInRange(r)
    ensures Fixed(r) == AddEndpoints(r)
  {
    SortSorted(r);
    FixedOfSorted(r, r);
  }

  /** The points `fix_curve` keeps before synthesising endpoints. */
  function Kept(c: seq<Point>): seq<Point> {
    Dedup(ClampAll(Sort(c)))
  }

  /** Every (clamped) x of the input survives `fix_curve`. */
  lemma FixedKeepsEveryX(c: seq<Point>, i: nat)
    requires i < |c|
    ensures ClampPoint(c[i]).x in XsOf(Kept(c))
    ensures ClampPoint(c[i]).x in XsOf(Fixed(c))
  {
    var t := Sort(c);
    var s := ClampAll(t);
    ClampAllKeepsOrder(t);
    SortMembers(c);
    assert c[i] in t;
    var k :| 0 <= k < |t| && t[k] == c[i];
    DedupKeepsEveryX(s, k);
    var q :| q in Kept(c) && q.x == s[k].x;
    DedupShape(s);
    AddEndpointsCanonical(Kept(c));
    assert q in Fixed(c);
  }

  /** The point kept for each x is the first with that x in sorted order, after clamping. */
  lemma FixedKeepsFirst(c: seq<Point>)
    ensures var s := ClampAll(Sort(c));
      forall q :: q in Kept(c) ==> FirstWithX(s, q.x) < |s| && q == s[FirstWithX(s, q.x)]
  {
    ClampAllKeepsOrder(Sort(c));
    DedupKeepsFirst(ClampAll(Sort(c)));
  }

  /**
   * When no input x lies outside [0,127], the point kept for each x has the
   * smallest clamped y among the input points with that x.
   */
  lemma FixedKeepsLowestY(c: seq<Point>, q: Point, i: nat)
    requires forall j :: 0 <= j < |c| ==> InRange(c[j].x)
    requires q in Kept(c)
    requires i < |c| && c[i].x == q.x
    ensures q.y <= ClampPoint(c[i]).y
  {
    var t := Sort(c);
    var s := ClampAll(t);
    FixedKeepsFirst(c);
    var f := FirstWithX(s, q.x);
    SortMembers(c);
    assert c[i] in t;
    var k :| 0 <= k < |t| && t[k] == c[i];
    assert t[f] in c;
    var jf :| 0 <= jf < |c| && c[jf] == t[f];
    assert s[f] == ClampPoint(t[f]) && s[k] == ClampPoint(t[k]);
    assert t[f].x == q.x;
    assert s[k].x == q.x;
    assert f <= k;
    SortedSameX(t, f, k);
  }

  /** Of two points of a sorted list with the same x, the earlier has the smaller clamped y. */
  lemma SortedSameX(t: seq<Point>, f: nat, k: nat)
    requires Sorted(t) && f <= k < |t| && t[f].x == t[k].x
    ensures ClampPoint(t[f]).y <= ClampPoint(t[k]).y
  {
    if f < k {
      assert Le(t[f], t[k]);
    }
  }

  /**
   * With x outside [0,127] the clamped order is not the sorted order: of
   * (200,50) and (300,10) both clamp to x=127, and the first in sorted
   * order, with the larger y, is the one kept.
   */
  lemma FixedOutOfRangeKeepsFirstNotLowest()
    ensures Fixed([Point(300, 10), Point(200, 50)]) == [Point(0, 50), Point(127, 50)]
  {
    var c := [Point(300, 10), Point(200, 50)];
    assert c[..1] == [Point(300, 10)];
    assert Sort(c[..1]) == [Point(300, 10)] by {
      assert [Point(300, 10)][..0] == [];
    }
    assert Insert(Point(200, 50), [Point(300, 10)]) == [Point(200, 50), Point(300, 10)];
    var s := ClampAll(Sort(c));
    assert s == [Point(127, 50), Point(127, 10)];
    assert s[..1] == [Point(127, 50)];
    assert Dedup(s[..1]) == [Point(127, 50)] by {
      assert [Point(127, 50)][..0] == [];
    }
    assert Dedup(s) == [Point(127, 50)];
  }

  /** Missing endpoints copy the y of the extreme points. */
  lemma FixedSynthesisesEndpoints()
    ensures Fixed([Point(10, 20), Point(50, 60)])
         == [Point(0, 20), Point(10, 20), Point(50, 60), Point(127, 60)]
  {
    var c := [Point(10, 20), Point(50, 60)];
    PairCanonicalShape(Point(10, 20), Point(50, 60));
    FixedAscending(c);
    var r1 := [Point(0, 20)] + c;
    assert AddEndpoints(c) == r1 + [Point(127, 60)];
  }

  // ---------------------------------------------------------------------
  // curve_table
  // ---------------------------------------------------------------------

  /** Python's `round(n / d)`: the nearest integer, a tie going to the even neighbour. */
  function RoundHalfEven(n: int, d: int): (r: int)
    requires d > 0
    ensures n / d <= r <= n / d + 1
    ensures 2 * (n % d) == d ==> r % 2 == 0
  {
    var q := n / d;
    var m := n % d;
    if 2 * m < d then q
    else if 2 * m > d then q + 1
    else if q % 2 == 0 then q
    else q + 1
  }

  /** The rounded quotient is within half a unit of n / d, and a tie goes to the even side. */
  lemma RoundNearest(n: int, d: int)
    requires d > 0
    ensures var r := RoundHalfEven(n, d);
      && 2 * n - d <= 2 * d * r <= 2 * n + d
      && ((2 * d * r == 2 * n - d || 2 * d * r == 2 * n + d) ==> r % 2 == 0)
  {
    var q := n / d;
    assert d * (q + 1) == d * q + d;
  }

  /** `round(a.y + (x - a.x) * (b.y - a.y) / (b.x - a.x))`, over exact rationals. */
  function Interp(a: Point, b: Point, x: int): (r: int)
    requires a.x < b.x
    ensures x == a.x ==> r == a.y
    ensures x == b.x ==> r == b.y
  {
    RoundAtEnds(a.y, b.y, b.x - a.x, x - a.x);
    RoundHalfEven(a.y * (b.x - a.x) + (x - a.x) * (b.y - a.y), b.x - a.x)
  }

  /** The inner loop of `curve_table` for one pair of neighbours: one entry per x in [a.x, b.x). */
  function Segment(a: Point, b: Point): (r: seq<int>)
    ensures |r| == if a.x < b.x then b.x - a.x else 0
  {
    if a.x < b.x then seq(b.x - a.x, k requires 0 <= k < b.x - a.x => Interp(a, b, a.x + k))
    else []
  }

  /** The segments of the first k points of `curve_table`, pair by pair from the left. */
  function Segments(c: seq<Point>, k: nat): (r: seq<int>)
    requires k <= |c|
    ensures StrictlyAscendingX(c) && k >= 1 ==> |r| == c[k - 1].x - c[0].x
  {
    if k < 2 then []
    else Segments(c, k - 1) + Segment(c[k - 2], c[k - 1])
  }

  /** `curve_table`: the segments of all the points, then the y of the last point. */
  function Table(c: seq<Point>): (r: seq<int>)
    requires c != []
    ensures StrictlyAscendingX(c) ==> |r| == c[|c| - 1].x - c[0].x + 1
  {
    Segments(c, |c|) + [c[|c| - 1].y]
  }

  /** The rounded interpolation starts exactly at the left point. */
  lemma InterpAtStart(a: Point, b: Point)
    requires a.x < b.x
    ensures Interp(a, b, a.x) == a.y
  {
    assert (a.x - a.x) * (b.y - a.y) == 0;
    RoundExact(a.y, b.x - a.x);
  }

  /** At the two ends of a segment the interpolated quotient is exact. */
  lemma RoundAtEnds(ya: int, yb: int, d: int, k: int)
    requires d > 0
    ensures k == 0 ==> RoundHalfEven(ya * d + k * (yb - ya), d) == ya
    ensures k == d ==> RoundHalfEven(ya * d + k * (yb - ya), d) == yb
  {
    if k == 0 {
      assert k * (yb - ya) == 0;
      RoundExact(ya, d);
    } else if k == d {
      assert ya * d + k * (yb - ya) == yb * d;
      RoundExact(yb, d);
    }
  }

  /** An exact quotient rounds to itself. */
  lemma RoundExact(k: int, d: int)
    requires d > 0
    ensures RoundHalfEven(k * d, d) == k
  {
    Common.DivModUnique(k * d, d, k, 0);
  }

  lemma SignOfProduct(d: int, k: int)
    requires d > 0
    ensures d * k >= 0 ==> k >= 0
    ensures d * k <= 0 ==> k <= 0
  {
    Common.MulAwayFromZero(d, k);
  }

  lemma MulMono(t: int, d: int, k: int)
    requires 0 <= t <= d && k >= 0
    ensures 0 <= t * k <= d * k
  {
    assert d * k - t * k == (d - t) * k;
  }

  /** An integer within half a unit of n / d, where n / d lies in [lo, hi], lies in [lo, hi]. */
  lemma NearBetween(n: int, d: int, lo: int, hi: int, r: int)
    requires d > 0
    requires lo * d <= n <= hi * d
    requires 2 * n - d <= 2 * d * r <= 2 * n + d
    ensures lo <= r <= hi
  {
    assert d * (2 * r - 2 * lo + 1) == 2 * d * r - 2 * lo * d + d;
    SignOfProduct(d, 2 * r - 2 * lo + 1);
    assert d * (2 * r - 2 * hi - 1) == 2 * d * r - 2 * hi * d - d;
    SignOfProduct(d, 2 * r - 2 * hi - 1);
  }

  /** Rounding a value that lies between two integers stays between them. */
  lemma RoundBetween(n: int, d: int, lo: int, hi: int)
    requires d > 0
    requires lo * d <= n <= hi * d
    ensures lo <= RoundHalfEven(n, d) <= hi
  {
    RoundNearest(n, d);
    NearBetween(n, d, lo, hi, RoundHalfEven(n, d));
  }

  /** A point t/d of the way from lo to hi, scaled by d, lies between lo*d and hi*d. */
  lemma LinearUp(lo: int, hi: int, d: int, t: int, n: int)
    requires 0 <= t <= d && lo <= hi
    requires n == lo * d + t * (hi - lo)
    ensures lo * d <= n <= hi * d
  {
    MulMono(t, d, hi - lo);
    assert d * (hi - lo) == hi * d - lo * d;
  }

  /** The same, starting from the higher end. */
  lemma LinearDown(lo: int, hi: int, d: int, t: int, n: int)
    requires 0 <= t <= d && lo <= hi
    requires n == hi * d + t * (lo - hi)
    ensures lo * d <= n <= hi * d
  {
    MulMono(t, d, hi - lo);
    assert t * (lo - hi) == -(t * (hi - lo));
    assert d * (hi - lo) == hi * d - lo * d;
  }

  /** Rounding a point t/d of the way up from lo to hi stays within [lo, hi]. */
  lemma RoundUp(lo: int, hi: int, d: int, t: int)
    requires 0 <= t < d && lo <= hi
    ensures lo <= RoundHalfEven(lo * d + t * (hi - lo), d) <= hi
  {
    LinearUp(lo, hi, d, t, lo * d + t * (hi - lo));
    RoundBetween(lo * d + t * (hi - lo), d, lo, hi);
  }

  /** Rounding a point t/d of the way down from hi to lo stays within [lo, hi]. */
  lemma RoundDown(lo: int, hi: int, d: int, t: int)
    requires 0 <= t < d && lo <= hi
    ensures lo <= RoundHalfEven(hi * d + t * (lo - hi), d) <= hi
  {
    LinearDown(lo, hi, d, t, hi * d + t * (lo - hi));
    RoundBetween(hi * d + t * (lo - hi), d, lo, hi);
  }

  /** Within a segment the interpolated value lies between the y of its two ends. */
  lemma InterpBetween(a: Point, b: Point, x: int)
    requires a.x <= x < b.x
    ensures Common.Min(a.y, b.y) <= Interp(a, b, x) <= Common.Max(a.y, b.y)
  {
    if a.y <= b.y {
      InterpRising(a, b, x);
    } else {
      InterpFalling(a, b, x);
    }
  }

  lemma InterpRising(a: Point, b: Point, x: int)
    requires a.x <= x < b.x && a.y <= b.y
    ensures a.y <= Interp(a, b, x) <= b.y
  {
    RoundUp(a.y, b.y, b.x - a.x, x - a.x);
  }

  lemma InterpFalling(a: Point, b: Point, x: int)
    requires a.x <= x < b.x && b.y < a.y
    ensures b.y <= Interp(a, b, x) <= a.y
  {
    RoundDown(b.y, a.y, b.x - a.x, x - a.x);
  }

  lemma SegmentAt(a: Point, b: Point, x: int)
    requires a.x <= x < b.x
    ensures Segment(a, b)[x - a.x] == Interp(a, b, x)
  {
  }

  /** The segments of the first k points cover the abscissas from the first point to the k-th. */
  lemma {:induction false} SegmentsLength(c: seq<Point>, k: nat)
    requires StrictlyAscendingX(c) && 1 <= k <= |c|
    ensures |Segments(c, k)| == c[k - 1].x - c[0].x
  {
    if k >= 2 {
      SegmentsLength(c, k - 1);
      assert c[k - 2].x < c[k - 1].x;
    }
  }

  /** Entry x - c[0].x of the segments is the interpolation on the pair that surrounds x. */
  lemma {:induction false} SegmentsAt(c: seq<Point>, k: nat, j: nat, x: int)
    requires StrictlyAscendingX(c)
    requires j + 1 < k <= |c| && c[j].x <= x < c[j + 1].x
    ensures |Segments(c, k)| == c[k - 1].x - c[0].x
    ensures Segments(c, k)[x - c[0].x] == Interp(c[j], c[j + 1], x)
  {
    SegmentsLength(c, k - 1);
    assert c[k - 2].x < c[k - 1].x;
    var u := Segments(c, k - 1);
    var v := Segment(c[k - 2], c[k - 1]);
    assert Segments(c, k) == u + v;
    if j == k - 2 {
      SegmentAt(c[k - 2], c[k - 1], x);
      PickRight(u, v, x - c[0].x);
    } else {
      assert c[j + 1].x <= c[k - 2].x;
      SegmentsAt(c, k - 1, j, x);
      PickLeft(u, v, x - c[0].x);
    }
  }

  lemma PickLeft(u: seq<int>, v: seq<int>, i: int)
    requires 0 <= i < |u|
    ensures (u + v)[i] == u[i]
  {
  }

  lemma PickRight(u: seq<int>, v: seq<int>, i: int)
    requires |u| <= i < |u| + |v|
    ensures (u + v)[i] == v[i - |u|]
  {
  }

  /** Some pair of neighbours among the first k points surrounds every x between the first and the k-th. */
  lemma {:induction false} FindSegment(c: seq<Point>, k: nat, x: int) returns (j: nat)
    requires StrictlyAscendingX(c) && 1 <= k <= |c|
    requires c[0].x <= x < c[k - 1].x
    ensures j + 1 < k && c[j].x <= x < c[j + 1].x
  {
    if x >= c[k - 2].x {
      j := k - 2;
    } else {
      j := FindSegment(c, k - 1, x);
    }
  }

  /** On a canonical curve, table entry x is the interpolation on the segment that contains x. */
  lemma TableInterpolates(c: seq<Point>, j: nat, x: int)
    requires Canonical(c)
    requires j + 1 < |c| && c[j].x <= x < c[j + 1].x
    ensures |Table(c)| == 128
    ensures Table(c)[x] == Interp(c[j], c[j + 1], x)
  {
    var n := |c|;
    var s := Segments(c, n);
    SegmentsAt(c, n, j, x);
    assert |s| == 127 && 0 <= x < 127;
    assert Table(c) == s + [c[n - 1].y];
    assert Table(c)[x] == s[x];
  }

  /**
   * On a canonical curve the table has exactly 128 entries, each in
   * [0,127], and passes through every breakpoint.
   */
  lemma TableShape(c: seq<Point>)
    requires Canonical(c)
    ensures |Table(c)| == 128
    ensures forall x :: 0 <= x < 128 ==> InRange(Table(c)[x])
    ensures forall j :: 0 <= j < |c| ==> Table(c)[c[j].x] == c[j].y
  {
    var t := Table(c);
    var n := |c|;
    SegmentsLength(c, n);
    assert c[n - 1] in c;
    forall x | 0 <= x < 128 ensures InRange(t[x]) {
      if x < 127 {
        var j := FindSegment(c, n, x);
        TableInterpolates(c, j, x);
        InterpBetween(c[j], c[j + 1], x);
        assert c[j] in c && c[j + 1] in c;
      }
    }
    forall j | 0 <= j < n ensures t[c[j].x] == c[j].y {
      if j < n - 1 {
        TableInterpolates(c, j, c[j].x);
        InterpAtStart(c[j], c[j + 1]);
      }
    }
  }

  /** The identity curve gives the identity table. */
  lemma IdentityTable()
    ensures |Table(Identity)| == 128
    ensures forall i :: 0 <= i < 128 ==> Table(Identity)[i] == i
  {
    IdentityTableAt(0);
    forall i | 0 <= i < 128 ensures Table(Identity)[i] == i {
      IdentityTableAt(i);
    }
  }

  lemma InterpDiagonal(i: int)
    ensures Interp(Point(0, 0), Point(127, 127), i) == i
  {
    assert 0 * 127 + (i - 0) * (127 - 0) == i * 127;
    RoundExact(i, 127);
  }

  lemma IdentityTableAt(i: int)
    requires 0 <= i < 128
    ensures |Table(Identity)| == 128 && Table(Identity)[i] == i
  {
    IdentityCanonical();
    TableInterpolates(Identity, 0, 0);
    if i < 127 {
      IdentityTableBelow(i);
    }
  }

  lemma IdentityTableBelow(i: int)
    requires 0 <= i < 127
    ensures |Table(Identity)| == 128 && Table(Identity)[i] == i
  {
    IdentityCanonical();
    TableInterpolates(Identity, 0, i);
    InterpDiagonal(i);
  }

  // ---------------------------------------------------------------------
  // Canvas coordinates and point selection
  // ---------------------------------------------------------------------

  /**
   * `event_to_point`: a canvas pixel to plot units. The 255-pixel canvas
   * draws unit x at pixel 2x and unit y at pixel 254 - 2y.
   */
  function EventToPoint(ex: int, ey: int): (p: Point)
    ensures PointInRange(p)
    ensures ex <= 0 ==> p.x == 0
    ensures ex >= 254 ==> p.x == MaxCoord
    ensures ey <= 0 ==> p.y == MaxCoord
    ensures ey >= 254 ==> p.y == 0
  {
    var x := Clamp(ex, 0, 254);
    var y := Clamp(ey, 0, 254);
    Point(x / 2, 127 - y / 2)
  }

  /** Clicking where `draw_curve` drew a point gives back that point. */
  lemma EventToPointInvertsDrawing(p: Point)
    requires PointInRange(p)
    ensures EventToPoint(2 * p.x, 254 - 2 * p.y) == p
  {
  }

  /** The `distance` lambda of the canvas handlers: Manhattan distance in plot units. */
  function Distance(p: Point, q: Point): (r: int)
    ensures r >= 0
    ensures r == 0 <==> p == q
    ensures r >= Abs(p.x - q.x) && r >= Abs(p.y - q.y)
  {
    Abs(p.x - q.x) + Abs(p.y - q.y)
  }

  /** Python's `min` over precomputed keys: the first position with the least key. */
  function FirstMin(keys: seq<int>): (i: nat)
    requires keys != []
    ensures i < |keys|
    ensures forall j :: 0 <= j < |keys| ==> keys[i] <= keys[j]
    ensures forall j :: 0 <= j < i ==> keys[i] < keys[j]
  {
    if |keys| == 1 then 0
    else
      var k := FirstMin(keys[1..]) + 1;
      if keys[0] <= keys[k] then 0 else k
  }

  function XDistances(c: seq<Point>, x: int): (r: seq<int>)
    ensures |r| == |c|
    ensures forall i :: 0 <= i < |c| ==> r[i] == Abs(c[i].x - x)
  {
    seq(|c|, i requires 0 <= i < |c| => Abs(c[i].x - x))
  }

  function Distances(c: seq<Point>, p: Point): (r: seq<int>)
    ensures |r| == |c|
    ensures forall i :: 0 <= i < |c| ==> r[i] == Distance(c[i], p)
  {
    seq(|c|, i requires 0 <= i < |c| => Distance(c[i], p))
  }

  /** `min(self.curve, key=lambda p: abs(p[0] - x))`: the first point nearest to x horizontally. */
  function NearestByX(c: seq<Point>, x: int): (a: Point)
    requires c != []
    ensures a in c
    ensures forall q :: q in c ==> Abs(a.x - x) <= Abs(q.x - x)
  {
    var i := FirstMin(XDistances(c, x));
    assert forall q :: q in c ==> exists j :: 0 <= j < |c| && c[j] == q;
    c[i]
  }

  /** `min(self.curve, key=lambda p: distance(p, point))`: the first point nearest to `p`. */
  function Closest(c: seq<Point>, p: Point): (a: Point)
    requires c != []
    ensures a in c
    ensures forall q :: q in c ==> Distance(a, p) <= Distance(q, p)
  {
    var i := FirstMin(Distances(c, p));
    assert forall q :: q in c ==> exists j :: 0 <= j < |c| && c[j] == q;
    c[i]
  }

  /** The nearest point by x has the same x as the query exactly when some point does. */
  lemma NearestByXSameX(c: seq<Point>, x: int)
    requires c != []
    ensures NearestByX(c, x).x == x <==> x in XsOf(c)
  {
    if x in XsOf(c) {
      var q :| q in c && q.x == x;
      assert Abs(NearestByX(c, x).x - x) <= Abs(q.x - x);
    }
  }

  /** The position of the first occurrence of `v`. */
  function IndexOf(s: seq<Point>, v: Point): (i: nat)
    requires v in s
    ensures i < |s| && s[i] == v
    ensures forall j :: 0 <= j < i ==> s[j] != v
  {
    if s[0] == v then 0 else 1 + IndexOf(s[1..], v)
  }

  /** Python's `list.remove(v)`: drops the first occurrence of `v`. */
  function RemoveFirst(s: seq<Point>, v: Point): (r: seq<Point>)
    requires v in s
    ensures |r| == |s| - 1
  {
    var i := IndexOf(s, v);
    s[..i] + s[i + 1..]
  }

  /** `list.remove` takes away exactly one occurrence. */
  lemma RemoveFirstPermutes(s: seq<Point>, v: Point)
    requires v in s
    ensures multiset(RemoveFirst(s, v)) == multiset(s) - multiset{v}
  {
    var i := IndexOf(s, v);
    assert s == s[..i] + [v] + s[i + 1..];
  }

  // ---------------------------------------------------------------------
  // What the canvas edits do to a canonical curve
  // ---------------------------------------------------------------------

  /** A strictly ascending list inside the square that has points at x = 0 and x = 127 is canonical. */
  lemma CanonicalByContents(s: seq<Point>)
    requires StrictlyAscendingX(s) && AllInRange(s)
    requires 0 in XsOf(s) && MaxCoord in XsOf(s)
    ensures Canonical(s)
  {
    var q0 :| q0 in s && q0.x == 0;
    var q1 :| q1 in s && q1.x == MaxCoord;
    var i0 :| 0 <= i0 < |s| && s[i0] == q0;
    var i1 :| 0 <= i1 < |s| && s[i1] == q1;
    assert i0 != i1;
    assert s[0] in s && s[|s| - 1] in s;
  }

  /** Inserting a point with a new x into a strictly ascending list keeps it strictly ascending. */
  lemma {:induction false} InsertStrict(p: Point, s: seq<Point>)
    requires StrictlyAscendingX(s)
    requires p.x !in XsOf(s)
    ensures StrictlyAscendingX(Insert(p, s))
  {
    if s != [] {
      assert s[0] in s;
      if Le(p, s[0]) {
        PrependKeepsAscending(p, s);
      } else {
        var t := s[1..];
        assert XsOf(t) <= XsOf(s);
        InsertStrict(p, t);
        var r := Insert(p, t);
        assert r[0] == p || r[0] == t[0];
        PrependKeepsAscending(s[0], r);
      }
    }
  }

  /** Adding a point whose x is new to a strictly ascending list keeps that point and all the others. */
  lemma FixedAppend(s: seq<Point>, p: Point)
    requires StrictlyAscendingX(s) && AllInRange(s) && PointInRange(p)
    requires p.x !in XsOf(s)
    requires 0 in XsOf(s) + {p.x} && MaxCoord in XsOf(s) + {p.x}
    ensures Canonical(Insert(p, s))
    ensures Fixed(s + [p]) == Insert(p, s)
  {
    var r := Insert(p, s);
    SortAppend(s, p);
    InsertStrict(p, s);
    InsertMembers(p, s);
    assert XsOf(r) == XsOf(s) + {p.x};
    CanonicalByContents(r);
    ClampAllInRange(r);
    DedupStrict(r);
    AddEndpointsCanonical(r);
  }

  /** The list `list.remove` leaves, position by position. */
  lemma RemoveAt(c: seq<Point>, q: Point, k: nat)
    requires q in c && k < |c| - 1
    ensures RemoveFirst(c, q)[k] == if k < IndexOf(c, q) then c[k] else c[k + 1]
  {
    var i := IndexOf(c, q);
    var r := RemoveFirst(c, q);
    assert r == c[..i] + c[i + 1..];
    if k < i {
      assert r[k] == c[..i][k];
    } else {
      assert r[k] == c[i + 1..][k - i];
    }
  }

  lemma RemoveAscending(c: seq<Point>, q: Point)
    requires StrictlyAscendingX(c) && q in c
    ensures StrictlyAscendingX(RemoveFirst(c, q))
  {
    var i := IndexOf(c, q);
    var r := RemoveFirst(c, q);
    forall k, l | 0 <= k < l < |r| ensures r[k].x < r[l].x {
      RemoveAt(c, q, k);
      RemoveAt(c, q, l);
      var k' := if k < i then k else k + 1;
      var l' := if l < i then l else l + 1;
      assert r[k] == c[k'] && r[l] == c[l'] && k' < l';
    }
  }

  /** Every point left by the removal was in the list, and is not the removed one. */
  lemma RemoveKept(c: seq<Point>, q: Point, v: Point)
    requires StrictlyAscendingX(c) && q in c && v in RemoveFirst(c, q)
    ensures v in c && v != q
  {
    var i := IndexOf(c, q);
    var r := RemoveFirst(c, q);
    var k :| 0 <= k < |r| && r[k] == v;
    RemoveAt(c, q, k);
    var k' := if k < i then k else k + 1;
    assert v == c[k'] && k' != i;
    assert c[k'].x != c[i].x;
  }

  /** Every other point of the list is left by the removal. */
  lemma RemoveKeeps(c: seq<Point>, q: Point, v: Point)
    requires q in c && v in c && v != q
    ensures v in RemoveFirst(c, q)
  {
    var i := IndexOf(c, q);
    var k :| 0 <= k < |c| && c[k] == v;
    var k' := if k < i then k else k - 1;
    RemoveAt(c, q, k');
  }

  /** Removing a point from a strictly ascending list removes that point and nothing else. */
  lemma RemoveStrict(c: seq<Point>, q: Point)
    requires StrictlyAscendingX(c) && AllInRange(c) && q in c
    ensures StrictlyAscendingX(RemoveFirst(c, q)) && AllInRange(RemoveFirst(c, q))
    ensures forall v :: v in RemoveFirst(c, q) <==> v in c && v != q
  {
    var r := RemoveFirst(c, q);
    RemoveAscending(c, q);
    forall v ensures v in r <==> v in c && v != q {
      if v in r {
        RemoveKept(c, q, v);
      }
      if v in c && v != q {
        RemoveKeeps(c, q, v);
      }
    }
  }

  /** The abscissas left after removing a point of a strictly ascending list. */
  lemma RemoveXs(c: seq<Point>, q: Point)
    requires StrictlyAscendingX(c) && AllInRange(c) && q in c
    ensures XsOf(RemoveFirst(c, q)) == XsOf(c) - {q.x}
  {
    var r := RemoveFirst(c, q);
    RemoveStrict(c, q);
    var i := IndexOf(c, q);
    forall v | v in c && v.x == q.x ensures v == q {
      var k :| 0 <= k < |c| && c[k] == v;
      assert k == i;
    }
  }

  /**
   * `canvas_left_drag` when it moves a point: the point is replaced by the
   * drag point. If the moved point was not an endpoint, or the drag point
   * stays on its vertical line, the curve keeps its number of points.
   */
  lemma LeftDragMoves(c: seq<Point>, q: Point, p: Point)
    requires Canonical(c) && PointInRange(p) && q in c
    requires p.x == q.x || (0 < q.x < MaxCoord && p.x !in XsOf(c))
    ensures var r := RemoveFirst(c, q);
      && Fixed(r + [p]) == Insert(p, r)
      && |Insert(p, r)| == |c|
    ensures forall v :: v in Insert(p, RemoveFirst(c, q)) <==> (v in c && v != q) || v == p
  {
    var r := RemoveFirst(c, q);
    RemoveStrict(c, q);
    RemoveXs(c, q);
    assert c[0] in c && c[|c| - 1] in c;
    FixedAppend(r, p);
    InsertMembers(p, r);
  }

  /**
   * `canvas_left_click`: when the clicked x differs from the x of the point
   * nearest to it horizontally, the click point is inserted at its place and
   * the curve gains one point.
   */
  lemma LeftClickInserts(c: seq<Point>, p: Point)
    requires Canonical(c) && PointInRange(p)
    requires p.x != NearestByX(c, p.x).x
    ensures Fixed(c + [p]) == Insert(p, c)
    ensures |Insert(p, c)| == |c| + 1
    ensures forall q :: q in Insert(p, c) <==> q in c || q == p
  {
    NearestByXSameX(c, p.x);
    assert c[0] in c && c[|c| - 1] in c;
    FixedAppend(c, p);
    InsertMembers(p, c);
  }

  /** The effect `canvas_left_click` relies on: `fix_curve` after appending a new x is an insertion. */
  lemma LeftClickFixes(c: seq<Point>, p: Point)
    requires Canonical(c) && PointInRange(p)
    requires p.x != NearestByX(c, p.x).x
    ensures Fixed(c + [p]) == Insert(p, c)
  {
    LeftClickInserts(c, p);
  }

  /** The effect `canvas_left_drag` relies on: moving a point to its own x or to a new interior x is a replacement. */
  lemma DragFixes(c: seq<Point>, q: Point, p: Point)
    requires Canonical(c) && PointInRange(p) && q in c
    requires p.x == q.x || (0 < q.x < MaxCoord && p.x !in XsOf(c))
    ensures Fixed(RemoveFirst(c, q) + [p]) == Insert(p, RemoveFirst(c, q))
  {
    LeftDragMoves(c, q, p);
  }

  /** The effect `canvas_right_click` relies on: without an interior point the curve is still canonical. */
  lemma RemoveFixes(c: seq<Point>, q: Point)
    requires Canonical(c) && q in c && 0 < q.x < MaxCoord
    ensures Fixed(RemoveFirst(c, q)) == RemoveFirst(c, q)
  {
    RightClickRemovesInterior(c, q);
  }

  /** The point a drag moves is on the curve, and the drag point's x is either its x or a new one. */
  lemma DragTarget(c: seq<Point>, p: Point, q: Point)
    requires Canonical(c)
    requires q == Closest(c, p)
    requires var a := NearestByX(c, p.x); a == q || p.x != a.x
    requires p.x == q.x || 0 < q.x < MaxCoord
    ensures q in c
    ensures p.x == q.x || (0 < q.x < MaxCoord && p.x !in XsOf(c))
  {
    var a := NearestByX(c, p.x);
    NearestByXSameX(c, p.x);
  }

  /** Dragging the endpoint of the identity curve away from x = 0 makes `fix_curve` synthesise a new one. */
  lemma LeftDragEndpointResynthesised()
    ensures var r := RemoveFirst(Identity, Point(0, 0));
      Fixed(r + [Point(10, 20)]) == [Point(0, 20), Point(10, 20), Point(127, 127)]
  {
    var r := RemoveFirst(Identity, Point(0, 0));
    assert IndexOf(Identity, Point(0, 0)) == 0;
    assert r == [Point(127, 127)];
    SortAppend(r, Point(10, 20));
    var t := [Point(10, 20), Point(127, 127)];
    assert Insert(Point(10, 20), r) == t;
    PairCanonicalShape(Point(10, 20), Point(127, 127));
    FixedOfSorted(r + [Point(10, 20)], t);
    assert AddEndpoints(t) == [Point(0, 20)] + t;
  }

  /** `canvas_right_click` on an interior point removes it and only it. */
  lemma RightClickRemovesInterior(c: seq<Point>, q: Point)
    requires Canonical(c) && q in c && 0 < q.x < MaxCoord
    ensures Fixed(RemoveFirst(c, q)) == RemoveFirst(c, q)
    ensures |Fixed(RemoveFirst(c, q))| == |c| - 1
    ensures XsOf(Fixed(RemoveFirst(c, q))) == XsOf(c) - {q.x}
  {
    var r := RemoveFirst(c, q);
    RemoveStrict(c, q);
    RemoveXs(c, q);
    assert c[0] in c && c[|c| - 1] in c;
    CanonicalByContents(r);
    FixedCanonical(r);
  }

  /** Removing the left endpoint makes `fix_curve` put one back at the height of the next point. */
  lemma RightClickRemovesLeftEndpoint(c: seq<Point>)
    requires Canonical(c) && |c| >= 3
    ensures Fixed(RemoveFirst(c, c[0])) == [Point(0, c[1].y)] + c[1..]
  {
    RemoveFirstHead(c);
    var r := c[1..];
    CanonicalTail(c);
    FixedAscending(r);
    AddLeftEndpoint(r);
  }

  lemma RemoveFirstHead(c: seq<Point>)
    requires c != []
    ensures RemoveFirst(c, c[0]) == c[1..]
  {
    assert IndexOf(c, c[0]) == 0;
  }

  /** Without its left endpoint a canonical curve is still ascending and in range, and starts right of 0. */
  lemma CanonicalTail(c: seq<Point>)
    requires Canonical(c)
    ensures var r := c[1..];
      && r != [] && StrictlyAscendingX(r) && AllInRange(r)
      && r[0] == c[1] && r[0].x > 0 && r[|r| - 1].x == MaxCoord
  {
    var r := c[1..];
    forall i, j | 0 <= i < j < |r| ensures r[i].x < r[j].x {
      assert r[i] == c[i + 1] && r[j] == c[j + 1];
    }
    forall v | v in r ensures PointInRange(v) {
      var k :| 0 <= k < |r| && r[k] == v;
      assert v == c[k + 1];
      assert c[k + 1] in c;
    }
    assert r[|r| - 1] == c[|c| - 1];
  }

  /** A list that reaches x = 127 but starts right of 0 only gets a left endpoint. */
  lemma AddLeftEndpoint(r: seq<Point>)
    requires r != [] && r[0].x != 0 && r[|r| - 1].x == MaxCoord
    ensures AddEndpoints(r) == [Point(0, r[0].y)] + r
  {
  }

  /** A single endpoint is extended into a flat curve at its height. */
  lemma FixedSingleEndpoint(o: Point)
    requires PointInRange(o) && (o.x == 0 || o.x == MaxCoord)
    ensures Fixed([o]) == [Point(0, o.y), Point(MaxCoord, o.y)]
  {
    var r := [o];
    FixedAscending(r);
    if o.x == 0 {
      assert AddEndpoints(r) == [o, Point(MaxCoord, o.y)];
    } else {
      assert AddEndpoints(r) == [Point(0, o.y), o];
    }
  }

  /**
   * Removing a point of a two-point curve leaves a flat curve at the height
   * of the other point; the identity curve is restored only for an empty list.
   */
  lemma RightClickOnTwoPoints(c: seq<Point>, q: Point)
    requires Canonical(c) && |c| == 2 && q in c
    ensures var o := if q == c[0] then c[1] else c[0];
      Fixed(RemoveFirst(c, q)) == [Point(0, o.y), Point(MaxCoord, o.y)]
  {
    var o := if q == c[0] then c[1] else c[0];
    assert IndexOf(c, q) == if q == c[0] then 0 else 1;
    assert RemoveFirst(c, q) == [o];
    assert o in c;
    FixedSingleEndpoint(o);
  }
}
