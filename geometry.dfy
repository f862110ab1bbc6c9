/**
 * Rectangle geometry of the card scanner: intersection-over-union of two
 * bounding rectangles, the iterative merge of overlapping detections, the
 * top-to-bottom/left-to-right ordering, the four-corner ordering of a
 * quadrilateral, the 60% quadrant crops, the central art region and the
 * padded listing crop. A contour is represented by its bounding rectangle
 * (the bounding rectangle of the convex hull of two contours is the
 * envelope of their two rectangles).
 */
module Geometry {

  import opened Sorting
  import opened Wrappers

  /** `cv2.boundingRect`: top-left corner and size. */
  datatype Rect = Rect(x: int, y: int, w: int, h: int) {
    function Right(): int { x + w }
    function Bottom(): int { y + h }
  }

  /** A crop window `image[top:bottom, left:right]`. */
  datatype Box = Box(left: int, top: int, right: int, bottom: int)

  function Min(a: int, b: int): int { if a <= b then a else b }
  function Max(a: int, b: int): int { if a >= b then a else b }

  /** Width and height of the overlap of two rectangles, clamped at 0. */
  function InterW(a: Rect, b: Rect): int {
    Max(0, Min(a.Right(), b.Right()) - Max(a.x, b.x))
  }

  function InterH(a: Rect, b: Rect): int {
    Max(0, Min(a.Bottom(), b.Bottom()) - Max(a.y, b.y))
  }

  /** `rect_iou`, with the division taken over the reals. */
  function RectIoU(a: Rect, b: Rect): real {
    var inter := InterW(a, b) * InterH(a, b);
    if inter == 0 then 0.0
    else
      var union := a.w * a.h + b.w * b.h - inter;
      if union == 0 then 0.0 else inter as real / union as real
  }

  /** For rectangles of non-negative size the IoU is 1 exactly when the two
      rectangles are the same one, of positive area. */
  lemma RectIoUOne(a: Rect, b: Rect)
    requires a.w >= 0 && a.h >= 0 && b.w >= 0 && b.h >= 0
    ensures RectIoU(a, b) == 1.0 <==> a == b && a.w > 0 && a.h > 0
  {
    if a == b && a.w > 0 && a.h > 0 {
      assert InterW(a, b) == a.w && InterH(a, b) == a.h;
      MulMono(1, 1, a.w, a.h);
      var area := a.w * a.h;
      assert area > 0;
      assert a.w * a.h + b.w * b.h - InterW(a, b) * InterH(a, b) == area;
      assert RectIoU(a, b) == area as real / area as real;
      assert area as real / area as real == 1.0;
    }
    if RectIoU(a, b) == 1.0 {
      IoUOneSame(a, b);
    }
  }

  lemma IoUOneSame(a: Rect, b: Rect)
    requires a.w >= 0 && a.h >= 0 && b.w >= 0 && b.h >= 0
    requires RectIoU(a, b) == 1.0
    ensures a == b && a.w > 0 && a.h > 0
  {
    var iw, ih := InterW(a, b), InterH(a, b);
    var inter := iw * ih;
    var union := a.w * a.h + b.w * b.h - inter;
    assert inter != 0 && union != 0;
    DivTimes(inter, union);
    assert inter == union;
    assert 0 <= iw <= a.w && iw <= b.w && 0 <= ih <= a.h && ih <= b.h;
    MulMono(iw, ih, a.w, a.h);
    MulMono(iw, ih, b.w, b.h);
    MulMono(1, 1, iw, ih);
    assert inter == a.w * a.h && inter == b.w * b.h;
    MulSqueeze(iw, ih, a.w, a.h);
    MulSqueeze(iw, ih, b.w, b.h);
  }

  /** A product of positive factors, each at most its bound, reaches the
      product of the bounds only when both factors do. */
  lemma MulSqueeze(x: int, y: int, m: int, n: int)
    requires 0 < x <= m && 0 < y <= n && x * y == m * n
    ensures x == m && y == n
  {
    MulMono(x, y, x, n);
    MulMono(x, n, m, n);
    MulCancel(x, m, n);
    MulCancel(y, n, x);
  }

  lemma MulCancel(a: int, b: int, k: int)
    requires k > 0 && a * k == b * k
    ensures a == b
  {
    assert (b - a) * k == b * k - a * k;
  }

  lemma DivTimes(n: int, d: int)
    requires d != 0
    ensures (n as real / d as real) * d as real == n as real
  {
  }

  lemma RectIoUSymmetric(a: Rect, b: Rect)
    ensures RectIoU(a, b) == RectIoU(b, a)
  {
    assert InterW(a, b) == InterW(b, a) && InterH(a, b) == InterH(b, a);
  }

  lemma MulMono(a: int, b: int, c: int, d: int)
    requires 0 <= a <= c && 0 <= b <= d
    ensures a * b <= c * d
  {
    assert a * b <= c * b;
    assert c * b <= c * d;
  }

  lemma DivUnitInterval(n: int, d: int)
    requires 0 < n <= d
    ensures 0.0 < n as real / d as real <= 1.0
  {
  }

  /** For rectangles of non-negative size the IoU lies in [0, 1], and it is
      positive exactly when the rectangles overlap with positive area. */
  lemma RectIoUBounds(a: Rect, b: Rect)
    requires a.w >= 0 && a.h >= 0 && b.w >= 0 && b.h >= 0
    ensures 0.0 <= RectIoU(a, b) <= 1.0
    ensures RectIoU(a, b) > 0.0 <==> InterW(a, b) > 0 && InterH(a, b) > 0
  {
    var iw, ih := InterW(a, b), InterH(a, b);
    if iw > 0 && ih > 0 {
      var inter := iw * ih;
      assert iw <= a.w && ih <= a.h && iw <= b.w && ih <= b.h;
      MulMono(iw, ih, a.w, a.h);
      MulMono(iw, ih, b.w, b.h);
      MulMono(1, 1, iw, ih);
      var union := a.w * a.h + b.w * b.h - inter;
      assert 0 < inter <= union;
      DivUnitInterval(inter, union);
      assert RectIoU(a, b) == inter as real / union as real;
    } else {
      assert iw * ih == 0;
    }
  }

  predicate Contains(outer: Rect, inner: Rect) {
    outer.x <= inner.x && inner.Right() <= outer.Right() &&
    outer.y <= inner.y && inner.Bottom() <= outer.Bottom()
  }

  /** The bounding rectangle of the convex hull of two contours. */
  function Envelope(a: Rect, b: Rect): (e: Rect)
    ensures Contains(e, a) && Contains(e, b)
    ensures e.x in {a.x, b.x} && e.y in {a.y, b.y}
    ensures e.Right() in {a.Right(), b.Right()} && e.Bottom() in {a.Bottom(), b.Bottom()}
  {
    var x0, y0 := Min(a.x, b.x), Min(a.y, b.y);
    Rect(x0, y0, Max(a.Right(), b.Right()) - x0, Max(a.Bottom(), b.Bottom()) - y0)
  }

  /** The envelope is the least rectangle that contains both. */
  lemma EnvelopeLeast(a: Rect, b: Rect, c: Rect)
    requires Contains(c, a) && Contains(c, b)
    ensures Contains(c, Envelope(a, b))
  {
  }

  /** No pair of entries overlaps by more than the threshold. */
  predicate NoOverlap(rs: seq<Rect>, threshold: real) {
    forall i, j :: 0 <= i < j < |rs| ==> RectIoU(rs[i], rs[j]) <= threshold
  }

  /** Every rectangle of `rs` lies inside some rectangle of `cover`. */
  predicate Covered(rs: seq<Rect>, cover: seq<Rect>) {
    forall r :: r in rs ==> exists c :: c in cover && Contains(c, r)
  }

  /** Every edge of every rectangle of `rs` is an edge of some rectangle of `src`. */
  predicate EdgesFrom(rs: seq<Rect>, src: seq<Rect>) {
    forall r :: r in rs ==>
      (exists s :: s in src && s.x == r.x) && (exists s :: s in src && s.y == r.y) &&
      (exists s :: s in src && s.Right() == r.Right()) && (exists s :: s in src && s.Bottom() == r.Bottom())
  }

  /** Pop entry j, then entry i (i < j), and append the merged envelope. */
  function MergePair(rs: seq<Rect>, i: nat, j: nat): (r: seq<Rect>)
    requires i < j < |rs|
    ensures |r| == |rs| - 1
    ensures r[|r| - 1] == Envelope(rs[i], rs[j])
    ensures forall k :: 0 <= k < |rs| && k != i && k != j ==> rs[k] in r
    ensures forall s :: s in r ==> s in rs || s == Envelope(rs[i], rs[j])
    ensures forall k :: 0 <= k < |rs| && k != i && k != j ==>
      r[k - (if k > i then 1 else 0) - (if k > j then 1 else 0)] == rs[k]
    ensures multiset(r) == multiset(rs) - multiset{rs[i], rs[j]} + multiset{Envelope(rs[i], rs[j])}
  {
    var r := rs[..i] + rs[i + 1..j] + rs[j + 1..] + [Envelope(rs[i], rs[j])];
    assert rs == rs[..i] + [rs[i]] + rs[i + 1..j] + [rs[j]] + rs[j + 1..];
    assert multiset(rs) == multiset(rs[..i]) + multiset{rs[i]} + multiset(rs[i + 1..j]) + multiset{rs[j]} + multiset(rs[j + 1..]);
    forall k | 0 <= k < |rs| && k != i && k != j
      ensures r[k - (if k > i then 1 else 0) - (if k > j then 1 else 0)] == rs[k]
    {
      if k < i { assert r[k] == rs[k]; }
      else if k < j { assert r[k - 1] == rs[k]; }
      else { assert r[k - 2] == rs[k]; }
    }
    r
  }

  lemma MergePairCovers(rs: seq<Rect>, i: nat, j: nat, orig: seq<Rect>)
    requires i < j < |rs| && Covered(orig, rs)
    ensures Covered(orig, MergePair(rs, i, j))
  {
    var r := MergePair(rs, i, j);
    var e := Envelope(rs[i], rs[j]);
    forall o | o in orig ensures exists c :: c in r && Contains(c, o) {
      var c :| c in rs && Contains(c, o);
      var k :| 0 <= k < |rs| && rs[k] == c;
      if k == i || k == j {
        assert e in r && Contains(e, o);
      } else {
        assert c in r;
      }
    }
  }

  lemma MergePairEdges(rs: seq<Rect>, i: nat, j: nat, orig: seq<Rect>)
    requires i < j < |rs| && EdgesFrom(rs, orig)
    ensures EdgesFrom(MergePair(rs, i, j), orig)
  {
    var e := Envelope(rs[i], rs[j]);
    assert rs[i] in rs && rs[j] in rs;
    assert EdgesFrom([e], orig);
  }

  /** The inner scan of `merge_overlapping_contours`: the first j > i whose
      IoU with entry i exceeds the threshold. */
  method FirstPartner(rs: seq<Rect>, i: nat, threshold: real) returns (found: bool, fj: nat)
    requires i < |rs|
    ensures found ==> i < fj < |rs| && RectIoU(rs[i], rs[fj]) > threshold
    ensures found ==> forall q :: i < q < fj ==> RectIoU(rs[i], rs[q]) <= threshold
    ensures !found ==> forall q :: i < q < |rs| ==> RectIoU(rs[i], rs[q]) <= threshold
  {
    found, fj := false, 0;
    var j := i + 1;
    while j < |rs| && !found
      invariant i + 1 <= j <= |rs|
      invariant found ==> i < fj < j && RectIoU(rs[i], rs[fj]) > threshold
      invariant found ==> forall q :: i < q < fj ==> RectIoU(rs[i], rs[q]) <= threshold
      invariant !found ==> forall q :: i < q < j ==> RectIoU(rs[i], rs[q]) <= threshold
    {
      if RectIoU(rs[i], rs[j]) > threshold {
        found := true;
        fj := j;
      }
      j := j + 1;
    }
  }

  /** The nested scan of `merge_overlapping_contours`: the first pair (i, j),
      i < j, in row-major order whose IoU exceeds the threshold. */
  method FirstOverlap(rs: seq<Rect>, threshold: real) returns (found: bool, fi: nat, fj: nat)
    ensures found ==> fi < fj < |rs| && RectIoU(rs[fi], rs[fj]) > threshold
    ensures found ==> forall p, q :: 0 <= p < q < |rs| && (p < fi || (p == fi && q < fj)) ==>
      RectIoU(rs[p], rs[q]) <= threshold
    ensures !found <==> NoOverlap(rs, threshold)
  {
    found, fi, fj := false, 0, 0;
    var i := 0;
    while i < |rs| && !found
      invariant 0 <= i <= |rs|
      invariant found ==> fi < fj < |rs| && RectIoU(rs[fi], rs[fj]) > threshold
      invariant found ==> forall p, q :: 0 <= p < q < |rs| && (p < fi || (p == fi && q < fj)) ==>
        RectIoU(rs[p], rs[q]) <= threshold
      invariant !found ==> forall p, q :: 0 <= p < i && p < q < |rs| ==> RectIoU(rs[p], rs[q]) <= threshold
    {
      found, fj := FirstPartner(rs, i, threshold);
      if found {
        fi := i;
      }
      i := i + 1;
    }
  }

  /** `merge_overlapping_contours`: while some pair overlaps by more than the
      threshold, replace the first such pair (i, j) by its envelope. */
  method MergeOverlapping(contours: seq<Rect>, threshold: real) returns (rs: seq<Rect>)
    ensures |rs| <= 1 || NoOverlap(rs, threshold)
    ensures |rs| <= |contours|
    ensures |contours| > 0 ==> |rs| > 0
    ensures Covered(contours, rs)
    ensures EdgesFrom(rs, contours)
    ensures NoOverlap(contours, threshold) ==> rs == contours
  {
    rs := contours;
    var merged := true;
    assert EdgesFrom(rs, contours);
    while merged && |rs| > 1
      invariant |rs| <= |contours|
      invariant |contours| > 0 ==> |rs| > 0
      invariant !merged ==> NoOverlap(rs, threshold)
      invariant Covered(contours, rs)
      invariant EdgesFrom(rs, contours)
      invariant NoOverlap(contours, threshold) ==> rs == contours
      decreases |rs| + (if merged then 1 else 0)
    {
      var fi, fj;
      merged, fi, fj := FirstOverlap(rs, threshold);
      if merged {
        MergePairCovers(rs, fi, fj, contours);
        MergePairEdges(rs, fi, fj, contours);
        rs := MergePair(rs, fi, fj);
      }
    }
  }

  /** The ordering key of `sort_contours_tltr`: top edge, then left edge. */
  function TlTrKey(r: Rect): Key { Key(r.y, r.x) }

  /** `sort_contours_tltr` on the contours' bounding rectangles. */
  function SortTlTr(s: seq<Rect>): (t: seq<Rect>)
    ensures |t| == |s| && multiset(t) == multiset(s)
    ensures forall i, j :: 0 <= i < j < |t| ==> t[i].y < t[j].y || (t[i].y == t[j].y && t[i].x <= t[j].x)
  {
    var t := SortBy(s, TlTrKey);
    assert forall i, j :: 0 <= i < j < |t| ==> !KeyLess(TlTrKey(t[j]), TlTrKey(t[i]));
    t
  }

  /** Rectangles with the same top-left corner keep their relative order
      (Python's sort is stable). */
  lemma SortTlTrStable(s: seq<Rect>, x: int, y: int)
    ensures WithKey(SortTlTr(s), TlTrKey, Key(y, x)) == WithKey(s, TlTrKey, Key(y, x))
  {
    SortByStable(s, TlTrKey, Key(y, x));
  }

  /** A corner point (float32 coordinates, modelled as reals). */
  datatype Point = Point(x: real, y: real)

  function Sum(p: Point): real { p.x + p.y }
  function Diff(p: Point): real { p.y - p.x }

  /** `np.argmin`: the first index of a least key. */
  function ArgMin(k: seq<real>): (i: nat)
    requires |k| > 0
    ensures i < |k|
    ensures forall j :: 0 <= j < |k| ==> k[i] <= k[j]
    ensures forall j :: 0 <= j < i ==> k[j] > k[i]
  {
    if |k| == 1 then 0
    else
      var m := ArgMin(k[..|k| - 1]);
      if k[|k| - 1] < k[m] then |k| - 1 else m
  }

  /** `np.argmax`: the first index of a greatest key. */
  function ArgMax(k: seq<real>): (i: nat)
    requires |k| > 0
    ensures i < |k|
    ensures forall j :: 0 <= j < |k| ==> k[j] <= k[i]
    ensures forall j :: 0 <= j < i ==> k[j] < k[i]
  {
    if |k| == 1 then 0
    else
      var m := ArgMax(k[..|k| - 1]);
      if k[|k| - 1] > k[m] then |k| - 1 else m
  }

  function Sums(pts: seq<Point>): (k: seq<real>)
    ensures |k| == |pts| && forall i :: 0 <= i < |pts| ==> k[i] == Sum(pts[i])
  {
    seq(|pts|, i requires 0 <= i < |pts| => Sum(pts[i]))
  }

  function Diffs(pts: seq<Point>): (k: seq<real>)
    ensures |k| == |pts| && forall i :: 0 <= i < |pts| ==> k[i] == Diff(pts[i])
  {
    seq(|pts|, i requires 0 <= i < |pts| => Diff(pts[i]))
  }

  /** `order_points`: slot 0 takes the least x+y, slot 2 the greatest x+y,
      slot 1 the least y-x, slot 3 the greatest y-x (for ties see
      OrderPointsFirstIndex). */
  function OrderPoints(pts: seq<Point>): (r: seq<Point>)
    requires |pts| > 0
    ensures |r| == 4
    ensures forall k :: 0 <= k < 4 ==> r[k] in pts
    ensures forall p :: p in pts ==> Sum(r[0]) <= Sum(p) && Sum(p) <= Sum(r[2])
    ensures forall p :: p in pts ==> Diff(r[1]) <= Diff(p) && Diff(p) <= Diff(r[3])
  {
    var s, d := Sums(pts), Diffs(pts);
    var i0, i1, i2, i3 := ArgMin(s), ArgMin(d), ArgMax(s), ArgMax(d);
    [pts[i0], pts[i1], pts[i2], pts[i3]]
  }

  lemma FirstLeastSum(pts: seq<Point>)
    requires |pts| > 0
    ensures exists i :: 0 <= i < |pts| && pts[i] == OrderPoints(pts)[0] &&
                       forall j :: 0 <= j < i ==> Sum(pts[j]) > Sum(OrderPoints(pts)[0])
  {
    var s := Sums(pts);
    var i := ArgMin(s);
    assert OrderPoints(pts)[0] == pts[i];
    assert forall j :: 0 <= j < i ==> s[j] > s[i];
  }

  lemma FirstLeastDiff(pts: seq<Point>)
    requires |pts| > 0
    ensures exists i :: 0 <= i < |pts| && pts[i] == OrderPoints(pts)[1] &&
                       forall j :: 0 <= j < i ==> Diff(pts[j]) > Diff(OrderPoints(pts)[1])
  {
    var d := Diffs(pts);
    var i := ArgMin(d);
    assert OrderPoints(pts)[1] == pts[i];
    assert forall j :: 0 <= j < i ==> d[j] > d[i];
  }

  lemma FirstGreatestSum(pts: seq<Point>)
    requires |pts| > 0
    ensures exists i :: 0 <= i < |pts| && pts[i] == OrderPoints(pts)[2] &&
                       forall j :: 0 <= j < i ==> Sum(pts[j]) < Sum(OrderPoints(pts)[2])
  {
    var s := Sums(pts);
    var i := ArgMax(s);
    assert OrderPoints(pts)[2] == pts[i];
    assert forall j :: 0 <= j < i ==> s[j] < s[i];
  }

  lemma FirstGreatestDiff(pts: seq<Point>)
    requires |pts| > 0
    ensures exists i :: 0 <= i < |pts| && pts[i] == OrderPoints(pts)[3] &&
                       forall j :: 0 <= j < i ==> Diff(pts[j]) < Diff(OrderPoints(pts)[3])
  {
    var d := Diffs(pts);
    var i := ArgMax(d);
    assert OrderPoints(pts)[3] == pts[i];
    assert forall j :: 0 <= j < i ==> d[j] < d[i];
  }

  /** Ties go to the first input point with the extreme key. */
  lemma OrderPointsFirstIndex(pts: seq<Point>)
    requires |pts| > 0
    ensures var r := OrderPoints(pts);
      (exists i :: 0 <= i < |pts| && pts[i] == r[0] && forall j :: 0 <= j < i ==> Sum(pts[j]) > Sum(r[0])) &&
      (exists i :: 0 <= i < |pts| && pts[i] == r[1] && forall j :: 0 <= j < i ==> Diff(pts[j]) > Diff(r[1])) &&
      (exists i :: 0 <= i < |pts| && pts[i] == r[2] && forall j :: 0 <= j < i ==> Sum(pts[j]) < Sum(r[2])) &&
      (exists i :: 0 <= i < |pts| && pts[i] == r[3] && forall j :: 0 <= j < i ==> Diff(pts[j]) < Diff(r[3]))
  {
    FirstLeastSum(pts);
    FirstLeastDiff(pts);
    FirstGreatestSum(pts);
    FirstGreatestDiff(pts);
  }

  function Corners(x: real, y: real, w: real, h: real): seq<Point> {
    [Point(x, y), Point(x + w, y), Point(x + w, y + h), Point(x, y + h)]
  }

  lemma RectangleExtremes(r: seq<Point>, pts: seq<Point>, x: real, y: real, w: real, h: real)
    requires w > 0.0 && h > 0.0 && |r| == 4
    requires forall p :: p in pts <==> p in Corners(x, y, w, h)
    requires forall k :: 0 <= k < 4 ==> r[k] in pts
    requires forall p :: p in pts ==> Sum(r[0]) <= Sum(p) && Sum(p) <= Sum(r[2])
    requires forall p :: p in pts ==> Diff(r[1]) <= Diff(p) && Diff(p) <= Diff(r[3])
    ensures r == Corners(x, y, w, h)
  {
    var c := Corners(x, y, w, h);
    assert c[0] in c && c[1] in c && c[2] in c && c[3] in c;
    assert Sum(r[0]) <= Sum(c[0]) && Sum(c[2]) <= Sum(r[2]);
    assert Diff(r[1]) <= Diff(c[1]) && Diff(c[3]) <= Diff(r[3]);
    assert r[0] in c && r[1] in c && r[2] in c && r[3] in c;
  }

  /** The corners of an axis-aligned rectangle of positive size, given in any
      order, come out as top-left, top-right, bottom-right, bottom-left. */
  lemma OrderPointsRectangle(pts: seq<Point>, x: real, y: real, w: real, h: real)
    requires w > 0.0 && h > 0.0 && |pts| > 0
    requires forall p :: p in pts <==> p in Corners(x, y, w, h)
    ensures OrderPoints(pts) == Corners(x, y, w, h)
  {
    assert Corners(x, y, w, h)[0] in pts;
    RectangleExtremes(OrderPoints(pts), pts, x, y, w, h);
  }

  /** When each of the four keys has a single extreme point, ordering an
      ordered quadrilateral again changes nothing. */
  lemma OrderPointsIdempotent(pts: seq<Point>)
    requires |pts| > 0
    requires forall p :: p in pts && Sum(p) == Sum(OrderPoints(pts)[0]) ==> p == OrderPoints(pts)[0]
    requires forall p :: p in pts && Sum(p) == Sum(OrderPoints(pts)[2]) ==> p == OrderPoints(pts)[2]
    requires forall p :: p in pts && Diff(p) == Diff(OrderPoints(pts)[1]) ==> p == OrderPoints(pts)[1]
    requires forall p :: p in pts && Diff(p) == Diff(OrderPoints(pts)[3]) ==> p == OrderPoints(pts)[3]
    ensures OrderPoints(OrderPoints(pts)) == OrderPoints(pts)
  {
    var r := OrderPoints(pts);
    var r2 := OrderPoints(r);
    assert r[0] in r && r[1] in r && r[2] in r && r[3] in r;
    assert r2[0] in pts && r2[1] in pts && r2[2] in pts && r2[3] in pts;
  }

  /** Without unique extremes it is not idempotent: four points on two
      diagonals of equal x+y send a different point to slot 2 the second time. */
  lemma OrderPointsNotIdempotent(pts: seq<Point>)
    requires pts == [Point(0.0, 0.0), Point(1.0, 1.0), Point(2.0, 0.0), Point(0.0, 2.0)]
    ensures OrderPoints(pts) == [pts[0], pts[2], pts[1], pts[3]]
    ensures OrderPoints(OrderPoints(pts)) != OrderPoints(pts)
  {
    OrderPointsSample(pts);
    ReorderedSlot2(OrderPoints(pts));
  }

  lemma OrderPointsSample(pts: seq<Point>)
    requires pts == [Point(0.0, 0.0), Point(1.0, 1.0), Point(2.0, 0.0), Point(0.0, 2.0)]
    ensures OrderPoints(pts) == [pts[0], pts[2], pts[1], pts[3]]
  {
    var s, d := Sums(pts), Diffs(pts);
    assert s == [0.0, 2.0, 2.0, 2.0];
    assert d == [0.0, 0.0, -2.0, 2.0];
    var i0, i1, i2, i3 := ArgMin(s), ArgMin(d), ArgMax(s), ArgMax(d);
    assert i0 == 0 by { assert s[i0] <= s[0]; }
    assert i1 == 2 by { assert d[i1] <= d[2]; }
    assert i2 == 1 by { assert s[1] <= s[i2]; }
    assert i3 == 3 by { assert d[3] <= d[i3]; }
  }

  lemma ReorderedSlot2(r: seq<Point>)
    requires r == [Point(0.0, 0.0), Point(2.0, 0.0), Point(1.0, 1.0), Point(0.0, 2.0)]
    ensures OrderPoints(r)[2] == r[1]
  {
    var s := Sums(r);
    assert s == [0.0, 2.0, 2.0, 2.0];
    var j := ArgMax(s);
    assert j == 1 by { assert s[1] <= s[j]; }
  }

  /** The four corner names of `create_quadrant_crops`. */
  datatype Corner = TL | TR | BL | BR

  datatype Quadrant = Quadrant(corner: Corner, box: Box)

  /** `int(n * 0.6)` for a natural number, taken exactly. */
  function SixtyPercent(n: nat): nat { (3 * n) / 5 }

  /** `create_quadrant_crops` geometry for a W x H image: the boxes that survive the
      `right <= left or bottom <= top` check, in the order TL, TR, BL, BR. */
  function QuadrantCrops(W: nat, H: nat): (q: seq<Quadrant>)
    ensures forall k :: 0 <= k < |q| ==>
      0 <= q[k].box.left && q[k].box.right <= W && 0 <= q[k].box.top && q[k].box.bottom <= H &&
      q[k].box.right - q[k].box.left == SixtyPercent(W) && q[k].box.bottom - q[k].box.top == SixtyPercent(H)
  {
    var cw, ch := SixtyPercent(W), SixtyPercent(H);
    var all := [Quadrant(TL, Box(0, 0, cw, ch)), Quadrant(TR, Box(W - cw, 0, W, ch)),
                Quadrant(BL, Box(0, H - ch, cw, H)), Quadrant(BR, Box(W - cw, H - ch, W, H))];
    if cw > 0 && ch > 0 then all else []
  }

  /** All four quadrants are written exactly when both sides are at least 2 px;
      each is anchored at its own corner of the image. */
  lemma QuadrantCropsShape(W: nat, H: nat)
    ensures |QuadrantCrops(W, H)| == (if W >= 2 && H >= 2 then 4 else 0)
    ensures W >= 2 && H >= 2 ==>
      var q := QuadrantCrops(W, H);
      q[0].corner == TL && q[0].box.left == 0 && q[0].box.top == 0 &&
      q[1].corner == TR && q[1].box.right == W && q[1].box.top == 0 &&
      q[2].corner == BL && q[2].box.left == 0 && q[2].box.bottom == H &&
      q[3].corner == BR && q[3].box.right == W && q[3].box.bottom == H
  {
  }

  /** From 4 px on, the left and right crops together cover every column (and
      likewise the rows); at 3 px the middle column is in no crop. */
  lemma QuadrantCropsCover(W: nat, H: nat, c: nat, r: nat)
    requires W >= 4 && H >= 4 && c < W && r < H
    ensures exists k :: (0 <= k < |QuadrantCrops(W, H)| &&
      var b := QuadrantCrops(W, H)[k].box; b.left <= c < b.right && b.top <= r < b.bottom)
  {
    QuadrantCropsShape(W, H);
    var q := QuadrantCrops(W, H);
    var left := c < SixtyPercent(W);
    var top := r < SixtyPercent(H);
    var k := if top then (if left then 0 else 1) else (if left then 2 else 3);
    assert q[k].box.left <= c < q[k].box.right && q[k].box.top <= r < q[k].box.bottom;
  }

  lemma QuadrantCropsGapAtThree()
    ensures SixtyPercent(3) == 1 && 3 - SixtyPercent(3) == 2
  {
  }

  /** `extract_art_region`: columns 8%..92%, rows 15%..68% (floors taken
      exactly); the whole card when that window is empty. */
  function ArtRegion(w: nat, h: nat): (b: Box)
    ensures 0 <= b.left <= b.right <= w && 0 <= b.top <= b.bottom <= h
  {
    var x0, x1 := (8 * w) / 100, (92 * w) / 100;
    var y0, y1 := (15 * h) / 100, (68 * h) / 100;
    if x1 <= x0 || y1 <= y0 then Box(0, 0, w, h) else Box(x0, y0, x1, y1)
  }

  /** The art window falls back to the whole card exactly for cards under 2 px
      on a side; otherwise it is a non-empty window strictly inside the card. */
  lemma ArtRegionFallback(w: nat, h: nat)
    ensures ArtRegion(w, h) == Box(0, 0, w, h) <==> w < 2 || h < 2
    ensures w >= 2 && h >= 2 ==>
      var b := ArtRegion(w, h);
      b.left < b.right && b.top < b.bottom && b.right < w && b.bottom < h
    ensures w >= 2 && h >= 2 ==>
      ArtRegion(w, h) == Box((8 * w) / 100, (15 * h) / 100, (92 * w) / 100, (68 * h) / 100)
  {
    if w >= 2 && h >= 2 {
      assert (92 * w) / 100 > (8 * w) / 100;
      assert (68 * h) / 100 > (15 * h) / 100;
      assert (92 * w) / 100 < w;
      assert (68 * h) / 100 < h;
    } else if w < 2 {
      assert (92 * w) / 100 == 0;
    } else {
      assert (68 * h) / 100 == 0;
    }
  }

  const PADDING: int := 150

  /** The padded listing crop: the bounding box grown by PADDING and clamped to
      the W x H image. */
  function PaddedCrop(r: Rect, W: nat, H: nat): (b: Box)
    ensures b.left >= 0 && b.top >= 0 && b.right <= W && b.bottom <= H
    ensures b.left <= Max(0, r.x) && Min(W, r.Right()) <= b.right
    ensures b.top <= Max(0, r.y) && Min(H, r.Bottom()) <= b.bottom
  {
    Box(Max(0, r.x - PADDING), Max(0, r.y - PADDING),
        Min(W, r.Right() + PADDING), Min(H, r.Bottom() + PADDING))
  }

  predicate NonEmpty(b: Box) {
    b.right > b.left && b.bottom > b.top
  }

  /** For a box of non-negative size the padded crop is non-empty exactly when
      the box comes within PADDING of the image on both axes. */
  lemma PaddedCropNonEmpty(r: Rect, W: nat, H: nat)
    requires r.w >= 0 && r.h >= 0
    ensures NonEmpty(PaddedCrop(r, W, H)) <==>
      W > 0 && H > 0 && r.x - PADDING < W && r.Right() + PADDING > 0 &&
      r.y - PADDING < H && r.Bottom() + PADDING > 0
  {
  }

  /** Where the listing image of one side comes from. */
  datatype ListingSource = CropOf(box: Box) | WarpedCard

  /** Front side: an empty padded crop is replaced by the warped card image. */
  function FrontListing(r: Rect, W: nat, H: nat): (s: ListingSource)
    ensures s.CropOf? <==> NonEmpty(PaddedCrop(r, W, H))
    ensures s.CropOf? ==> s.box == PaddedCrop(r, W, H)
  {
    var b := PaddedCrop(r, W, H);
    if b.right > b.left && b.bottom > b.top then CropOf(b) else WarpedCard
  }

  /** Back side: an empty padded crop means the back is skipped (None). */
  function BackListing(r: Rect, W: nat, H: nat): (s: Option<Box>)
    ensures s.Some? <==> NonEmpty(PaddedCrop(r, W, H))
    ensures s.Some? ==> s.value == PaddedCrop(r, W, H)
  {
    var b := PaddedCrop(r, W, H);
    if b.right <= b.left || b.bottom <= b.top then None else Some(b)
  }

}
