/**
 * `merge_text_boxes`: joins horizontally aligned text boxes into lines. The
 * caller's list is sorted in place by (y0, x0); a box then joins the current
 * line when the vertical centres are within 0.7 line heights and the
 * horizontal gap is under 1.5 line heights.
 */
module TextLines {

  import opened Sorting

  /** A detected text box (x0, y0, x1, y1, conf). */
  datatype TextBox = TextBox(x0: int, y0: int, x1: int, y1: int, conf: real)

  function BoxKey(b: TextBox): Key { Key(b.y0, b.x0) }

  /** `boxes.sort(key=lambda b: (b[1], b[0]))`. */
  function SortBoxes(s: seq<TextBox>): (t: seq<TextBox>)
    ensures |t| == |s| && multiset(t) == multiset(s)
    ensures forall i, j :: 0 <= i < j < |t| ==> t[i].y0 < t[j].y0 || (t[i].y0 == t[j].y0 && t[i].x0 <= t[j].x0)
  {
    var t := SortBy(s, BoxKey);
    assert forall i, j :: 0 <= i < j < |t| ==> !KeyLess(BoxKey(t[j]), BoxKey(t[i]));
    t
  }

  /** The default tolerances, the only ones the pipeline uses. */
  const Y_TOLERANCE_RATIO: real := 0.7
  const X_TOLERANCE_RATIO: real := 1.5

  function MaxInt(a: int, b: int): int { if a >= b then a else b }
  function MinInt(a: int, b: int): int { if a <= b then a else b }

  function LineHeight(cur: TextBox, next: TextBox): int {
    MaxInt(cur.y1 - cur.y0, next.y1 - next.y0)
  }

  function Abs(r: real): real { if r < 0.0 then -r else r }

  /** The alignment and proximity test for a non-degenerate line height. */
  predicate Joins(cur: TextBox, next: TextBox) {
    var lh := LineHeight(cur, next) as real;
    var yc := cur.y0 as real + (cur.y1 - cur.y0) as real / 2.0;
    var nyc := next.y0 as real + (next.y1 - next.y0) as real / 2.0;
    Abs(yc - nyc) < lh * Y_TOLERANCE_RATIO && (next.x0 - cur.x1) as real < lh * X_TOLERANCE_RATIO
  }

  /** The line grown to take in the next box; it keeps its first box's confidence. */
  function Extend(cur: TextBox, next: TextBox): TextBox {
    TextBox(MinInt(cur.x0, next.x0), MinInt(cur.y0, next.y0),
            MaxInt(cur.x1, next.x1), MaxInt(cur.y1, next.y1), cur.conf)
  }

  /** The lines produced from a current line and the boxes still to be read:
      a box meeting a zero line height is skipped, a joining box extends the
      line, any other box closes it and starts the next one. */
  function MergeFrom(cur: TextBox, rest: seq<TextBox>): seq<TextBox>
    decreases |rest|
  {
    if rest == [] then [cur]
    else if LineHeight(cur, rest[0]) == 0 then MergeFrom(cur, rest[1..])
    else if Joins(cur, rest[0]) then MergeFrom(Extend(cur, rest[0]), rest[1..])
    else [cur] + MergeFrom(rest[0], rest[1..])
  }

  /** The lines of an already sorted list of boxes. */
  function MergeLines(sorted: seq<TextBox>): seq<TextBox> {
    if sorted == [] then [] else MergeFrom(sorted[0], sorted[1..])
  }

  /** The in-place `boxes.sort(key=lambda b: (b[1], b[0]))` of `merge_text_boxes`. */
  method SortBoxesInPlace(boxes: array<TextBox>)
    modifies boxes
    ensures boxes[..] == SortBoxes(old(boxes[..]))
  {
    var sorted := SortBoxes(boxes[..]);
    for k := 0 to boxes.Length
      invariant forall m :: 0 <= m < k ==> boxes[m] == sorted[m]
      invariant forall m :: k <= m < boxes.Length ==> boxes[m] == old(boxes[m])
    {
      boxes[k] := sorted[k];
    }
    assert boxes[..] == sorted;
  }

  /** The merge loop of `merge_text_boxes` over the sorted boxes. */
  method MergeSortedBoxes(boxes: array<TextBox>) returns (lines: seq<TextBox>)
    ensures lines == MergeLines(boxes[..])
  {
    if boxes.Length == 0 {
      return [];
    }
    lines := [];
    var current := boxes[0];
    assert boxes[..][1..] == boxes[1..];
    for i := 1 to boxes.Length
      invariant lines + MergeFrom(current, boxes[i..]) == MergeLines(boxes[..])
    {
      var next := boxes[i];
      assert boxes[i..][1..] == boxes[i + 1..];
      var lineHeight := MaxInt(current.y1 - current.y0, next.y1 - next.y0);
      if lineHeight == 0 {
        continue;
      }
      var yCenter := current.y0 as real + (current.y1 - current.y0) as real / 2.0;
      var nyCenter := next.y0 as real + (next.y1 - next.y0) as real / 2.0;
      var isAligned := Abs(yCenter - nyCenter) < lineHeight as real * Y_TOLERANCE_RATIO;
      var isProximal := (next.x0 - current.x1) as real < lineHeight as real * X_TOLERANCE_RATIO;
      if isAligned && isProximal {
        current := TextBox(MinInt(current.x0, next.x0), MinInt(current.y0, next.y0),
                           MaxInt(current.x1, next.x1), MaxInt(current.y1, next.y1), current.conf);
      } else {
        lines := lines + [current];
        current := next;
      }
    }
    lines := lines + [current];
  }

  /** `merge_text_boxes`: sorts `boxes` in place by (y0, x0), then folds them into lines. */
  method MergeTextBoxes(boxes: array<TextBox>) returns (lines: seq<TextBox>)
    modifies boxes
    ensures boxes[..] == SortBoxes(old(boxes[..]))
    ensures lines == MergeLines(boxes[..])
  {
    SortBoxesInPlace(boxes);
    lines := MergeSortedBoxes(boxes);
  }

  predicate Encloses(line: TextBox, b: TextBox) {
    line.x0 <= b.x0 && line.y0 <= b.y0 && b.x1 <= line.x1 && b.y1 <= line.y1
  }

  /** Between one line and one line per box. */
  lemma {:induction false} MergeFromLength(cur: TextBox, rest: seq<TextBox>)
    ensures 1 <= |MergeFrom(cur, rest)| <= |rest| + 1
    decreases |rest|
  {
    if rest != [] {
      MergeFromLength(cur, rest[1..]);
      MergeFromLength(Extend(cur, rest[0]), rest[1..]);
      MergeFromLength(rest[0], rest[1..]);
    }
  }

  /** No boxes give no lines; otherwise at least one line and never more
      lines than boxes. */
  lemma MergeLinesLength(sorted: seq<TextBox>)
    ensures |MergeLines(sorted)| <= |sorted|
    ensures |MergeLines(sorted)| == 0 <==> sorted == []
  {
    if sorted != [] {
      MergeFromLength(sorted[0], sorted[1..]);
    }
  }

  /** Each coordinate of each line is the same coordinate of some box. */
  ghost predicate EdgesFrom(lines: seq<TextBox>, boxes: seq<TextBox>) {
    forall l :: l in lines ==>
      (exists b :: b in boxes && b.x0 == l.x0) && (exists b :: b in boxes && b.y0 == l.y0) &&
      (exists b :: b in boxes && b.x1 == l.x1) && (exists b :: b in boxes && b.y1 == l.y1)
  }

  lemma {:induction false} MergeFromEdges(cur: TextBox, rest: seq<TextBox>, src: seq<TextBox>)
    requires EdgesFrom([cur], src)
    requires forall b :: b in rest ==> b in src
    ensures EdgesFrom(MergeFrom(cur, rest), src)
    decreases |rest|
  {
    if rest != [] {
      assert rest[0] in src;
      assert forall b :: b in rest[1..] ==> b in rest;
      if LineHeight(cur, rest[0]) == 0 {
        MergeFromEdges(cur, rest[1..], src);
      } else if Joins(cur, rest[0]) {
        MergeFromEdges(Extend(cur, rest[0]), rest[1..], src);
      } else {
        assert EdgesFrom([rest[0]], src);
        MergeFromEdges(rest[0], rest[1..], src);
      }
    }
  }

  lemma {:induction false} MergeFromCovers(cur: TextBox, rest: seq<TextBox>)
    ensures var lines := MergeFrom(cur, rest);
      (exists l :: l in lines && Encloses(l, cur)) &&
      forall b :: b in rest && b.y1 > b.y0 ==> exists l :: l in lines && Encloses(l, b)
    decreases |rest|
  {
    if rest == [] {
      assert MergeFrom(cur, rest) == [cur];
      assert cur in MergeFrom(cur, rest) && Encloses(cur, cur);
    } else {
      var nb := rest[0];
      assert forall b :: b in rest ==> b == nb || b in rest[1..];
      if LineHeight(cur, nb) == 0 {
        MergeFromCovers(cur, rest[1..]);
        assert MergeFrom(cur, rest) == MergeFrom(cur, rest[1..]);
      } else if Joins(cur, nb) {
        var e := Extend(cur, nb);
        MergeFromCovers(e, rest[1..]);
        var lines := MergeFrom(e, rest[1..]);
        assert lines == MergeFrom(cur, rest);
        var l :| l in lines && Encloses(l, e);
        assert Encloses(l, cur) && Encloses(l, nb);
      } else {
        MergeFromCovers(nb, rest[1..]);
        var lines := MergeFrom(cur, rest);
        assert lines == [cur] + MergeFrom(nb, rest[1..]);
        assert cur in lines && Encloses(cur, cur);
        var tail := MergeFrom(nb, rest[1..]);
        assert forall l :: l in tail ==> l in lines;
        forall b | b in rest && b.y1 > b.y0
          ensures exists l :: l in lines && Encloses(l, b)
        {
          var l :| l in tail && Encloses(l, b);
          assert l in lines;
        }
      }
    }
  }

  /** Every box of positive height ends up inside some line (the first box
      always does): only boxes meeting a zero line height are dropped. */
  lemma MergeLinesCovers(sorted: seq<TextBox>)
    ensures forall b :: b in sorted && b.y1 > b.y0 ==>
      exists l :: l in MergeLines(sorted) && Encloses(l, b)
  {
    if sorted != [] {
      MergeFromCovers(sorted[0], sorted[1..]);
      assert forall b :: b in sorted ==> b == sorted[0] || b in sorted[1..];
    }
  }

  // ---------------------------------------------------------------------
  // The lines as envelopes of consecutive runs
  // ---------------------------------------------------------------------

  /** The least box around a non-empty run, with its first box's confidence. */
  function Env(run: seq<TextBox>): TextBox
    requires run != []
    decreases |run|
  {
    if |run| == 1 then run[0] else Extend(run[0], Env(run[1..]))
  }

  /** The envelope encloses every box of the run, each of its coordinates is
      that coordinate of some box of the run, and it keeps the first box's
      confidence: it is the least box around the run. */
  lemma {:induction false} EnvSpec(run: seq<TextBox>)
    requires run != []
    ensures Env(run).conf == run[0].conf
    ensures forall b :: b in run ==> Encloses(Env(run), b)
    ensures (exists b :: b in run && b.x0 == Env(run).x0) && (exists b :: b in run && b.y0 == Env(run).y0) &&
            (exists b :: b in run && b.x1 == Env(run).x1) && (exists b :: b in run && b.y1 == Env(run).y1)
    decreases |run|
  {
    if |run| > 1 {
      EnvSpec(run[1..]);
      assert forall b :: b in run ==> b == run[0] || b in run[1..];
      assert forall b :: b in run[1..] ==> b in run;
      assert run[0] in run;
    }
  }

  lemma ExtendAssoc(a: TextBox, b: TextBox, c: TextBox)
    ensures Extend(a, Extend(b, c)) == Extend(Extend(a, b), c)
  {
  }

  /** Growing a run by one box grows its envelope by that box. */
  lemma {:induction false} EnvSnoc(run: seq<TextBox>, b: TextBox)
    requires run != []
    ensures Env(run + [b]) == Extend(Env(run), b)
    decreases |run|
  {
    if |run| == 1 {
      assert (run + [b])[1..] == [b];
    } else {
      assert (run + [b])[1..] == run[1..] + [b];
      EnvSnoc(run[1..], b);
      ExtendAssoc(run[0], Env(run[1..]), b);
    }
  }

  /** The runs of boxes behind the lines, given the current run and the boxes
      still to be read (the decisions are those of MergeFrom). */
  function RunsFrom(run: seq<TextBox>, rest: seq<TextBox>): seq<seq<TextBox>>
    requires run != []
    decreases |rest|
  {
    if rest == [] then [run]
    else if LineHeight(Env(run), rest[0]) == 0 then RunsFrom(run, rest[1..])
    else if Joins(Env(run), rest[0]) then RunsFrom(run + [rest[0]], rest[1..])
    else [run] + RunsFrom([rest[0]], rest[1..])
  }

  /** The runs of a sorted list of boxes, one per line. */
  function Runs(sorted: seq<TextBox>): seq<seq<TextBox>> {
    if sorted == [] then [] else RunsFrom([sorted[0]], sorted[1..])
  }

  ghost predicate AllNonEmpty(runs: seq<seq<TextBox>>) {
    forall k :: 0 <= k < |runs| ==> runs[k] != []
  }

  function Envelopes(runs: seq<seq<TextBox>>): seq<TextBox>
    requires AllNonEmpty(runs)
  {
    if runs == [] then [] else [Env(runs[0])] + Envelopes(runs[1..])
  }

  function Flatten(runs: seq<seq<TextBox>>): seq<TextBox> {
    if runs == [] then [] else runs[0] + Flatten(runs[1..])
  }

  /** A box whose height is not positive. */
  predicate Flat(b: TextBox) {
    b.y1 <= b.y0
  }

  /** `kept` is `s` with some flat boxes taken out, the rest in order. */
  predicate DropsOnlyFlat(kept: seq<TextBox>, s: seq<TextBox>)
    decreases |s|
  {
    if s == [] then kept == []
    else (kept != [] && kept[0] == s[0] && DropsOnlyFlat(kept[1..], s[1..])) ||
         (Flat(s[0]) && DropsOnlyFlat(kept, s[1..]))
  }

  /** Taking out only flat boxes keeps every box of positive height. */
  lemma {:induction false} DropsOnlyFlatKeeps(kept: seq<TextBox>, s: seq<TextBox>)
    requires DropsOnlyFlat(kept, s)
    ensures forall b :: b in s && !Flat(b) ==> b in kept
    ensures forall b :: b in kept ==> b in s
    decreases |s|
  {
    if s != [] {
      assert forall b :: b in s ==> b == s[0] || b in s[1..];
      assert forall b :: b in s[1..] ==> b in s;
      if kept != [] && kept[0] == s[0] && DropsOnlyFlat(kept[1..], s[1..]) {
        DropsOnlyFlatKeeps(kept[1..], s[1..]);
        assert forall b :: b in kept ==> b == kept[0] || b in kept[1..];
        assert forall b :: b in kept[1..] ==> b in kept;
      } else {
        DropsOnlyFlatKeeps(kept, s[1..]);
      }
    }
  }

  lemma EnvelopesCons(run: seq<TextBox>, runs: seq<seq<TextBox>>)
    requires run != [] && AllNonEmpty(runs)
    ensures AllNonEmpty([run] + runs)
    ensures Envelopes([run] + runs) == [Env(run)] + Envelopes(runs)
    ensures Flatten([run] + runs) == run + Flatten(runs)
  {
    assert ([run] + runs)[1..] == runs;
  }

  lemma EnvSingle(b: TextBox)
    ensures Env([b]) == b
  {
  }

  /** The lines from a current run are the envelopes of the runs; those runs
      start with the current run and go on with the remaining boxes, of which
      only flat ones are left out. */
  lemma {:induction false} RunsFromSpec(run: seq<TextBox>, rest: seq<TextBox>)
    requires run != []
    ensures AllNonEmpty(RunsFrom(run, rest))
    ensures MergeFrom(Env(run), rest) == Envelopes(RunsFrom(run, rest))
    ensures var f := Flatten(RunsFrom(run, rest));
      |run| <= |f| && f[..|run|] == run && DropsOnlyFlat(f[|run|..], rest)
    decreases |rest|
  {
    if rest == [] {
      EnvelopesCons(run, []);
      assert run + [] == run;
    } else {
      var b := rest[0];
      if LineHeight(Env(run), b) == 0 {
        RunsFromSpec(run, rest[1..]);
      } else if Joins(Env(run), b) {
        var run' := run + [b];
        RunsFromSpec(run', rest[1..]);
        EnvSnoc(run, b);
        var f := Flatten(RunsFrom(run', rest[1..]));
        assert f[..|run|] == run' [..|run|] == run;
        assert f[|run|..][1..] == f[|run'|..];
      } else {
        RunsFromSpec([b], rest[1..]);
        EnvSingle(b);
        var tail := RunsFrom([b], rest[1..]);
        EnvelopesCons(run, tail);
        var g := Flatten(tail);
        var f := run + g;
        assert f[..|run|] == run;
        assert f[|run|..] == g;
        assert g[0] == b;
      }
    }
  }

  /** `merge_text_boxes` splits the sorted boxes into consecutive runs, of
      which only flat boxes are left out, and returns one line per run: the
      run's envelope, with the confidence of the run's first box. */
  lemma MergeLinesRuns(sorted: seq<TextBox>)
    ensures AllNonEmpty(Runs(sorted))
    ensures MergeLines(sorted) == Envelopes(Runs(sorted))
    ensures DropsOnlyFlat(Flatten(Runs(sorted)), sorted)
    ensures sorted != [] ==> Runs(sorted) != [] && Runs(sorted)[0][0] == sorted[0]
  {
    if sorted != [] {
      var runs := Runs(sorted);
      RunsFromSpec([sorted[0]], sorted[1..]);
      EnvSingle(sorted[0]);
      var f := Flatten(runs);
      assert f[..1] == [sorted[0]];
      assert f[1..] == f[|[sorted[0]]|..];
      assert runs != [];
      assert f == runs[0] + Flatten(runs[1..]);
    }
  }

  lemma {:induction false} EnvelopesAt(runs: seq<seq<TextBox>>)
    requires AllNonEmpty(runs)
    ensures |Envelopes(runs)| == |runs|
    ensures forall k :: 0 <= k < |runs| ==> Envelopes(runs)[k] == Env(runs[k])
  {
    if runs != [] {
      assert AllNonEmpty(runs[1..]) by {
        forall k | 0 <= k < |runs[1..]| ensures runs[1..][k] != [] {
          assert runs[1..][k] == runs[k + 1];
        }
      }
      EnvelopesAt(runs[1..]);
      forall k | 1 <= k < |runs| ensures Envelopes(runs)[k] == Env(runs[k]) {
        assert runs[1..][k - 1] == runs[k];
      }
    }
  }

  /** Each line is the least box around its run (EnvSpec), and every
      coordinate of every line is that coordinate of some input box. */
  lemma MergeLinesEdges(sorted: seq<TextBox>)
    ensures AllNonEmpty(Runs(sorted)) && |MergeLines(sorted)| == |Runs(sorted)|
    ensures forall k :: 0 <= k < |MergeLines(sorted)| ==> MergeLines(sorted)[k] == Env(Runs(sorted)[k])
    ensures EdgesFrom(MergeLines(sorted), sorted)
  {
    MergeLinesRuns(sorted);
    EnvelopesAt(Runs(sorted));
    if sorted != [] {
      assert sorted[0] in sorted;
      assert forall b :: b in sorted[1..] ==> b in sorted;
      MergeFromEdges(sorted[0], sorted[1..], sorted);
    }
  }

  /** Every line keeps the confidence of the first box of its run; the first
      line keeps the confidence of the first sorted box. */
  lemma MergeLinesConf(sorted: seq<TextBox>)
    ensures AllNonEmpty(Runs(sorted)) && |MergeLines(sorted)| == |Runs(sorted)|
    ensures forall k :: 0 <= k < |MergeLines(sorted)| ==> MergeLines(sorted)[k].conf == Runs(sorted)[k][0].conf
    ensures sorted != [] ==> |MergeLines(sorted)| > 0 && MergeLines(sorted)[0].conf == sorted[0].conf
  {
    MergeLinesEdges(sorted);
    MergeLinesRuns(sorted);
    var runs: seq<seq<TextBox>> := Runs(sorted);
    forall k | 0 <= k < |runs| ensures MergeLines(sorted)[k].conf == runs[k][0].conf {
      EnvSpec(runs[k]);
    }
  }

  /** A current line of zero height drops every following box of zero
      height. */
  lemma {:induction false} FlatFromDropped(cur: TextBox, rest: seq<TextBox>)
    requires cur.y1 == cur.y0
    requires forall k :: 0 <= k < |rest| ==> rest[k].y1 == rest[k].y0
    ensures MergeFrom(cur, rest) == [cur]
    decreases |rest|
  {
    if rest != [] {
      assert LineHeight(cur, rest[0]) == 0;
      assert forall k :: 0 <= k < |rest[1..]| ==> rest[1..][k] == rest[k + 1];
      FlatFromDropped(cur, rest[1..]);
    }
  }

  /** When every box has zero height, the line height is always zero: every
      box after the first is skipped, and the first box is the only line. */
  lemma FlatBoxDropped(sorted: seq<TextBox>)
    requires sorted != []
    requires forall k :: 0 <= k < |sorted| ==> sorted[k].y1 == sorted[k].y0
    ensures MergeLines(sorted) == [sorted[0]]
  {
    assert forall k :: 0 <= k < |sorted[1..]| ==> sorted[1..][k] == sorted[k + 1];
    FlatFromDropped(sorted[0], sorted[1..]);
  }
}
