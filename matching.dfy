/**
 * Matching card backs to card fronts. Centres are compared through a
 * distance matrix: `d[f][b]` is the distance between front `f` and back `b`.
 * With equal counts the backs are taken in order unless the reversed order
 * is strictly cheaper; otherwise each back takes the nearest unused front,
 * and once every front is used, the nearest front overall.
 */
module BackMatching {

  import opened Wrappers
  import opened Geometry

  /** `d` has one row per front and one column per back. */
  predicate WellFormed(d: seq<seq<real>>, nf: nat, nb: nat) {
    |d| == nf && forall f :: 0 <= f < nf ==> |d[f]| == nb
  }

  /** The distances from back `b` to every front. */
  function Column(d: seq<seq<real>>, nf: nat, nb: nat, b: nat): (c: seq<real>)
    requires WellFormed(d, nf, nb) && b < nb
    ensures |c| == nf && forall f :: 0 <= f < nf ==> c[f] == d[f][b]
  {
    seq(nf, f requires 0 <= f < nf => d[f][b])
  }

  /** Left-to-right sum, as Python's `sum`. */
  function Sum(s: seq<real>): real {
    if s == [] then 0.0 else Sum(s[..|s| - 1]) + s[|s| - 1]
  }

  lemma {:induction false} SumAppend(s: seq<real>, t: seq<real>)
    ensures Sum(s + t) == Sum(s) + Sum(t)
    decreases |t|
  {
    if t == [] {
      assert s + t == s;
    } else {
      assert (s + t)[..|s + t| - 1] == s + t[..|t| - 1];
      SumAppend(s, t[..|t| - 1]);
    }
  }

  function Reversed(s: seq<real>): (r: seq<real>)
    ensures |r| == |s| && forall i :: 0 <= i < |s| ==> r[i] == s[|s| - 1 - i]
  {
    seq(|s|, i requires 0 <= i < |s| => s[|s| - 1 - i])
  }

  /** Summing in the opposite order gives the same total. */
  lemma {:induction false} SumReversed(s: seq<real>)
    ensures Sum(Reversed(s)) == Sum(s)
    decreases |s|
  {
    if s != [] {
      var init := s[..|s| - 1];
      SumReversed(init);
      assert Reversed(s) == [s[|s| - 1]] + Reversed(init);
      SumAppend([s[|s| - 1]], Reversed(init));
      assert Sum([s[|s| - 1]]) == s[|s| - 1] by {
        assert [s[|s| - 1]][..0] == [];
      }
    }
  }

  /** `d_order`: front i with back i. */
  function ForwardCost(d: seq<seq<real>>, n: nat): real
    requires WellFormed(d, n, n)
  {
    Sum(seq(n, i requires 0 <= i < n => d[i][i]))
  }

  /** `d_rev`: front i with back n-1-i. */
  function ReverseCost(d: seq<seq<real>>, n: nat): real
    requires WellFormed(d, n, n)
  {
    Sum(seq(n, i requires 0 <= i < n => d[i][n - 1 - i]))
  }

  /** Each back has a front, no front twice. */
  predicate IsPermutation(a: seq<nat>, n: nat) {
    |a| == n && (forall b :: 0 <= b < n ==> a[b] < n) &&
    forall i, j :: 0 <= i < j < n ==> a[i] != a[j]
  }

  /** The total distance of an assignment of a front `a[b]` to every back `b`. */
  function MatchCost(d: seq<seq<real>>, nf: nat, nb: nat, a: seq<nat>): real
    requires WellFormed(d, nf, nb) && |a| == nb && forall b :: 0 <= b < nb ==> a[b] < nf
  {
    Sum(seq(nb, b requires 0 <= b < nb => d[a[b]][b]))
  }

  /** The equal-count policy: back b goes to front b, or to front n-1-b when
      the reversed order is strictly cheaper. */
  function EqualCountMatch(d: seq<seq<real>>, n: nat): (a: seq<nat>)
    requires WellFormed(d, n, n)
    ensures IsPermutation(a, n)
    ensures ForwardCost(d, n) <= ReverseCost(d, n) ==> forall b :: 0 <= b < n ==> a[b] == b
    ensures ForwardCost(d, n) > ReverseCost(d, n) ==> forall b :: 0 <= b < n ==> a[b] == n - 1 - b
  {
    if ForwardCost(d, n) <= ReverseCost(d, n) then seq(n, b => b)
    else seq(n, b requires 0 <= b < n => n - 1 - b)
  }

  /** The chosen order costs the smaller of the two totals. */
  lemma EqualCountMatchCost(d: seq<seq<real>>, n: nat)
    requires WellFormed(d, n, n)
    ensures var c := MatchCost(d, n, n, EqualCountMatch(d, n));
      c <= ForwardCost(d, n) && c <= ReverseCost(d, n) &&
      (c == ForwardCost(d, n) || c == ReverseCost(d, n))
  {
    var a := EqualCountMatch(d, n);
    var costs := seq(n, b requires 0 <= b < n => d[a[b]][b]);
    if ForwardCost(d, n) <= ReverseCost(d, n) {
      assert costs == seq(n, i requires 0 <= i < n => d[i][i]);
    } else {
      var rev := seq(n, i requires 0 <= i < n => d[i][n - 1 - i]);
      assert costs == Reversed(rev);
      SumReversed(rev);
    }
  }

  /** The first index in `allowed` with the least value, or None when no index
      of `c` is allowed: Python's `min(allowed, key=...)` over small integers,
      which are visited in ascending order. */
  function MinIn(c: seq<real>, allowed: set<nat>): (r: Option<nat>)
    ensures r.None? <==> forall k :: k in allowed ==> k >= |c|
    ensures r.Some? ==> r.value < |c| && r.value in allowed
    ensures r.Some? ==> forall k :: k in allowed && k < |c| ==> c[r.value] <= c[k]
    ensures r.Some? ==> forall k :: k in allowed && k < r.value ==> c[r.value] < c[k]
  {
    if c == [] then None
    else
      var p := MinIn(c[..|c| - 1], allowed);
      var last := |c| - 1;
      if last !in allowed then p
      else if p.None? || c[last] < c[p.value] then Some(last)
      else p
  }

  /** `set(range(n))`. */
  function Range(n: nat): (r: set<nat>)
    ensures forall f: nat :: f in r <==> f < n
    ensures |r| == n
  {
    if n == 0 then {} else Range(n - 1) + {n - 1}
  }

  /** Front `best` is, among the fronts not in `excluded`, nearest to back
      `b`, and strictly nearer than every such front of lower index. */
  ghost predicate Nearest(d: seq<seq<real>>, nf: nat, nb: nat, b: nat, best: nat, excluded: seq<nat>) {
    WellFormed(d, nf, nb) && b < nb && best < nf && best !in excluded &&
    forall f :: 0 <= f < nf && f !in excluded ==>
      d[best][b] <= d[f][b] && (f < best ==> d[best][b] < d[f][b])
  }

  /** The fronts back `k` may not take: those already used, while some remain. */
  function Excluded(a: seq<nat>, k: nat, nf: nat): seq<nat>
    requires k <= |a|
  {
    if k < nf then a[..k] else []
  }

  /** One step of the mismatched-count policy for back `b`: the nearest
      unused front, which is then used up, or when none is left the nearest
      front overall. */
  method TakeNearest(d: seq<seq<real>>, nf: nat, nb: nat, b: nat, unused: set<nat>) returns (best: nat, rest: set<nat>)
    requires WellFormed(d, nf, nb) && b < nb && nf > 0
    requires forall f :: f in unused ==> f < nf
    ensures best < nf
    ensures unused != {} ==> best in unused && rest == unused - {best}
    ensures unused != {} ==> forall f :: f in unused ==> d[best][b] <= d[f][b] && (f < best ==> d[best][b] < d[f][b])
    ensures unused == {} ==> rest == {}
    ensures unused == {} ==> forall f :: 0 <= f < nf ==> d[best][b] <= d[f][b] && (f < best ==> d[best][b] < d[f][b])
  {
    var col := Column(d, nf, nb, b);
    if unused != {} {
      var m := MinIn(col, unused);
      best := m.value;
      rest := unused - {best};
    } else {
      var m := MinIn(col, Range(nf));
      assert 0 in Range(nf);
      best := m.value;
      rest := unused;
    }
  }

  lemma NearestExtend(d: seq<seq<real>>, nf: nat, nb: nat, a: seq<nat>, best: nat)
    requires forall k :: 0 <= k < |a| ==> Nearest(d, nf, nb, k, a[k], Excluded(a, k, nf))
    requires Nearest(d, nf, nb, |a|, best, Excluded(a, |a|, nf))
    ensures var a' := a + [best];
      forall k :: 0 <= k < |a'| ==> Nearest(d, nf, nb, k, a'[k], Excluded(a', k, nf))
  {
    var a' := a + [best];
    forall k | 0 <= k < |a'| ensures Nearest(d, nf, nb, k, a'[k], Excluded(a', k, nf)) {
      assert a'[..k] == a[..k];
      if k < |a| {
        assert a'[k] == a[k];
      }
    }
  }

  /** The mismatched-count policy, back by back. */
  method GreedyMatch(d: seq<seq<real>>, nf: nat, nb: nat) returns (a: seq<nat>)
    requires WellFormed(d, nf, nb) && nf > 0
    ensures |a| == nb && forall b :: 0 <= b < nb ==> a[b] < nf
    // while fronts remain, each back takes the nearest unused front, so no front is used twice
    ensures forall b :: 0 <= b < nb && b < nf ==> Nearest(d, nf, nb, b, a[b], a[..b])
    ensures forall i, j :: 0 <= i < j < nb && j < nf ==> a[i] != a[j]
    // afterwards each back takes the nearest front overall
    ensures forall b :: nf <= b < nb ==> Nearest(d, nf, nb, b, a[b], [])
  {
    a := [];
    var unused: set<nat> := Range(nf);
    for b := 0 to nb
      invariant |a| == b && forall k :: 0 <= k < b ==> a[k] < nf
      invariant forall f: nat :: f in unused <==> f < nf && f !in a
      invariant |unused| == if b <= nf then nf - b else 0
      invariant forall k :: 0 <= k < b ==> Nearest(d, nf, nb, k, a[k], Excluded(a, k, nf))
    {
      ghost var wasEmpty := unused == {};
      var best;
      best, unused := TakeNearest(d, nf, nb, b, unused);
      if !wasEmpty {
        assert b < nf;
        assert Nearest(d, nf, nb, b, best, a);
      } else {
        assert b >= nf;
        assert Nearest(d, nf, nb, b, best, []);
      }
      NearestExtend(d, nf, nb, a, best);
      a := a + [best];
    }
    forall i, j | 0 <= i < j < nb && j < nf ensures a[i] != a[j] {
      assert Nearest(d, nf, nb, j, a[j], Excluded(a, j, nf));
      assert a[i] in a[..j];
    }
  }

  /** The front for each back (empty when no fronts were kept). */
  method MatchBacks(d: seq<seq<real>>, nf: nat, nb: nat) returns (a: seq<nat>)
    requires WellFormed(d, nf, nb)
    ensures nf == 0 ==> a == []
    ensures nf > 0 ==> |a| == nb && forall b :: 0 <= b < nb ==> a[b] < nf
    ensures nf > 0 && nf == nb ==> a == EqualCountMatch(d, nf)
    ensures nf > 0 && nf != nb ==> forall b :: 0 <= b < nb && b < nf ==> Nearest(d, nf, nb, b, a[b], a[..b])
    ensures nf > 0 && nf != nb ==> forall i, j :: 0 <= i < j < nb && j < nf ==> a[i] != a[j]
    ensures nf > 0 && nf != nb ==> forall b :: nf <= b < nb ==> Nearest(d, nf, nb, b, a[b], [])
  {
    if nf == 0 {
      a := [];
    } else if nf == nb {
      a := EqualCountMatch(d, nf);
    } else {
      a := GreedyMatch(d, nf, nb);
    }
  }

  /** The back crops written: for every back whose padded crop is not empty,
      its front and the crop. A skipped back still used up its front. */
  function BackCrops(a: seq<nat>, backs: seq<Rect>, W: nat, H: nat): (w: seq<(nat, Box)>)
    requires |a| == |backs|
    ensures |w| <= |backs|
    ensures forall e :: e in w ==> NonEmpty(e.1) && e.1.left >= 0 && e.1.top >= 0 && e.1.right <= W && e.1.bottom <= H
    ensures forall e :: e in w ==> exists b :: 0 <= b < |backs| && e == (a[b], PaddedCrop(backs[b], W, H))
    ensures forall b :: 0 <= b < |backs| && NonEmpty(PaddedCrop(backs[b], W, H)) ==>
      (a[b], PaddedCrop(backs[b], W, H)) in w
    ensures |backs| == 1 ==> w == if NonEmpty(PaddedCrop(backs[0], W, H)) then [(a[0], PaddedCrop(backs[0], W, H))] else []
  {
    if a == [] then []
    else
      var rest := BackCrops(a[1..], backs[1..], W, H);
      assert forall b :: 1 <= b < |backs| ==> backs[b] == backs[1..][b - 1] && a[b] == a[1..][b - 1];
      var head := BackListing(backs[0], W, H);
      (if head.Some? then [(a[0], head.value)] else []) + rest
  }

  /** The crops are taken back by back, so (with the one-back case) the list
      holds exactly the backs with a non-empty crop, in order. */
  lemma {:induction false} BackCropsAppend(a1: seq<nat>, b1: seq<Rect>, a2: seq<nat>, b2: seq<Rect>, W: nat, H: nat)
    requires |a1| == |b1| && |a2| == |b2|
    ensures BackCrops(a1 + a2, b1 + b2, W, H) == BackCrops(a1, b1, W, H) + BackCrops(a2, b2, W, H)
    decreases |a1|
  {
    if a1 == [] {
      assert a1 + a2 == a2 && b1 + b2 == b2;
    } else {
      assert (a1 + a2)[1..] == a1[1..] + a2 && (b1 + b2)[1..] == b1[1..] + b2;
      assert (a1 + a2)[0] == a1[0] && (b1 + b2)[0] == b1[0];
      BackCropsAppend(a1[1..], b1[1..], a2, b2, W, H);
    }
  }
}
