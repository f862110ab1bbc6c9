/**
 * The scoring and naming rules of the card pipeline: how an OCR line is
 * scored as a card name, the clamped confidence that routes a card to an
 * "Uncertain_" folder, which collector-number match wins, how folder names
 * are sanitised and numbered, and how `safe_move` picks a free file name.
 */
module Naming {

  import opened Strings
  import opened Wrappers

  /** The number of characters of `s` satisfying `p`. */
  function Count(s: string, p: char -> bool): nat {
    if s == [] then 0 else (if p(s[0]) then 1 else 0) + Count(s[1..], p)
  }

  lemma {:induction false} CountAll(s: string, p: char -> bool)
    ensures Count(s, p) <= |s|
    ensures Count(s, p) == |s| <==> forall i :: 0 <= i < |s| ==> p(s[i])
  {
    if s != [] {
      CountAll(s[1..], p);
      assert forall i :: 1 <= i < |s| ==> s[i] == s[1..][i - 1];
    }
  }

  // ---------------------------------------------------------------------
  // score_ocr_candidate
  // ---------------------------------------------------------------------

  /** A character that is not alphanumeric, not whitespace and not one of - ' /. */
  predicate IsJunk(c: char) {
    !(IsAsciiLetter(c) || IsAsciiDigit(c) || IsSpace(c) || c == '-' || c == '\'' || c == '/')
  }

  /** Two points per letter, one per digit, minus two per junk character of
      the stripped text; blank text scores 0. */
  function ScoreOcrCandidate(text: string): int {
    var cleaned := Strip(text);
    if cleaned == [] then 0
    else 2 * Count(cleaned, IsAsciiLetter) + Count(cleaned, IsAsciiDigit) - 2 * Count(cleaned, IsJunk)
  }

  lemma {:induction false} CountClasses(s: string)
    ensures Count(s, IsAsciiLetter) + Count(s, IsAsciiDigit) + Count(s, IsJunk) <= |s|
  {
    if s != [] {
      CountClasses(s[1..]);
    }
  }

  /** The score is at most two points per stripped character and reaches that
      bound exactly when the stripped text is all letters. */
  lemma ScoreBounds(text: string)
    ensures var c := Strip(text);
      -2 * |c| <= ScoreOcrCandidate(text) <= 2 * |c| &&
      (ScoreOcrCandidate(text) == 2 * |c| <==> forall i :: 0 <= i < |c| ==> IsAsciiLetter(c[i]))
  {
    var c := Strip(text);
    CountClasses(c);
    CountAll(c, IsAsciiLetter);
    CountAll(c, IsAsciiDigit);
    CountAll(c, IsJunk);
  }

  lemma StripIdempotent(s: string)
    ensures Strip(Strip(s)) == Strip(s)
  {
    StripNoEdgeSpace(Strip(s));
  }

  /** Surrounding whitespace does not change the score. */
  lemma ScoreIgnoresEdgeSpace(text: string)
    ensures ScoreOcrCandidate(Strip(text)) == ScoreOcrCandidate(text)
  {
    StripIdempotent(text);
  }

  // ---------------------------------------------------------------------
  // compute_final_confidence
  // ---------------------------------------------------------------------

  const AUTO_ACCEPT_THRESHOLD: real := 0.75
  const VISUAL_WEIGHT: real := 0.5
  const NUMBER_WEIGHT: real := 0.3
  const API_WEIGHT: real := 0.2

  function Clamp01(x: real): (r: real)
    ensures 0.0 <= r <= 1.0
    ensures 0.0 <= x <= 1.0 ==> r == x
  {
    if x < 0.0 then 0.0 else if x > 1.0 then 1.0 else x
  }

  /** The weighted evidence (clamped visual score, collector number found,
      API hit), clamped to [0, 1]; no visual score contributes nothing. */
  function FinalConfidence(visualScore: Option<real>, hasNumber: bool, apiHit: bool): (conf: real)
    ensures 0.0 <= conf <= 1.0
  {
    var v := if visualScore.Some? then Clamp01(visualScore.value) * VISUAL_WEIGHT else 0.0;
    var n := if hasNumber then NUMBER_WEIGHT else 0.0;
    var a := if apiHit then API_WEIGHT else 0.0;
    Clamp01(v + n + a)
  }

  predicate AutoAccept(visualScore: Option<real>, hasNumber: bool, apiHit: bool) {
    FinalConfidence(visualScore, hasNumber, apiHit) >= AUTO_ACCEPT_THRESHOLD
  }

  /** The weights sum to 1, so the final clamp never changes the sum. */
  lemma FinalConfidenceUnclamped(visualScore: Option<real>, hasNumber: bool, apiHit: bool)
    ensures var v := if visualScore.Some? then Clamp01(visualScore.value) else 0.0;
      FinalConfidence(visualScore, hasNumber, apiHit) ==
        v * VISUAL_WEIGHT + (if hasNumber then NUMBER_WEIGHT else 0.0) + (if apiHit then API_WEIGHT else 0.0)
  {
  }

  /** A card is accepted automatically exactly when a collector number was
      read, a visual match exists, and that match scores at least 0.5 with an
      API hit or at least 0.9 without one. */
  lemma AutoAcceptIff(visualScore: Option<real>, hasNumber: bool, apiHit: bool)
    ensures AutoAccept(visualScore, hasNumber, apiHit) <==>
      hasNumber && visualScore.Some? &&
      Clamp01(visualScore.value) >= (if apiHit then 0.5 else 0.9)
  {
    FinalConfidenceUnclamped(visualScore, hasNumber, apiHit);
  }

  // ---------------------------------------------------------------------
  // normalize_collector_candidate: the filter and ranking of the matches
  // ---------------------------------------------------------------------

  datatype Label = Ratio | RatioSuffix | GgRatio | Promo

  /** A regular-expression hit: the pattern's kind and the matched text. */
  datatype Match = Match(kind: Label, token: string)

  function Priority(l: Label): nat {
    match l
    case Ratio => 0
    case RatioSuffix => 1
    case GgRatio => 2
    case Promo => 3
  }

  /** `re.sub(r"\s+", "", s)`. */
  function RemoveWhitespace(s: string): (r: string)
    ensures |r| <= |s|
    ensures forall i :: 0 <= i < |r| ==> !IsSpace(r[i])
    ensures (forall i :: 0 <= i < |s| ==> !IsSpace(s[i])) ==> r == s
    ensures |s| == 1 ==> r == (if IsSpace(s[0]) then [] else s)
  {
    if s == [] then []
    else (if IsSpace(s[0]) then [] else [s[0]]) + RemoveWhitespace(s[1..])
  }

  /** Removing whitespace works piece by piece, so (with the one-character
      case) it keeps the other characters in their order. */
  lemma {:induction false} RemoveWhitespaceAppend(s: string, t: string)
    ensures RemoveWhitespace(s + t) == RemoveWhitespace(s) + RemoveWhitespace(t)
    decreases |s|
  {
    if s == [] {
      assert s + t == t;
    } else {
      assert (s + t)[1..] == s[1..] + t;
      RemoveWhitespaceAppend(s[1..], t);
    }
  }

  /** A match is kept when its token has a digit, and a promo token needs at
      least two digits and two letters. */
  predicate Kept(m: Match) {
    var digits := Count(m.token, IsAsciiDigit);
    var letters := Count(m.token, IsAsciiLetter);
    digits > 0 && (m.kind == Promo ==> digits >= 2 && letters >= 2)
  }

  /** The kept matches, with whitespace removed from their tokens, in order. */
  function KeptMatches(ms: seq<Match>): (r: seq<Match>)
    ensures |r| <= |ms|
    ensures forall m :: m in r ==> Kept(m) && exists k :: 0 <= k < |ms| && m == Match(ms[k].kind, RemoveWhitespace(ms[k].token))
    ensures forall k :: 0 <= k < |ms| && Kept(Match(ms[k].kind, RemoveWhitespace(ms[k].token))) ==>
      Match(ms[k].kind, RemoveWhitespace(ms[k].token)) in r
    ensures |ms| == 1 ==> var m := Match(ms[0].kind, RemoveWhitespace(ms[0].token));
      r == if Kept(m) then [m] else []
  {
    if ms == [] then []
    else
      var m := Match(ms[0].kind, RemoveWhitespace(ms[0].token));
      var rest := KeptMatches(ms[1..]);
      assert forall k :: 1 <= k < |ms| ==> ms[k] == ms[1..][k - 1];
      (if Kept(m) then [m] else []) + rest
  }

  /** The filter works piece by piece, so (with the one-match case) the kept
      matches come out in input order. */
  lemma {:induction false} KeptMatchesAppend(a: seq<Match>, b: seq<Match>)
    ensures KeptMatches(a + b) == KeptMatches(a) + KeptMatches(b)
    decreases |a|
  {
    if a == [] {
      assert a + b == b;
    } else {
      assert (a + b)[1..] == a[1..] + b;
      assert (a + b)[0] == a[0];
      KeptMatchesAppend(a[1..], b);
    }
  }

  /** `sort_key`: lower priority first, then more digits, more letters, shorter. */
  datatype RankKey = RankKey(priority: int, negDigits: int, negLetters: int, length: int)

  function SortKey(m: Match): RankKey {
    RankKey(Priority(m.kind), -(Count(m.token, IsAsciiDigit) as int), -(Count(m.token, IsAsciiLetter) as int), |m.token|)
  }

  predicate RankLess(a: RankKey, b: RankKey) {
    a.priority < b.priority ||
    (a.priority == b.priority && (a.negDigits < b.negDigits ||
    (a.negDigits == b.negDigits && (a.negLetters < b.negLetters ||
    (a.negLetters == b.negLetters && a.length < b.length)))))
  }

  /** Python's `min(ms, key=SortKey)`: the first of the least keys. */
  function FirstMin(ms: seq<Match>): (i: nat)
    requires |ms| > 0
    ensures i < |ms|
    ensures forall j :: 0 <= j < |ms| ==> !RankLess(SortKey(ms[j]), SortKey(ms[i]))
    ensures forall j :: 0 <= j < i ==> RankLess(SortKey(ms[i]), SortKey(ms[j]))
  {
    if |ms| == 1 then 0
    else
      var k := FirstMin(ms[..|ms| - 1]);
      assert forall j :: 0 <= j < |ms| - 1 ==> ms[..|ms| - 1][j] == ms[j];
      if RankLess(SortKey(ms[|ms| - 1]), SortKey(ms[k])) then |ms| - 1 else k
  }

  /** The winning match, or None when no match survives the filter. */
  function BestMatch(ms: seq<Match>): (r: Option<Match>)
    ensures r.None? <==> KeptMatches(ms) == []
    ensures r.Some? ==> r.value in KeptMatches(ms)
    ensures r.Some? ==> forall m :: m in KeptMatches(ms) ==> !RankLess(SortKey(m), SortKey(r.value))
    ensures r.Some? ==> exists i :: 0 <= i < |KeptMatches(ms)| && KeptMatches(ms)[i] == r.value &&
                          forall j :: 0 <= j < i ==> RankLess(SortKey(r.value), SortKey(KeptMatches(ms)[j]))
  {
    var kept := KeptMatches(ms);
    if kept == [] then None else Some(kept[FirstMin(kept)])
  }

  /** `normalize_collector_candidate` once the regular expressions have run. */
  function NormalizeCollectorCandidate(ms: seq<Match>): (r: Option<string>)
    ensures r.None? <==> forall k :: 0 <= k < |ms| ==> !Kept(Match(ms[k].kind, RemoveWhitespace(ms[k].token)))
    ensures r.Some? ==> |r.value| > 0 && exists k :: 0 <= k < |ms| && r.value == RemoveWhitespace(ms[k].token)
    ensures r == if BestMatch(ms).None? then None else Some(BestMatch(ms).value.token)
  {
    var b := BestMatch(ms);
    if b.None? then None
    else
      assert b.value in KeptMatches(ms);
      CountAll(b.value.token, IsAsciiDigit);
      Some(b.value.token)
  }

  /** A kept plain ratio match always beats every other kind, and among
      matches of the winner's kind none has more digits. */
  lemma BestMatchPrefersRatio(ms: seq<Match>, k: nat)
    requires k < |ms| && Kept(Match(ms[k].kind, RemoveWhitespace(ms[k].token)))
    ensures BestMatch(ms).Some?
    ensures ms[k].kind == Ratio ==> BestMatch(ms).value.kind == Ratio
    ensures var b := BestMatch(ms).value;
      ms[k].kind == b.kind ==> Count(RemoveWhitespace(ms[k].token), IsAsciiDigit) <= Count(b.token, IsAsciiDigit)
  {
    var m := Match(ms[k].kind, RemoveWhitespace(ms[k].token));
    assert m in KeptMatches(ms);
  }

  // ---------------------------------------------------------------------
  // sanitize_filename
  // ---------------------------------------------------------------------

  predicate IsForbidden(c: char) {
    c in "\\/*?:\"<>|"
  }

  /** Drops every backslash, slash, star, question mark, colon, double quote, angle bracket and bar. */
  function RemoveForbidden(s: string): (r: string)
    ensures |r| <= |s|
    ensures forall i :: 0 <= i < |r| ==> !IsForbidden(r[i]) && r[i] in s
  {
    if s == [] then []
    else (if IsForbidden(s[0]) then [] else [s[0]]) + RemoveForbidden(s[1..])
  }

  /** `s.replace(a, b)` for single characters. */
  function Replace(s: string, a: char, b: char): (r: string)
    ensures |r| == |s| && forall i :: 0 <= i < |s| ==> r[i] == (if s[i] == a then b else s[i])
  {
    if s == [] then [] else [if s[0] == a then b else s[0]] + Replace(s[1..], a, b)
  }

  /** The folder-safe form of a name: forbidden characters removed, then
      stripped, then spaces replaced by underscores. */
  function SanitizeFilename(name: string): (r: string)
    ensures forall i :: 0 <= i < |r| ==> !IsForbidden(r[i]) && r[i] != ' '
    ensures r != [] ==> !IsSpace(r[0]) && !IsSpace(r[|r| - 1])
  {
    var cleaned := RemoveForbidden(name);
    var t := Strip(cleaned);
    StripAllowed(cleaned);
    ReplaceSpaces(t);
    Replace(t, ' ', '_')
  }

  /** Replacing spaces by underscores keeps a clean, stripped name clean
      and adds no space at either end. */
  lemma ReplaceSpaces(t: string)
    requires forall i :: 0 <= i < |t| ==> !IsForbidden(t[i])
    requires t != [] ==> !IsSpace(t[0]) && !IsSpace(t[|t| - 1])
    ensures var r := Replace(t, ' ', '_');
      (forall i :: 0 <= i < |r| ==> !IsForbidden(r[i]) && r[i] != ' ') &&
      (r != [] ==> !IsSpace(r[0]) && !IsSpace(r[|r| - 1]))
  {
    var r := Replace(t, ' ', '_');
    assert !IsForbidden('_');
    forall i | 0 <= i < |r| ensures !IsForbidden(r[i]) && r[i] != ' ' {
      assert r[i] == (if t[i] == ' ' then '_' else t[i]);
    }
    if r != [] {
      assert IsSpace(' ');
      assert r[0] == t[0] && r[|r| - 1] == t[|t| - 1];
    }
  }

  lemma StripAllowed(s: string)
    requires forall i :: 0 <= i < |s| ==> !IsForbidden(s[i])
    ensures forall i :: 0 <= i < |Strip(s)| ==> !IsForbidden(Strip(s)[i])
  {
    var l := StripLeft(s);
    var t := StripRight(l);
    forall i | 0 <= i < |t| ensures !IsForbidden(t[i]) {
      assert t[i] == l[i] == s[|s| - |l| + i];
    }
  }

  lemma {:induction false} RemoveForbiddenClean(s: string)
    requires forall i :: 0 <= i < |s| ==> !IsForbidden(s[i])
    ensures RemoveForbidden(s) == s
  {
    if s != [] {
      RemoveForbiddenClean(s[1..]);
    }
  }

  /** Sanitising a sanitised name changes nothing. */
  lemma SanitizeIdempotent(name: string)
    ensures SanitizeFilename(SanitizeFilename(name)) == SanitizeFilename(name)
  {
    var r := SanitizeFilename(name);
    RemoveForbiddenClean(r);
    StripNoEdgeSpace(r);
    assert Replace(r, ' ', '_') == r;
  }

  lemma {:induction false} RemoveForbiddenAppend(p: string, s: string)
    ensures RemoveForbidden(p + s) == RemoveForbidden(p) + RemoveForbidden(s)
  {
    if p == [] {
      assert p + s == s;
    } else {
      var c := if IsForbidden(p[0]) then [] else [p[0]];
      assert (p + s)[0] == p[0];
      assert (p + s)[1..] == p[1..] + s;
      RemoveForbiddenAppend(p[1..], s);
      calc {
        RemoveForbidden(p + s);
        c + RemoveForbidden(p[1..] + s);
        c + (RemoveForbidden(p[1..]) + RemoveForbidden(s));
        (c + RemoveForbidden(p[1..])) + RemoveForbidden(s);
        RemoveForbidden(p) + RemoveForbidden(s);
      }
    }
  }

  lemma {:induction false} StripRightAfter(p: string, t: string)
    requires p != [] && !IsSpace(p[|p| - 1])
    ensures StripRight(p + t) == p + StripRight(t)
    decreases |t|
  {
    if t == [] {
      assert p + t == p;
    } else if IsSpace(t[|t| - 1]) {
      assert (p + t)[..|p + t| - 1] == p + t[..|t| - 1];
      StripRightAfter(p, t[..|t| - 1]);
    }
  }

  /** A clean prefix survives sanitising unchanged. */
  lemma SanitizeKeepsPrefix(p: string, s: string)
    requires p != [] && !IsSpace(p[0]) && !IsSpace(p[|p| - 1])
    requires forall i :: 0 <= i < |p| ==> !IsForbidden(p[i]) && p[i] != ' '
    ensures StartsWith(SanitizeFilename(p + s), p)
  {
    RemoveForbiddenAppend(p, s);
    RemoveForbiddenClean(p);
    var t := RemoveForbidden(s);
    assert StripLeft(p + t) == p + t;
    StripRightAfter(p, t);
    var u := p + StripRight(t);
    assert Strip(RemoveForbidden(p + s)) == u;
    ReplaceKeepsPrefix(p, StripRight(t));
  }

  lemma ReplaceKeepsPrefix(p: string, t: string)
    requires forall i :: 0 <= i < |p| ==> p[i] != ' '
    ensures Replace(p + t, ' ', '_')[..|p|] == p
  {
    var r := Replace(p + t, ' ', '_');
    forall i | 0 <= i < |p| ensures r[i] == p[i] {
      assert (p + t)[i] == p[i];
    }
  }

  // ---------------------------------------------------------------------
  // Folder naming in the main loop
  // ---------------------------------------------------------------------

  /** The first non-empty of: the resolved name, the stripped OCR name, the
      visual match's name, "Unknown". Absent values are empty strings. */
  function CardName(resolvedName: string, cardNameRaw: string, visualName: string): (r: string)
    ensures r != []
    ensures var candidates := [resolvedName, Strip(cardNameRaw), visualName, "Unknown"];
      exists i :: 0 <= i < 4 && r == candidates[i] && forall j :: 0 <= j < i ==> candidates[j] == []
  {
    var candidates := [resolvedName, Strip(cardNameRaw), visualName, "Unknown"];
    if resolvedName != [] then
      assert candidates[0] == resolvedName;
      resolvedName
    else if Strip(cardNameRaw) != [] then
      assert candidates[1] == Strip(cardNameRaw);
      Strip(cardNameRaw)
    else if visualName != [] then
      assert candidates[2] == visualName;
      visualName
    else
      assert candidates[3] == "Unknown";
      "Unknown"
  }

  /** The folder name before its card number: the sanitised card name, with
      the collector number ('/' as '_') when accepted automatically, and
      "Uncertain_" in front otherwise. */
  function FolderBase(card: string, collectorNumber: string, visualScore: Option<real>, apiHit: bool): (base: string)
    ensures forall k :: 0 <= k < |base| ==> !IsForbidden(base[k]) && base[k] != ' '
  {
    var formatted := Replace(collectorNumber, '/', '_');
    if AutoAccept(visualScore, collectorNumber != [], apiHit) then
      SanitizeFilename(if formatted != [] then card + "_" + formatted else card)
    else SanitizeFilename("Uncertain_" + card)
  }

  /** The folder of the card with 0-based index `i`, e.g. "Pikachu_25_102_1". */
  function FolderName(resolvedName: string, cardNameRaw: string, visualName: string,
                      collectorNumber: string, visualScore: Option<real>, apiHit: bool, i: nat): string
  {
    FolderBase(CardName(resolvedName, cardNameRaw, visualName), collectorNumber, visualScore, apiHit)
      + "_" + NatToString(i + 1)
  }

  lemma NumberedShape(base: string, d: string)
    requires forall k :: 0 <= k < |base| ==> !IsForbidden(base[k]) && base[k] != ' '
    requires forall k :: 0 <= k < |d| ==> IsAsciiDigit(d[k])
    ensures var f := base + "_" + d;
      EndsWith(f, "_" + d) && forall k :: 0 <= k < |f| ==> !IsForbidden(f[k]) && f[k] != ' '
  {
    var f := base + "_" + d;
    assert f[|f| - |d| - 1..] == "_" + d;
    forall k | 0 <= k < |f| ensures !IsForbidden(f[k]) && f[k] != ' ' {
      if k >= |base| + 1 {
        assert f[k] == d[k - |base| - 1];
      }
    }
  }

  /** Every folder name ends in "_" and the 1-based card number and holds no
      forbidden character and no space. */
  lemma FolderNameShape(resolvedName: string, cardNameRaw: string, visualName: string,
                        collectorNumber: string, visualScore: Option<real>, apiHit: bool, i: nat)
    ensures var f := FolderName(resolvedName, cardNameRaw, visualName, collectorNumber, visualScore, apiHit, i);
      EndsWith(f, "_" + NatToString(i + 1)) &&
      forall k :: 0 <= k < |f| ==> !IsForbidden(f[k]) && f[k] != ' '
  {
    NumberedShape(FolderBase(CardName(resolvedName, cardNameRaw, visualName), collectorNumber, visualScore, apiHit),
                  NatToString(i + 1));
  }

  lemma UncertainBase(card: string, collectorNumber: string, visualScore: Option<real>, apiHit: bool)
    requires !AutoAccept(visualScore, collectorNumber != [], apiHit)
    ensures StartsWith(FolderBase(card, collectorNumber, visualScore, apiHit), "Uncertain_")
  {
    SanitizeKeepsPrefix("Uncertain_", card);
  }

  /** A card that is not accepted automatically lands in an "Uncertain_" folder. */
  lemma FolderNameUncertain(resolvedName: string, cardNameRaw: string, visualName: string,
                            collectorNumber: string, visualScore: Option<real>, apiHit: bool, i: nat)
    requires !AutoAccept(visualScore, collectorNumber != [], apiHit)
    ensures StartsWith(FolderName(resolvedName, cardNameRaw, visualName, collectorNumber, visualScore, apiHit, i), "Uncertain_")
  {
    var card := CardName(resolvedName, cardNameRaw, visualName);
    UncertainBase(card, collectorNumber, visualScore, apiHit);
    var base := FolderBase(card, collectorNumber, visualScore, apiHit);
    PrefixExtends(base, "_", "Uncertain_");
    PrefixExtends(base + "_", NatToString(i + 1), "Uncertain_");
  }

  lemma PrefixExtends(a: string, b: string, p: string)
    requires StartsWith(a, p)
    ensures StartsWith(a + b, p)
  {
    assert (a + b)[..|p|] == a[..|p|];
  }

  lemma DigitSuffixSplit(x: string, d1: string, y: string, d2: string)
    requires forall k :: 0 <= k < |d1| ==> IsAsciiDigit(d1[k])
    requires forall k :: 0 <= k < |d2| ==> IsAsciiDigit(d2[k])
    requires x + "_" + d1 == y + "_" + d2
    ensures d1 == d2
  {
    var s := x + "_" + d1;
    assert s[|s| - |d1| - 1] == '_';
    assert s[|s| - |d2| - 1] == '_';
    assert |d1| == |d2|;
    assert d1 == s[|s| - |d1|..] == d2;
  }

  lemma NumberedInjective(x: string, i: nat, y: string, j: nat)
    requires x + "_" + NatToString(i + 1) == y + "_" + NatToString(j + 1)
    ensures i == j
  {
    DigitSuffixSplit(x, NatToString(i + 1), y, NatToString(j + 1));
    NatToStringInjective(i + 1, j + 1);
  }

  /** Cards with different indices never share a folder, whatever was read off them. */
  lemma FolderNamesDistinct(r1: string, c1: string, v1: string, n1: string, s1: Option<real>, a1: bool, i: nat,
                            r2: string, c2: string, v2: string, n2: string, s2: Option<real>, a2: bool, j: nat)
    requires FolderName(r1, c1, v1, n1, s1, a1, i) == FolderName(r2, c2, v2, n2, s2, a2, j)
    ensures i == j
  {
    var x := FolderBase(CardName(r1, c1, v1), n1, s1, a1);
    var y := FolderBase(CardName(r2, c2, v2), n2, s2, a2);
    assert FolderName(r1, c1, v1, n1, s1, a1, i) == x + "_" + NatToString(i + 1);
    assert FolderName(r2, c2, v2, n2, s2, a2, j) == y + "_" + NatToString(j + 1);
    NumberedInjective(x, i, y, j);
  }

  // ---------------------------------------------------------------------
  // safe_move: the collision-suffix loop
  // ---------------------------------------------------------------------

  /** `os.path.basename`: the part after the last '/'. */
  function Basename(path: string): (r: string)
    ensures EndsWith(path, r)
    ensures forall i :: 0 <= i < |r| ==> r[i] != '/'
    ensures |r| < |path| ==> path[|path| - |r| - 1] == '/'
  {
    if path == [] || path[|path| - 1] == '/' then []
    else Basename(path[..|path| - 1]) + [path[|path| - 1]]
  }

  datatype NameExt = NameExt(name: string, ext: string)

  predicate AllDots(s: string) {
    forall k :: 0 <= k < |s| ==> s[k] == '.'
  }

  /** `os.path.splitext` on a base name: the extension runs from the last dot,
      unless only dots precede it. */
  function SplitExt(base: string): (r: NameExt)
    ensures r.name + r.ext == base
    ensures r.ext == [] || (r.ext[0] == '.' && forall k :: 1 <= k < |r.ext| ==> r.ext[k] != '.')
    ensures r.ext != [] ==> !AllDots(r.name)
    ensures r.ext == [] ==> forall j :: 0 <= j < |base| && base[j] == '.' ==> AllDots(base[..j])
  {
    var i := LastIndexOf(base, '.');
    if i < 0 || AllDots(base[..i]) then
      assert forall j :: 0 <= j < |base| && base[j] == '.' ==> j <= i;
      assert forall j :: 0 <= j <= i ==> base[..j] == base[..i][..j];
      NameExt(base, [])
    else NameExt(base[..i], base[i..])
  }

  /** The `n`-th name tried: the base name itself, then name_1.ext, name_2.ext, ... */
  function Candidate(ne: NameExt, n: nat): string {
    if n == 0 then ne.name + ne.ext else ne.name + "_" + NatToString(n) + ne.ext
  }

  lemma CandidateInjective(ne: NameExt, a: nat, b: nat)
    requires Candidate(ne, a) == Candidate(ne, b)
    ensures a == b
  {
    if a != 0 && b != 0 {
      var s := Candidate(ne, a);
      var da, db := NatToString(a), NatToString(b);
      assert |da| == |db|;
      assert da == s[|ne.name| + 1..|s| - |ne.ext|];
      assert db == s[|ne.name| + 1..|s| - |ne.ext|];
      NatToStringInjective(a, b);
    }
  }

  /** Every candidate keeps the base name's stem and extension. */
  lemma CandidateShape(ne: NameExt, n: nat)
    ensures StartsWith(Candidate(ne, n), ne.name) && EndsWith(Candidate(ne, n), ne.ext)
  {
    var c := Candidate(ne, n);
    assert c[..|ne.name|] == ne.name;
    assert c[|c| - |ne.ext|..] == ne.ext;
  }

  /** The names tried so far are exactly the first `m` candidates. */
  ghost predicate TriedFirst(ne: NameExt, m: nat, tried: set<string>) {
    (forall k :: 0 <= k < m ==> Candidate(ne, k) in tried) &&
    (forall t :: t in tried ==> exists k :: 0 <= k < m && t == Candidate(ne, k))
  }

  /** Trying the next candidate adds a name not tried before. */
  lemma TryNext(ne: NameExt, m: nat, tried: set<string>)
    requires TriedFirst(ne, m, tried)
    ensures Candidate(ne, m) !in tried
    ensures TriedFirst(ne, m + 1, tried + {Candidate(ne, m)})
  {
    if Candidate(ne, m) in tried {
      var k :| 0 <= k < m && Candidate(ne, m) == Candidate(ne, k);
      CandidateInjective(ne, k, m);
    }
  }

  /** Trying an existing candidate leaves fewer existing names untried. */
  lemma TryExisting(ne: NameExt, m: nat, tried: set<string>, existing: set<string>)
    requires TriedFirst(ne, m, tried) && tried <= existing && Candidate(ne, m) in existing
    ensures TriedFirst(ne, m + 1, tried + {Candidate(ne, m)})
    ensures tried + {Candidate(ne, m)} <= existing
    ensures |existing - (tried + {Candidate(ne, m)})| < |existing - tried|
  {
    TryNext(ne, m, tried);
    var c := Candidate(ne, m);
    assert existing - (tried + {c}) == (existing - tried) - {c};
  }

  /** Every candidate tried so far exists. */
  lemma TriedExist(ne: NameExt, m: nat, tried: set<string>, existing: set<string>)
    requires TriedFirst(ne, m, tried) && tried <= existing
    ensures forall k :: 0 <= k < m ==> Candidate(ne, k) in existing
  {
  }

  /** `safe_move`'s choice of target name in a directory whose entries are
      `existing`: the first candidate that does not exist. */
  method SafeMove(src: string, existing: set<string>) returns (target: string)
    ensures target !in existing
    ensures Basename(src) !in existing ==> target == Basename(src)
    ensures exists n: nat :: (target == Candidate(SplitExt(Basename(src)), n) &&
      forall k :: 0 <= k < n ==> Candidate(SplitExt(Basename(src)), k) in existing)
  {
    var base := Basename(src);
    var ne := SplitExt(base);
    var candidate := base;
    var n := 1;
    ghost var tried: set<string> := {};
    while candidate in existing
      invariant n >= 1 && candidate == Candidate(ne, n - 1)
      invariant n > 1 ==> base in existing
      invariant tried <= existing && TriedFirst(ne, n - 1, tried)
      decreases |existing - tried|
    {
      TryExisting(ne, n - 1, tried, existing);
      tried := tried + {candidate};
      candidate := ne.name + "_" + NatToString(n) + ne.ext;
      n := n + 1;
      assert candidate == Candidate(ne, n - 1);
    }
    TriedExist(ne, n - 1, tried, existing);
    target := candidate;
  }
}
