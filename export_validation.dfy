/**
 * The export-bundle validator: which file names an exported pair folder
 * must hold (the listing and four quadrant crops of the front, optionally
 * the warped front, and the same five for the back), the single-extension
 * and manifest rules, the folder-to-names grouping of a directory export
 * and of a ZIP export, and the decision that combines them.
 */
module ExportValidation {

  import opened Wrappers
  import opened Strings

  const EXPECTED_FRONT: seq<string> :=
    ["FRONT_LISTING", "FRONT_TOP_LEFT", "FRONT_TOP_RIGHT", "FRONT_BOTTOM_LEFT", "FRONT_BOTTOM_RIGHT"]
  const EXPECTED_BACK: seq<string> :=
    ["BACK_LISTING", "BACK_TOP_LEFT", "BACK_TOP_RIGHT", "BACK_BOTTOM_LEFT", "BACK_BOTTOM_RIGHT"]
  const WARPED: string := "FRONT_WARPED"

  // ---------------------------------------------------------------------
  // pathlib on a base name
  // ---------------------------------------------------------------------

  /** `PurePath.suffix`: from the last dot, unless that dot is the first or
      the last character. */
  function Suffix(name: string): (r: string)
    ensures r == [] || (|r| >= 2 && r[0] == '.' && forall k :: 1 <= k < |r| ==> r[k] != '.')
  {
    var i := LastIndexOf(name, '.');
    if 0 < i < |name| - 1 then name[i..] else []
  }

  /** `PurePath.stem`: the name without its suffix. */
  function Stem(name: string): string {
    var i := LastIndexOf(name, '.');
    if 0 < i < |name| - 1 then name[..i] else name
  }

  lemma StemSuffix(name: string)
    ensures Stem(name) + Suffix(name) == name
  {
  }

  /** A non-empty stem followed by a proper suffix splits back into the two. */
  lemma {:induction false} SplitRoundTrip(stem: string, ext: string)
    requires stem != [] && |ext| >= 2 && ext[0] == '.'
    requires forall k :: 1 <= k < |ext| ==> ext[k] != '.'
    ensures Stem(stem + ext) == stem && Suffix(stem + ext) == ext
  {
    var n := stem + ext;
    assert LastIndexOf(n, '.') == |stem| by {
      LastDotAt(n, |stem|);
    }
  }

  lemma LastDotAt(n: string, i: nat)
    requires i < |n| && n[i] == '.' && forall k :: i < k < |n| ==> n[k] != '.'
    ensures LastIndexOf(n, '.') == i
  {
  }

  const IMAGE_SUFFIXES: set<string> := {".jpg", ".jpeg", ".png"}

  /** `_is_image`: the lower-cased suffix is .jpg, .jpeg or .png. */
  predicate IsImage(name: string) {
    Lower(Suffix(name)) in IMAGE_SUFFIXES
  }

  /** A non-empty stem with an image suffix, in any letter case, is an image,
      and every image name is such a stem and suffix. */
  lemma IsImageIff(name: string)
    ensures IsImage(name) <==>
      Stem(name) != [] && Lower(Suffix(name)) in IMAGE_SUFFIXES && Stem(name) + Suffix(name) == name
  {
    if IsImage(name) {
      assert Suffix(name) != [];
    }
  }

  lemma ImageName(stem: string, ext: string)
    requires stem != [] && Lower(ext) in IMAGE_SUFFIXES
    ensures IsImage(stem + ext) && Stem(stem + ext) == stem
  {
    assert |Lower(ext)| == |ext|;
    assert Lower(ext)[0] == '.' ==> ext[0] == '.';
    SplitRoundTrip(stem, ext);
  }

  // ---------------------------------------------------------------------
  // Issues and manifests
  // ---------------------------------------------------------------------

  /** One line of the validator's report. */
  datatype Issue =
    | MixedExtensions(folder: string, first: string, ext: string)
    | UnexpectedName(folder: string, name: string)
    | MissingFronts(folder: string, stems: seq<string>)
    | MissingBacks(folder: string, stems: seq<string>)
    | CountMismatch(folder: string, expected: nat, fronts: nat, backs: nat, found: nat)
    | ManifestMismatch(folder: string)
    | NoImages(folder: string)
    | ParityMismatch

  /** A parsed MANIFEST.json object: the keys other than "back" and
      "files", the truthiness of "back" when present, and the "files" list
      when present. */
  datatype Manifest = Manifest(otherKeys: set<string>, back: Option<bool>, files: Option<seq<string>>)

  /** A dict is truthy when it has a key. */
  predicate Truthy(m: Manifest) {
    m.otherKeys != {} || m.back.Some? || m.files.Some?
  }

  /** A truthy manifest whose "back" is missing or falsy waives the backs. */
  predicate BacksWaived(manifest: Option<Manifest>) {
    manifest.Some? && Truthy(manifest.value) && manifest.value.back != Some(true)
  }

  /** `manifest.get("files", [])`. */
  function ManifestFiles(m: Manifest): seq<string> {
    if m.files.Some? then m.files.value else []
  }

  // ---------------------------------------------------------------------
  // _validate_pair_images: the scan over the images
  // ---------------------------------------------------------------------

  /** The loop state: the first extension seen, the issues so far, and the
      front and back stems. */
  datatype Scan = Scan(extension: Option<string>, issues: seq<Issue>, fronts: seq<string>, backs: seq<string>)

  function ScanStep(folder: string, st: Scan, name: string): Scan {
    var ext := Lower(Suffix(name));
    var issues :=
      if st.extension.Some? && ext != st.extension.value
      then st.issues + [MixedExtensions(folder, st.extension.value, ext)]
      else st.issues;
    var extension := if st.extension.None? then Some(ext) else st.extension;
    var stem := Stem(name);
    if StartsWith(stem, "FRONT_") then Scan(extension, issues, st.fronts + [stem], st.backs)
    else if StartsWith(stem, "BACK_") then Scan(extension, issues, st.fronts, st.backs + [stem])
    else Scan(extension, issues + [UnexpectedName(folder, name)], st.fronts, st.backs)
  }

  /** The state after scanning `images` in order. */
  function ScanAll(folder: string, images: seq<string>): Scan {
    if images == [] then Scan(None, [], [], [])
    else ScanStep(folder, ScanAll(folder, images[..|images| - 1]), images[|images| - 1])
  }

  predicate IsFrontName(name: string) {
    StartsWith(Stem(name), "FRONT_")
  }

  predicate IsBackName(name: string) {
    !IsFrontName(name) && StartsWith(Stem(name), "BACK_")
  }

  /** The names whose stem starts with neither FRONT_ nor BACK_. */
  function BadNames(names: seq<string>): seq<string> {
    if names == [] then []
    else
      var last := names[|names| - 1];
      BadNames(names[..|names| - 1]) + (if IsFrontName(last) || IsBackName(last) then [] else [last])
  }

  function FrontStems(names: seq<string>): seq<string> {
    if names == [] then []
    else
      var last := names[|names| - 1];
      FrontStems(names[..|names| - 1]) + (if IsFrontName(last) then [Stem(last)] else [])
  }

  function BackStems(names: seq<string>): seq<string> {
    if names == [] then []
    else
      var last := names[|names| - 1];
      BackStems(names[..|names| - 1]) + (if IsBackName(last) then [Stem(last)] else [])
  }

  /** The lower-cased extensions that differ from `first`, in order. */
  function OtherExts(first: string, names: seq<string>): seq<string> {
    if names == [] then []
    else
      var ext := Lower(Suffix(names[|names| - 1]));
      OtherExts(first, names[..|names| - 1]) + (if ext != first then [ext] else [])
  }

  /** The names reported as unexpected, in order. */
  function Unexpected(issues: seq<Issue>): seq<string> {
    if issues == [] then []
    else
      var last := issues[|issues| - 1];
      Unexpected(issues[..|issues| - 1]) + (if last.UnexpectedName? then [last.name] else [])
  }

  /** The extensions reported as mixed, in order. */
  function MixedExts(issues: seq<Issue>): seq<string> {
    if issues == [] then []
    else
      var last := issues[|issues| - 1];
      MixedExts(issues[..|issues| - 1]) + (if last.MixedExtensions? then [last.ext] else [])
  }

  lemma {:induction false} UnexpectedAppend(a: seq<Issue>, b: seq<Issue>)
    ensures Unexpected(a + b) == Unexpected(a) + Unexpected(b)
    ensures MixedExts(a + b) == MixedExts(a) + MixedExts(b)
    decreases |b|
  {
    if b == [] {
      assert a + b == a;
    } else {
      assert (a + b)[..|a + b| - 1] == a + b[..|b| - 1];
      UnexpectedAppend(a, b[..|b| - 1]);
    }
  }

  /** Only the two per-image kinds come out of the scan. */
  predicate ScanKind(i: Issue) {
    i.MixedExtensions? || i.UnexpectedName?
  }

  /** The scan keeps the first image's extension, and has none only for
      an empty folder. */
  lemma {:induction false} ScanExtension(folder: string, images: seq<string>)
    ensures ScanAll(folder, images).extension.None? <==> images == []
    ensures images != [] ==> ScanAll(folder, images).extension == Some(Lower(Suffix(images[0])))
  {
    if images != [] {
      var init := images[..|images| - 1];
      ScanExtension(folder, init);
      if init != [] {
        assert init[0] == images[0];
      }
    }
  }

  /** The scan collects the front and back stems, in order. */
  lemma {:induction false} ScanStems(folder: string, images: seq<string>)
    ensures ScanAll(folder, images).fronts == FrontStems(images)
    ensures ScanAll(folder, images).backs == BackStems(images)
  {
    if images != [] {
      ScanStems(folder, images[..|images| - 1]);
    }
  }

  /** Only the two per-image kinds come out of the scan, all for this folder. */
  lemma {:induction false} ScanKinds(folder: string, images: seq<string>)
    ensures forall x :: x in ScanAll(folder, images).issues ==> ScanKind(x) && x.folder == folder
  {
    if images != [] {
      var init := images[..|images| - 1];
      ScanKinds(folder, init);
      ScanStepKinds(folder, ScanAll(folder, init), images[|images| - 1]);
    }
  }

  lemma ScanStepKinds(folder: string, st: Scan, name: string)
    requires forall x :: x in st.issues ==> ScanKind(x) && x.folder == folder
    ensures forall x :: x in ScanStep(folder, st, name).issues ==> ScanKind(x) && x.folder == folder
  {
  }

  /** The mixed-extension issue one more image adds, when it applies. */
  function MixedStep(folder: string, extension: Option<string>, ext: string): seq<Issue> {
    if extension.Some? && ext != extension.value
    then [MixedExtensions(folder, extension.value, ext)] else []
  }

  /** The unexpected-name issue one more image adds, when it applies. */
  function NameStep(folder: string, name: string, known: bool): seq<Issue> {
    if known then [] else [UnexpectedName(folder, name)]
  }

  /** The issues one more image adds: a mixed-extension issue, then an
      unexpected-name issue, each only when it applies. */
  function StepIssues(folder: string, st: Scan, name: string): seq<Issue> {
    MixedStep(folder, st.extension, Lower(Suffix(name)))
    + NameStep(folder, name, IsFrontName(name) || IsBackName(name))
  }

  lemma ScanStepShape(folder: string, st: Scan, name: string)
    ensures ScanStep(folder, st, name).issues == st.issues + StepIssues(folder, st, name)
  {
    var x := MixedStep(folder, st.extension, Lower(Suffix(name)));
    var y := NameStep(folder, name, IsFrontName(name) || IsBackName(name));
    assert st.issues + x + y == st.issues + (x + y);
  }

  lemma ReportedMixed(folder: string, extension: Option<string>, ext: string)
    ensures Unexpected(MixedStep(folder, extension, ext)) == []
    ensures MixedExts(MixedStep(folder, extension, ext)) ==
      (if extension.Some? && ext != extension.value then [ext] else [])
  {
    var x := MixedStep(folder, extension, ext);
    if x != [] {
      assert x[..0] == [];
    }
  }

  lemma ReportedName(folder: string, name: string, known: bool)
    ensures Unexpected(NameStep(folder, name, known)) == (if known then [] else [name])
    ensures MixedExts(NameStep(folder, name, known)) == []
  {
    var y := NameStep(folder, name, known);
    if y != [] {
      assert y[..0] == [];
    }
  }

  /** What the reports of one step add to those before it. */
  lemma ReportedStep(a: seq<Issue>, x: seq<Issue>, y: seq<Issue>)
    requires |x| <= 1 && |y| <= 1
    ensures Unexpected(a + (x + y)) == Unexpected(a) + Unexpected(x) + Unexpected(y)
    ensures MixedExts(a + (x + y)) == MixedExts(a) + MixedExts(x) + MixedExts(y)
  {
    UnexpectedAppend(a, x + y);
    UnexpectedAppend(x, y);
  }

  /** The names reported as unexpected before and after one more image. */
  lemma ScanStepUnexpected(folder: string, st: Scan, name: string)
    ensures Unexpected(st.issues + StepIssues(folder, st, name)) == Unexpected(st.issues) +
      (if IsFrontName(name) || IsBackName(name) then [] else [name])
  {
    var ext := Lower(Suffix(name));
    var known := IsFrontName(name) || IsBackName(name);
    ReportedMixed(folder, st.extension, ext);
    ReportedName(folder, name, known);
    ReportedStep(st.issues, MixedStep(folder, st.extension, ext), NameStep(folder, name, known));
  }

  /** The extensions reported as mixed before and after one more image. */
  lemma ScanStepMixed(folder: string, st: Scan, name: string)
    ensures var ext := Lower(Suffix(name));
      MixedExts(st.issues + StepIssues(folder, st, name)) == MixedExts(st.issues) +
        (if st.extension.Some? && ext != st.extension.value then [ext] else [])
  {
    var ext := Lower(Suffix(name));
    var known := IsFrontName(name) || IsBackName(name);
    ReportedMixed(folder, st.extension, ext);
    ReportedName(folder, name, known);
    ReportedStep(st.issues, MixedStep(folder, st.extension, ext), NameStep(folder, name, known));
  }

  /** One "unexpected file name" per name with neither prefix, in order. */
  lemma {:induction false} ScanUnexpected(folder: string, images: seq<string>)
    ensures Unexpected(ScanAll(folder, images).issues) == BadNames(images)
  {
    if images != [] {
      var init := images[..|images| - 1];
      ScanUnexpected(folder, init);
      ScanStepShape(folder, ScanAll(folder, init), images[|images| - 1]);
      ScanStepUnexpected(folder, ScanAll(folder, init), images[|images| - 1]);
    }
  }

  /** One "mixed extensions" per image whose extension differs from the
      first image's, in order. */
  lemma {:induction false} ScanMixed(folder: string, images: seq<string>)
    requires images != []
    ensures MixedExts(ScanAll(folder, images).issues) == OtherExts(Lower(Suffix(images[0])), images)
  {
    var init := images[..|images| - 1];
    var name := images[|images| - 1];
    var first := Lower(Suffix(images[0]));
    ScanStepShape(folder, ScanAll(folder, init), name);
    ScanStepMixed(folder, ScanAll(folder, init), name);
    if init == [] {
      assert OtherExts(first, images) == OtherExts(first, []) + [];
    } else {
      assert init[0] == images[0];
      ScanMixed(folder, init);
      ScanExtension(folder, init);
    }
  }

  // ---------------------------------------------------------------------
  // _validate_pair_images: the checks after the scan
  // ---------------------------------------------------------------------

  /** The required front stems, in the order they are declared. */
  function RequiredFronts(expectWarped: bool): (r: seq<string>)
    ensures |r| == (if expectWarped then 6 else 5)
    ensures forall s :: s in r <==> s in EXPECTED_FRONT || (expectWarped && s == WARPED)
    ensures forall i, j :: 0 <= i < j < |r| ==> r[i] != r[j]
  {
    if expectWarped then EXPECTED_FRONT + [WARPED] else EXPECTED_FRONT
  }

  /** The required stems that are not present, in the order required. */
  function Missing(required: seq<string>, present: seq<string>): seq<string> {
    if required == [] then []
    else
      var last := required[|required| - 1];
      Missing(required[..|required| - 1], present) + (if last in present then [] else [last])
  }

  lemma {:induction false} MissingMembers(required: seq<string>, present: seq<string>)
    ensures forall x :: x in Missing(required, present) <==> x in required && x !in present
  {
    if required != [] {
      var init := required[..|required| - 1];
      MissingMembers(init, present);
      assert required == init + [required[|required| - 1]];
    }
  }

  /** `sorted(expected - set(present))`. */
  function MissingSorted(required: seq<string>, present: seq<string>): seq<string> {
    SortStrings(Missing(required, present))
  }

  /** The sorted difference is ascending and holds exactly the required
      stems that are not present. */
  lemma MissingSortedSpec(required: seq<string>, present: seq<string>)
    ensures Sorted(MissingSorted(required, present))
    ensures forall x :: x in MissingSorted(required, present) <==> x in required && x !in present
  {
    var m := Missing(required, present);
    SortStringsSpec(m);
    MissingMembers(required, present);
    assert forall x :: x in SortStrings(m) <==> x in multiset(SortStrings(m));
    assert forall x :: x in m <==> x in multiset(m);
  }

  function FrontIssue(folder: string, expectWarped: bool, fronts: seq<string>): seq<Issue> {
    var missing := MissingSorted(RequiredFronts(expectWarped), fronts);
    if missing != [] then [MissingFronts(folder, missing)] else []
  }

  function BackIssue(folder: string, manifest: Option<Manifest>, backs: seq<string>): seq<Issue> {
    var missing := if BacksWaived(manifest) then [] else MissingSorted(EXPECTED_BACK, backs);
    if missing != [] then [MissingBacks(folder, missing)] else []
  }

  /** The number of images the folder must hold. */
  function ExpectedTotal(expectWarped: bool, manifest: Option<Manifest>): nat {
    |RequiredFronts(expectWarped)| + (if BacksWaived(manifest) then 0 else |EXPECTED_BACK|)
  }

  function CountIssue(folder: string, expectWarped: bool, manifest: Option<Manifest>, total: nat): seq<Issue> {
    var backs := if BacksWaived(manifest) then 0 else |EXPECTED_BACK|;
    var expected := |RequiredFronts(expectWarped)| + backs;
    if total != expected then [CountMismatch(folder, expected, |RequiredFronts(expectWarped)|, backs, total)] else []
  }

  /** A truthy manifest whose non-empty "files" list differs, once sorted,
      from the sorted images. */
  predicate ManifestDisagrees(manifest: Option<Manifest>, images: seq<string>) {
    manifest.Some? && Truthy(manifest.value) &&
    var files := SortStrings(ManifestFiles(manifest.value));
    files != [] && files != SortStrings(images)
  }

  function ManifestIssue(folder: string, manifest: Option<Manifest>, images: seq<string>): seq<Issue> {
    if ManifestDisagrees(manifest, images) then [ManifestMismatch(folder)] else []
  }

  /** The issues of the checks after the scan, in the order they are made. */
  function Checks(folder: string, images: seq<string>, expectWarped: bool, manifest: Option<Manifest>, st: Scan): seq<Issue> {
    FrontIssue(folder, expectWarped, st.fronts)
    + BackIssue(folder, manifest, st.backs)
    + CountIssue(folder, expectWarped, manifest, |images|)
    + ManifestIssue(folder, manifest, images)
    + (if st.extension.None? then [NoImages(folder)] else [])
  }

  /** The full report for one folder. */
  function PairIssues(folder: string, images: seq<string>, expectWarped: bool, manifest: Option<Manifest>): seq<Issue> {
    var st := ScanAll(folder, images);
    st.issues + Checks(folder, images, expectWarped, manifest, st)
  }

  // ---------------------------------------------------------------------
  // What the report of one folder says
  // ---------------------------------------------------------------------

  /** The parts of `Checks`, each of one kind and about this folder. */
  lemma ChecksParts(folder: string, images: seq<string>, expectWarped: bool, manifest: Option<Manifest>, st: Scan)
    ensures var f := FrontIssue(folder, expectWarped, st.fronts);
      |f| <= 1 && forall x :: x in f ==> x.MissingFronts? && x.folder == folder
    ensures var b := BackIssue(folder, manifest, st.backs);
      |b| <= 1 && forall x :: x in b ==> x.MissingBacks? && x.folder == folder
    ensures var c := CountIssue(folder, expectWarped, manifest, |images|);
      |c| <= 1 && forall x :: x in c ==> x.CountMismatch? && x.folder == folder
    ensures var m := ManifestIssue(folder, manifest, images);
      |m| <= 1 && forall x :: x in m ==> x.ManifestMismatch? && x.folder == folder
  {
  }

  lemma InChecks(f: seq<Issue>, b: seq<Issue>, c: seq<Issue>, m: seq<Issue>, e: seq<Issue>, folder: string)
    requires forall x :: x in f ==> x.MissingFronts? && x.folder == folder
    requires forall x :: x in b ==> x.MissingBacks? && x.folder == folder
    requires forall x :: x in c ==> x.CountMismatch? && x.folder == folder
    requires forall x :: x in m ==> x.ManifestMismatch? && x.folder == folder
    requires forall x :: x in e ==> x.NoImages? && x.folder == folder
    ensures forall x :: x in f + b + c + m + e ==> !ScanKind(x) && !x.ParityMismatch? && x.folder == folder
  {
  }

  /** None of the checks after the scan reports a name or an extension;
      each is about this folder. */
  lemma ChecksKinds(folder: string, images: seq<string>, expectWarped: bool, manifest: Option<Manifest>, st: Scan)
    ensures forall x :: x in Checks(folder, images, expectWarped, manifest, st) ==>
      !ScanKind(x) && !x.ParityMismatch? && x.folder == folder
  {
    ChecksParts(folder, images, expectWarped, manifest, st);
    InChecks(FrontIssue(folder, expectWarped, st.fronts), BackIssue(folder, manifest, st.backs),
      CountIssue(folder, expectWarped, manifest, |images|), ManifestIssue(folder, manifest, images),
      if st.extension.None? then [NoImages(folder)] else [], folder);
  }

  lemma {:induction false} NotReported(t: seq<Issue>)
    requires forall x :: x in t ==> !ScanKind(x)
    ensures Unexpected(t) == [] && MixedExts(t) == []
  {
    if t != [] {
      assert t[|t| - 1] in t;
      NotReported(t[..|t| - 1]);
    }
  }

  lemma InConcat(a: seq<Issue>, f: seq<Issue>, b: seq<Issue>, c: seq<Issue>, m: seq<Issue>, e: seq<Issue>)
    ensures forall x :: x in a + (f + b + c + m + e) <==> x in a || x in f || x in b || x in c || x in m || x in e
  {
  }

  /** An issue is in a folder's report exactly when the scan or one of
      the checks reports it. */
  lemma PairMembers(folder: string, images: seq<string>, expectWarped: bool, manifest: Option<Manifest>)
    ensures var st := ScanAll(folder, images);
      forall x :: x in PairIssues(folder, images, expectWarped, manifest) <==>
        x in st.issues || x in FrontIssue(folder, expectWarped, st.fronts) ||
        x in BackIssue(folder, manifest, st.backs) || x in CountIssue(folder, expectWarped, manifest, |images|) ||
        x in ManifestIssue(folder, manifest, images) || (st.extension.None? && x == NoImages(folder))
  {
    var st := ScanAll(folder, images);
    InConcat(st.issues, FrontIssue(folder, expectWarped, st.fronts), BackIssue(folder, manifest, st.backs),
      CountIssue(folder, expectWarped, manifest, |images|), ManifestIssue(folder, manifest, images),
      if st.extension.None? then [NoImages(folder)] else []);
  }

  /** Every issue of a folder's report names that folder. */
  lemma PairIssuesFolder(folder: string, images: seq<string>, expectWarped: bool, manifest: Option<Manifest>)
    ensures forall x :: x in PairIssues(folder, images, expectWarped, manifest) ==>
      !x.ParityMismatch? && x.folder == folder
  {
    var st := ScanAll(folder, images);
    ScanKinds(folder, images);
    ChecksKinds(folder, images, expectWarped, manifest, st);
  }

  /** The report names exactly the images whose stem starts with neither
      FRONT_ nor BACK_, in order. */
  lemma PairUnexpected(folder: string, images: seq<string>, expectWarped: bool, manifest: Option<Manifest>)
    ensures Unexpected(PairIssues(folder, images, expectWarped, manifest)) == BadNames(images)
  {
    var st := ScanAll(folder, images);
    var t := Checks(folder, images, expectWarped, manifest, st);
    ChecksKinds(folder, images, expectWarped, manifest, st);
    NotReported(t);
    UnexpectedAppend(st.issues, t);
    ScanUnexpected(folder, images);
  }

  /** The report lists, in order, every extension that differs from the
      first image's. */
  lemma PairMixed(folder: string, images: seq<string>, expectWarped: bool, manifest: Option<Manifest>)
    requires images != []
    ensures MixedExts(PairIssues(folder, images, expectWarped, manifest)) == OtherExts(Lower(Suffix(images[0])), images)
  {
    var st := ScanAll(folder, images);
    var t := Checks(folder, images, expectWarped, manifest, st);
    ChecksKinds(folder, images, expectWarped, manifest, st);
    NotReported(t);
    UnexpectedAppend(st.issues, t);
    ScanMixed(folder, images);
  }

  /** Each kind of check issue in a folder's report comes from its own check. */
  lemma PairKinds(folder: string, images: seq<string>, expectWarped: bool, manifest: Option<Manifest>)
    ensures var st := ScanAll(folder, images);
      var issues := PairIssues(folder, images, expectWarped, manifest);
      (forall x :: x in issues && x.MissingFronts? <==> x in FrontIssue(folder, expectWarped, st.fronts)) &&
      (forall x :: x in issues && x.MissingBacks? <==> x in BackIssue(folder, manifest, st.backs)) &&
      (forall x :: x in issues && x.CountMismatch? <==> x in CountIssue(folder, expectWarped, manifest, |images|)) &&
      (forall x :: x in issues && x.ManifestMismatch? <==> x in ManifestIssue(folder, manifest, images))
  {
    var st := ScanAll(folder, images);
    ScanKinds(folder, images);
    ChecksParts(folder, images, expectWarped, manifest, st);
    KindsSplit(st.issues, FrontIssue(folder, expectWarped, st.fronts), BackIssue(folder, manifest, st.backs),
      CountIssue(folder, expectWarped, manifest, |images|), ManifestIssue(folder, manifest, images),
      if st.extension.None? then [NoImages(folder)] else []);
  }

  lemma KindsSplit(a: seq<Issue>, f: seq<Issue>, b: seq<Issue>, c: seq<Issue>, m: seq<Issue>, e: seq<Issue>)
    requires forall x :: x in a ==> ScanKind(x)
    requires forall x :: x in f ==> x.MissingFronts?
    requires forall x :: x in b ==> x.MissingBacks?
    requires forall x :: x in c ==> x.CountMismatch?
    requires forall x :: x in m ==> x.ManifestMismatch?
    requires forall x :: x in e ==> x.NoImages?
    ensures forall x :: x in a + (f + b + c + m + e) && x.MissingFronts? <==> x in f
    ensures forall x :: x in a + (f + b + c + m + e) && x.MissingBacks? <==> x in b
    ensures forall x :: x in a + (f + b + c + m + e) && x.CountMismatch? <==> x in c
    ensures forall x :: x in a + (f + b + c + m + e) && x.ManifestMismatch? <==> x in m
  {
  }

  /** "no image files located" is reported exactly for an empty folder. */
  lemma PairNoImages(folder: string, images: seq<string>, expectWarped: bool, manifest: Option<Manifest>)
    ensures NoImages(folder) in PairIssues(folder, images, expectWarped, manifest) <==> images == []
  {
    var st := ScanAll(folder, images);
    PairMembers(folder, images, expectWarped, manifest);
    ScanKinds(folder, images);
    ChecksParts(folder, images, expectWarped, manifest, st);
    ScanExtension(folder, images);
    assert !ScanKind(NoImages(folder));
  }

  lemma CountPart(folder: string, expectWarped: bool, manifest: Option<Manifest>, total: nat)
    ensures CountIssue(folder, expectWarped, manifest, total) != [] <==> total != ExpectedTotal(expectWarped, manifest)
    ensures forall x :: x in CountIssue(folder, expectWarped, manifest, total) ==>
      x.CountMismatch? && x.expected == ExpectedTotal(expectWarped, manifest) && x.found == total
  {
  }

  /** A count mismatch is reported exactly when the number of images
      differs from the number expected, and it carries both numbers. */
  lemma PairCount(folder: string, images: seq<string>, expectWarped: bool, manifest: Option<Manifest>)
    ensures (exists x :: x in PairIssues(folder, images, expectWarped, manifest) && x.CountMismatch?) <==>
      |images| != ExpectedTotal(expectWarped, manifest)
    ensures forall x :: x in PairIssues(folder, images, expectWarped, manifest) && x.CountMismatch? ==>
      x.expected == ExpectedTotal(expectWarped, manifest) && x.found == |images|
  {
    PairKinds(folder, images, expectWarped, manifest);
    CountPart(folder, expectWarped, manifest, |images|);
    var c := CountIssue(folder, expectWarped, manifest, |images|);
    if c != [] {
      assert c[0] in c;
    }
  }

  lemma FrontPart(folder: string, expectWarped: bool, fronts: seq<string>)
    ensures FrontIssue(folder, expectWarped, fronts) != [] <==>
      exists s :: s in RequiredFronts(expectWarped) && s !in fronts
    ensures forall x :: x in FrontIssue(folder, expectWarped, fronts) ==>
      x.MissingFronts? && Sorted(x.stems) &&
      forall s :: s in x.stems <==> s in RequiredFronts(expectWarped) && s !in fronts
  {
    var missing := MissingSorted(RequiredFronts(expectWarped), fronts);
    MissingSortedSpec(RequiredFronts(expectWarped), fronts);
    if exists s :: s in RequiredFronts(expectWarped) && s !in fronts {
      var s :| s in RequiredFronts(expectWarped) && s !in fronts;
      assert s in missing;
    }
    if missing != [] {
      assert missing[0] in missing;
    }
  }

  /** The missing-front report appears exactly when a required front stem is
      absent, and lists exactly the absent ones, ascending. */
  lemma PairFronts(folder: string, images: seq<string>, expectWarped: bool, manifest: Option<Manifest>)
    ensures (exists x :: x in PairIssues(folder, images, expectWarped, manifest) && x.MissingFronts?) <==>
      exists s :: s in RequiredFronts(expectWarped) && s !in FrontStems(images)
    ensures forall x :: x in PairIssues(folder, images, expectWarped, manifest) && x.MissingFronts? ==>
      Sorted(x.stems) && forall s :: s in x.stems <==> s in RequiredFronts(expectWarped) && s !in FrontStems(images)
  {
    var st := ScanAll(folder, images);
    PairKinds(folder, images, expectWarped, manifest);
    ScanStems(folder, images);
    FrontPart(folder, expectWarped, st.fronts);
    var f := FrontIssue(folder, expectWarped, st.fronts);
    if f != [] {
      assert f[0] in f;
    }
  }

  lemma BackPart(folder: string, manifest: Option<Manifest>, backs: seq<string>)
    ensures BackIssue(folder, manifest, backs) != [] <==>
      !BacksWaived(manifest) && exists s :: s in EXPECTED_BACK && s !in backs
    ensures forall x :: x in BackIssue(folder, manifest, backs) ==>
      x.MissingBacks? && Sorted(x.stems) &&
      forall s :: s in x.stems <==> s in EXPECTED_BACK && s !in backs
  {
    var missing := MissingSorted(EXPECTED_BACK, backs);
    MissingSortedSpec(EXPECTED_BACK, backs);
    if exists s :: s in EXPECTED_BACK && s !in backs {
      var s :| s in EXPECTED_BACK && s !in backs;
      assert s in missing;
    }
    if missing != [] {
      assert missing[0] in missing;
    }
  }

  /** The missing-back report appears exactly when the backs are not waived
      and an expected back stem is absent, and lists exactly the absent ones,
      ascending; a waiver also drops the backs from the expected count. */
  lemma PairBacks(folder: string, images: seq<string>, expectWarped: bool, manifest: Option<Manifest>)
    ensures (exists x :: x in PairIssues(folder, images, expectWarped, manifest) && x.MissingBacks?) <==>
      !BacksWaived(manifest) && exists s :: s in EXPECTED_BACK && s !in BackStems(images)
    ensures forall x :: x in PairIssues(folder, images, expectWarped, manifest) && x.MissingBacks? ==>
      Sorted(x.stems) && forall s :: s in x.stems <==> s in EXPECTED_BACK && s !in BackStems(images)
    ensures BacksWaived(manifest) ==> ExpectedTotal(expectWarped, manifest) == |RequiredFronts(expectWarped)|
  {
    var st := ScanAll(folder, images);
    PairKinds(folder, images, expectWarped, manifest);
    ScanStems(folder, images);
    BackPart(folder, manifest, st.backs);
    var b := BackIssue(folder, manifest, st.backs);
    if b != [] {
      assert b[0] in b;
    }
  }

  lemma ManifestPart(folder: string, manifest: Option<Manifest>, images: seq<string>)
    ensures ManifestIssue(folder, manifest, images) != [] <==>
      manifest.Some? && Truthy(manifest.value) && ManifestFiles(manifest.value) != [] &&
      multiset(ManifestFiles(manifest.value)) != multiset(images)
    ensures forall x :: x in ManifestIssue(folder, manifest, images) ==> x == ManifestMismatch(folder)
  {
    if manifest.Some? {
      SortStringsEqual(ManifestFiles(manifest.value), images);
    }
  }

  /** The manifest report appears exactly when a truthy manifest lists a
      non-empty "files" entry whose names, with repetitions, are not the
      images'. */
  lemma PairManifest(folder: string, images: seq<string>, expectWarped: bool, manifest: Option<Manifest>)
    ensures ManifestMismatch(folder) in PairIssues(folder, images, expectWarped, manifest) <==>
      manifest.Some? && Truthy(manifest.value) && ManifestFiles(manifest.value) != [] &&
      multiset(ManifestFiles(manifest.value)) != multiset(images)
  {
    PairKinds(folder, images, expectWarped, manifest);
    ManifestPart(folder, manifest, images);
    var m := ManifestIssue(folder, manifest, images);
    if m != [] {
      assert m[0] in m;
    }
  }

  lemma {:induction false} ReportedEmpty(t: seq<Issue>)
    requires forall x :: x in t ==> ScanKind(x)
    ensures t == [] <==> Unexpected(t) == [] && MixedExts(t) == []
  {
    if t != [] {
      var init := t[..|t| - 1];
      assert t[|t| - 1] in t;
      assert forall x :: x in init ==> x in t;
      ReportedEmpty(init);
    }
  }

  lemma EmptyConcat(a: seq<Issue>, f: seq<Issue>, b: seq<Issue>, c: seq<Issue>, m: seq<Issue>, e: seq<Issue>)
    ensures a + (f + b + c + m + e) == [] <==> a == [] && f == [] && b == [] && c == [] && m == [] && e == []
  {
    assert |a + (f + b + c + m + e)| == |a| + |f| + |b| + |c| + |m| + |e|;
  }

  /** The report is empty exactly when the scan and every check are. */
  lemma PairEmpty(folder: string, images: seq<string>, expectWarped: bool, manifest: Option<Manifest>)
    ensures var st := ScanAll(folder, images);
      PairIssues(folder, images, expectWarped, manifest) == [] <==>
        st.issues == [] && FrontIssue(folder, expectWarped, st.fronts) == [] &&
        BackIssue(folder, manifest, st.backs) == [] && CountIssue(folder, expectWarped, manifest, |images|) == [] &&
        ManifestIssue(folder, manifest, images) == [] && st.extension.Some?
  {
    var st := ScanAll(folder, images);
    EmptyConcat(st.issues, FrontIssue(folder, expectWarped, st.fronts), BackIssue(folder, manifest, st.backs),
      CountIssue(folder, expectWarped, manifest, |images|), ManifestIssue(folder, manifest, images),
      if st.extension.None? then [NoImages(folder)] else []);
  }

  /** A folder is clean exactly when every image has an expected prefix and
      the first image's extension, every required front and (unless waived)
      every back is there, the count is right, the manifest agrees and the
      folder is not empty. */
  lemma PairClean(folder: string, images: seq<string>, expectWarped: bool, manifest: Option<Manifest>)
    ensures PairIssues(folder, images, expectWarped, manifest) == [] <==>
      images != [] &&
      BadNames(images) == [] &&
      OtherExts(Lower(Suffix(images[0])), images) == [] &&
      (forall s :: s in RequiredFronts(expectWarped) ==> s in FrontStems(images)) &&
      (BacksWaived(manifest) || forall s :: s in EXPECTED_BACK ==> s in BackStems(images)) &&
      |images| == ExpectedTotal(expectWarped, manifest) &&
      !(manifest.Some? && Truthy(manifest.value) && ManifestFiles(manifest.value) != [] &&
        multiset(ManifestFiles(manifest.value)) != multiset(images))
  {
    var st := ScanAll(folder, images);
    PairEmpty(folder, images, expectWarped, manifest);
    ScanKinds(folder, images);
    ReportedEmpty(st.issues);
    ScanUnexpected(folder, images);
    ScanExtension(folder, images);
    ScanStems(folder, images);
    if images != [] {
      ScanMixed(folder, images);
    }
    FrontPart(folder, expectWarped, st.fronts);
    BackPart(folder, manifest, st.backs);
    CountPart(folder, expectWarped, manifest, |images|);
    ManifestPart(folder, manifest, images);
  }

  /** The loop of `_validate_pair_images` over the images. */
  method ScanImages(folder: string, images: seq<string>)
    returns (extension: Option<string>, issues: seq<Issue>, fronts: seq<string>, backs: seq<string>)
    ensures Scan(extension, issues, fronts, backs) == ScanAll(folder, images)
  {
    issues := [];
    extension := None;
    fronts := [];
    backs := [];
    for i := 0 to |images|
      invariant Scan(extension, issues, fronts, backs) == ScanAll(folder, images[..i])
    {
      var name := images[i];
      assert images[..i + 1][..i] == images[..i];
      var ext := Lower(Suffix(name));
      if extension.None? {
        extension := Some(ext);
      } else if ext != extension.value {
        issues := issues + [MixedExtensions(folder, extension.value, ext)];
      }
      var stem := Stem(name);
      if StartsWith(stem, "FRONT_") {
        fronts := fronts + [stem];
      } else if StartsWith(stem, "BACK_") {
        backs := backs + [stem];
      } else {
        issues := issues + [UnexpectedName(folder, name)];
      }
    }
    assert images[..|images|] == images;
  }

  /** The missing-front check: the first step of CheckScan, computing the
      FrontIssue part of Checks. */
  method CheckFronts(folder: string, expectWarped: bool, fronts: seq<string>) returns (r: seq<Issue>)
    ensures r == FrontIssue(folder, expectWarped, fronts)
  {
    r := [];
    var missingFront := MissingSorted(RequiredFronts(expectWarped), fronts);
    if missingFront != [] {
      r := [MissingFronts(folder, missingFront)];
    }
  }

  /** The missing-back check, with the number of backs then expected: a step
      of CheckScan, computing the BackIssue part of Checks. */
  method CheckBacks(folder: string, manifest: Option<Manifest>, backs: seq<string>)
    returns (r: seq<Issue>, expectedBack: nat)
    ensures r == BackIssue(folder, manifest, backs)
    ensures expectedBack == if BacksWaived(manifest) then 0 else |EXPECTED_BACK|
  {
    r := [];
    var missingBack := MissingSorted(EXPECTED_BACK, backs);
    expectedBack := |EXPECTED_BACK|;
    if manifest.Some? && Truthy(manifest.value) && manifest.value.back != Some(true) {
      expectedBack := 0;
      missingBack := [];
    }
    if missingBack != [] {
      r := [MissingBacks(folder, missingBack)];
    }
  }

  /** The manifest "files" check: a step of CheckScan, computing the
      ManifestIssue part of Checks. */
  method CheckManifest(folder: string, manifest: Option<Manifest>, images: seq<string>) returns (r: seq<Issue>)
    ensures r == ManifestIssue(folder, manifest, images)
  {
    r := [];
    if manifest.Some? && Truthy(manifest.value) {
      var manifestFiles := SortStrings(ManifestFiles(manifest.value));
      if manifestFiles != [] && manifestFiles != SortStrings(images) {
        r := [ManifestMismatch(folder)];
      }
    }
  }

  /** The checks of `_validate_pair_images` after the scan, appended to
      the scan's own issues in the source's order. */
  method CheckScan(folder: string, images: seq<string>, expectWarped: bool, manifest: Option<Manifest>, st: Scan)
    returns (issues: seq<Issue>)
    ensures issues == st.issues + Checks(folder, images, expectWarped, manifest, st)
  {
    var front := CheckFronts(folder, expectWarped, st.fronts);
    var back, expectedBack := CheckBacks(folder, manifest, st.backs);
    var total := |images|;
    var expectedTotal := |RequiredFronts(expectWarped)| + expectedBack;
    var count: seq<Issue> := [];
    if total != expectedTotal {
      count := [CountMismatch(folder, expectedTotal, |RequiredFronts(expectWarped)|, expectedBack, total)];
    }
    var mismatch := CheckManifest(folder, manifest, images);
    var empty: seq<Issue> := [];
    if st.extension.None? {
      empty := [NoImages(folder)];
    }
    issues := st.issues + (front + back + count + mismatch + empty);
  }

  /** `_validate_pair_images`: the scan loop, then the missing-front,
      missing-back, count, manifest and empty-folder checks. */
  method ValidatePairImages(folder: string, images: seq<string>, expectWarped: bool, manifest: Option<Manifest>)
    returns (issues: seq<Issue>)
    ensures issues == PairIssues(folder, images, expectWarped, manifest)
  {
    var extension, scanned, fronts, backs := ScanImages(folder, images);
    issues := CheckScan(folder, images, expectWarped, manifest, Scan(extension, scanned, fronts, backs));
  }
}
