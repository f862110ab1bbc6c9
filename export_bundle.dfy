/**
 * The whole-export decision of the validator: the folder-to-names grouping
 * of a directory export and of a ZIP export, the per-folder checks over the
 * directory's folders (with their manifests) or the ZIP's, and the parity
 * comparison between the two groupings.  The file system and the archive
 * reader are replaced by lists of entries in the order they are listed.
 */
module ExportBundle {

  import opened Wrappers
  import opened Strings
  import opened ExportValidation

  // ---------------------------------------------------------------------
  // Entries and groupings
  // ---------------------------------------------------------------------

  /** A path found under the export root: its parent relative to the root
      in posix form ("." for the root itself), its base name, and whether
      it is a regular file. */
  datatype DirEntry = DirEntry(parent: string, name: string, isFile: bool)

  /** An archive member: the posix form of its name's parent ("." for a
      member at the top), its base name, and whether it is a directory. */
  datatype ZipEntry = ZipEntry(parent: string, name: string, isDir: bool)

  /** A dict from folder to names, with its keys in insertion order. */
  datatype Grouping = Grouping(keys: seq<string>, names: map<string, seq<string>>)

  /** The keys are distinct and are exactly the dict's keys. */
  ghost predicate WellFormed(g: Grouping) {
    (forall i, j :: 0 <= i < j < |g.keys| ==> g.keys[i] != g.keys[j]) &&
    (forall k :: k in g.names <==> k in g.keys)
  }

  /** `mapping.setdefault(key, []).append(name)`. */
  function AddName(g: Grouping, key: string, name: string): Grouping {
    if key in g.names then Grouping(g.keys, g.names[key := g.names[key] + [name]])
    else Grouping(g.keys + [key], g.names[key := [name]])
  }

  /** The dict built from (folder, name) pairs in order. */
  function GroupPairs(items: seq<(string, string)>): Grouping {
    if items == [] then Grouping([], map[])
    else
      var last := items[|items| - 1];
      AddName(GroupPairs(items[..|items| - 1]), last.0, last.1)
  }

  /** The names paired with `key`, in order. */
  function NamesOf(items: seq<(string, string)>, key: string): seq<string> {
    if items == [] then []
    else
      var last := items[|items| - 1];
      NamesOf(items[..|items| - 1], key) + (if last.0 == key then [last.1] else [])
  }

  /** `{key: sorted(values) for key, values in mapping.items()}`. */
  function SortGroups(g: Grouping): Grouping {
    Grouping(g.keys, map k | k in g.names :: SortStrings(g.names[k]))
  }

  lemma AddNameSpec(g: Grouping, key: string, name: string)
    requires WellFormed(g)
    ensures WellFormed(AddName(g, key, name))
  {
  }

  /** The grouping has one key per folder that has a name, and files under
      it exactly the names of that folder, in order. */
  lemma {:induction false} GroupPairsSpec(items: seq<(string, string)>)
    ensures WellFormed(GroupPairs(items))
    ensures forall k :: k in GroupPairs(items).names <==> NamesOf(items, k) != []
    ensures forall k :: k in GroupPairs(items).names ==> GroupPairs(items).names[k] == NamesOf(items, k)
  {
    if items != [] {
      var init := items[..|items| - 1];
      GroupPairsSpec(init);
      AddNameSpec(GroupPairs(init), items[|items| - 1].0, items[|items| - 1].1);
    }
  }

  /** After sorting, each folder's names are its names in ascending order,
      repetitions kept. */
  lemma SortGroupsSpec(items: seq<(string, string)>)
    ensures var g := SortGroups(GroupPairs(items));
      WellFormed(g) &&
      (forall k :: k in g.names <==> NamesOf(items, k) != []) &&
      (forall k :: k in g.names ==> Sorted(g.names[k]) && multiset(g.names[k]) == multiset(NamesOf(items, k)))
  {
    GroupPairsSpec(items);
    forall k | k in GroupPairs(items).names
      ensures Sorted(SortStrings(NamesOf(items, k))) && multiset(SortStrings(NamesOf(items, k))) == multiset(NamesOf(items, k))
    {
      SortStringsSpec(NamesOf(items, k));
    }
  }

  // ---------------------------------------------------------------------
  // _collect_directory and _collect_zip
  // ---------------------------------------------------------------------

  /** The (folder, name) pairs of the image files under the root. */
  function DirItems(entries: seq<DirEntry>): seq<(string, string)> {
    if entries == [] then []
    else
      var e := entries[|entries| - 1];
      DirItems(entries[..|entries| - 1]) + (if e.isFile && IsImage(e.name) then [(e.parent, e.name)] else [])
  }

  /** A pair is collected exactly when some listed regular file with an
      image suffix has that parent and name. */
  lemma {:induction false} DirItemsMembers(entries: seq<DirEntry>)
    ensures forall p, n :: (p, n) in DirItems(entries) <==>
      DirEntry(p, n, true) in entries && IsImage(n)
  {
    if entries != [] {
      var init := entries[..|entries| - 1];
      DirItemsMembers(init);
      assert entries == init + [entries[|entries| - 1]];
    }
  }

  /** `str(parent.as_posix()).strip("./")`: drops the dots and slashes at
      both ends. */
  function ZipKey(parent: string): (r: string)
    ensures |r| <= |parent|
    ensures r != [] ==> !DotOrSlash(r[0]) && !DotOrSlash(r[|r| - 1])
    ensures exists a: nat :: TrimmedAt(parent, r, a)
  {
    TrimSlices(parent, StripHead(parent), StripTail(StripHead(parent)));
    StripTail(StripHead(parent))
  }

  lemma TrimSlices(parent: string, h: string, r: string)
    requires |h| <= |parent| && h == parent[|parent| - |h|..]
    requires forall k :: 0 <= k < |parent| - |h| ==> DotOrSlash(parent[k])
    requires |r| <= |h| && r == h[..|r|]
    requires forall k :: |r| <= k < |h| ==> DotOrSlash(h[k])
    ensures TrimmedAt(parent, r, |parent| - |h|)
  {
    var a := |parent| - |h|;
    assert forall k :: 0 <= k < |r| ==> r[k] == parent[a + k];
    assert r == parent[a..a + |r|];
    forall k | a + |r| <= k < |parent| ensures DotOrSlash(parent[k]) {
      assert parent[k] == h[k - a];
    }
  }

  /** `r` is the slice of `parent` from `a`, with only dots and slashes
      before and after it. */
  predicate TrimmedAt(parent: string, r: string, a: nat) {
    a + |r| <= |parent| && r == parent[a..a + |r|] &&
    (forall k :: 0 <= k < a ==> DotOrSlash(parent[k])) &&
    (forall k :: a + |r| <= k < |parent| ==> DotOrSlash(parent[k]))
  }

  /** A parent with neither a dot nor a slash at its ends is its own key. */
  lemma ZipKeyClean(parent: string)
    requires parent == [] || (!DotOrSlash(parent[0]) && !DotOrSlash(parent[|parent| - 1]))
    ensures ZipKey(parent) == parent
  {
  }

  /** A member at the top of the archive is filed under the empty key. */
  lemma ZipKeyTop()
    ensures ZipKey(".") == []
  {
    assert StripHead(".") == StripHead("");
  }

  predicate DotOrSlash(c: char) {
    c == '.' || c == '/'
  }

  function StripHead(s: string): (r: string)
    ensures |r| <= |s| && r == s[|s| - |r|..]
    ensures forall k :: 0 <= k < |s| - |r| ==> DotOrSlash(s[k])
    ensures r != [] ==> !DotOrSlash(r[0])
  {
    if s != [] && DotOrSlash(s[0]) then
      var r := StripHead(s[1..]);
      assert s[1..][|s| - 1 - |r|..] == s[|s| - |r|..];
      assert forall k :: 1 <= k < |s| - |r| ==> s[k] == s[1..][k - 1];
      r
    else s
  }

  function StripTail(s: string): (r: string)
    ensures |r| <= |s| && r == s[..|r|]
    ensures forall k :: |r| <= k < |s| ==> DotOrSlash(s[k])
    ensures r != [] ==> !DotOrSlash(r[|r| - 1])
  {
    if s != [] && DotOrSlash(s[|s| - 1]) then StripTail(s[..|s| - 1]) else s
  }

  /** The (folder key, name) pairs of the image members of the archive. */
  function ZipItems(entries: seq<ZipEntry>): seq<(string, string)> {
    if entries == [] then []
    else
      var e := entries[|entries| - 1];
      ZipItems(entries[..|entries| - 1]) + (if !e.isDir && IsImage(e.name) then [(ZipKey(e.parent), e.name)] else [])
  }

  /** A pair is collected exactly when some listed non-directory member
      with an image suffix has that name and a parent whose key it is. */
  lemma {:induction false} ZipItemsMembers(entries: seq<ZipEntry>)
    ensures forall k, n :: (k, n) in ZipItems(entries) <==>
      exists p :: ZipEntry(p, n, false) in entries && ZipKey(p) == k && IsImage(n)
  {
    if entries != [] {
      var init := entries[..|entries| - 1];
      ZipItemsMembers(init);
      assert entries == init + [entries[|entries| - 1]];
    }
  }

  /** The grouping `_collect_directory` returns. */
  function DirGrouping(entries: seq<DirEntry>): Grouping {
    SortGroups(GroupPairs(DirItems(entries)))
  }

  /** The grouping `_collect_zip` returns. */
  function ZipGrouping(entries: seq<ZipEntry>): Grouping {
    SortGroups(GroupPairs(ZipItems(entries)))
  }

  lemma GroupSnoc(items: seq<(string, string)>, extra: seq<(string, string)>)
    requires |extra| <= 1
    ensures GroupPairs(items + extra) ==
      if extra == [] then GroupPairs(items) else AddName(GroupPairs(items), extra[0].0, extra[0].1)
  {
    if extra == [] {
      assert items + extra == items;
    } else {
      assert (items + extra)[..|items|] == items;
    }
  }

  lemma DirStep(entries: seq<DirEntry>, i: nat)
    requires i < |entries|
    ensures var e := entries[i];
      GroupPairs(DirItems(entries[..i + 1])) ==
        if e.isFile && IsImage(e.name) then AddName(GroupPairs(DirItems(entries[..i])), e.parent, e.name)
        else GroupPairs(DirItems(entries[..i]))
  {
    var e := entries[i];
    assert entries[..i + 1][..i] == entries[..i];
    var extra := if e.isFile && IsImage(e.name) then [(e.parent, e.name)] else [];
    assert DirItems(entries[..i + 1]) == DirItems(entries[..i]) + extra;
    GroupSnoc(DirItems(entries[..i]), extra);
  }

  lemma ZipStep(entries: seq<ZipEntry>, i: nat)
    requires i < |entries|
    ensures var e := entries[i];
      GroupPairs(ZipItems(entries[..i + 1])) ==
        if !e.isDir && IsImage(e.name) then AddName(GroupPairs(ZipItems(entries[..i])), ZipKey(e.parent), e.name)
        else GroupPairs(ZipItems(entries[..i]))
  {
    var e := entries[i];
    assert entries[..i + 1][..i] == entries[..i];
    var extra := if !e.isDir && IsImage(e.name) then [(ZipKey(e.parent), e.name)] else [];
    assert ZipItems(entries[..i + 1]) == ZipItems(entries[..i]) + extra;
    GroupSnoc(ZipItems(entries[..i]), extra);
  }

  /** `_collect_directory` over the listed paths. */
  method CollectDirectory(entries: seq<DirEntry>) returns (g: Grouping)
    ensures g == DirGrouping(entries)
  {
    var keys: seq<string> := [];
    var mapping: map<string, seq<string>> := map[];
    for i := 0 to |entries|
      invariant Grouping(keys, mapping) == GroupPairs(DirItems(entries[..i]))
    {
      var e := entries[i];
      DirStep(entries, i);
      if e.isFile && IsImage(e.name) {
        if e.parent in mapping {
          mapping := mapping[e.parent := mapping[e.parent] + [e.name]];
        } else {
          keys := keys + [e.parent];
          mapping := mapping[e.parent := [e.name]];
        }
      }
    }
    assert entries[..|entries|] == entries;
    g := SortGroups(Grouping(keys, mapping));
  }

  /** `_collect_zip` over the archive's members. */
  method CollectZip(entries: seq<ZipEntry>) returns (g: Grouping)
    ensures g == ZipGrouping(entries)
  {
    var keys: seq<string> := [];
    var mapping: map<string, seq<string>> := map[];
    for i := 0 to |entries|
      invariant Grouping(keys, mapping) == GroupPairs(ZipItems(entries[..i]))
    {
      var e := entries[i];
      ZipStep(entries, i);
      if !e.isDir && IsImage(e.name) {
        var folder := ZipKey(e.parent);
        if folder in mapping {
          mapping := mapping[folder := mapping[folder] + [e.name]];
        } else {
          keys := keys + [folder];
          mapping := mapping[folder := [e.name]];
        }
      }
    }
    assert entries[..|entries|] == entries;
    g := SortGroups(Grouping(keys, mapping));
  }

  // ---------------------------------------------------------------------
  // validate_exports
  // ---------------------------------------------------------------------

  /** What reading a folder's MANIFEST.json gives: a JSON object, or text
      that is not valid JSON. */
  datatype ManifestFile = Parsed(manifest: Manifest) | InvalidJson

  /** A directory export: whether the path exists, the paths under it, and
      the MANIFEST.json present in each folder (keyed like the grouping). */
  datatype DirExport = DirExport(present: bool, entries: seq<DirEntry>, manifests: map<string, ManifestFile>)

  /** A ZIP export: whether the path exists and the archive's members. */
  datatype ZipExport = ZipExport(present: bool, entries: seq<ZipEntry>)

  /** The conditions `validate_exports` raises for instead of reporting. */
  datatype Fatal = MissingDirectory | MissingZip | InvalidManifest(folder: string)

  /** The returned pair: whether the export passed, and the issues. */
  datatype Report = Report(ok: bool, issues: seq<Issue>)

  /** `folder or "."`. */
  function Label(folder: string): (r: string)
    ensures r != []
    ensures folder != [] ==> r == folder
    ensures folder == [] ==> r == "."
  {
    if folder == [] then "." else folder
  }

  /** `_find_manifest`: absent, parsed, or fatal. */
  function FindManifest(d: DirExport, folder: string): Result<Option<Manifest>, Fatal> {
    if folder !in d.manifests then Ok(None)
    else match d.manifests[folder]
      case Parsed(m) => Ok(Some(m))
      case InvalidJson => Err(InvalidManifest(folder))
  }

  function NamesAt(g: Grouping, folder: string): seq<string> {
    if folder in g.names then g.names[folder] else []
  }

  /** The issues of the directory's folders, taken in key order, stopping at
      the first manifest that is not valid JSON. */
  function DirFolderIssues(d: DirExport, g: Grouping, keys: seq<string>, expectWarped: bool): Result<seq<Issue>, Fatal> {
    if keys == [] then Ok([])
    else
      var before := DirFolderIssues(d, g, keys[..|keys| - 1], expectWarped);
      var folder := keys[|keys| - 1];
      var manifest := FindManifest(d, folder);
      if before.Err? then before
      else if manifest.Err? then Err(manifest.error)
      else Ok(before.value + PairIssues(Label(folder), NamesAt(g, folder), expectWarped, manifest.value))
  }

  /** The issues of the ZIP's folders, in key order, with no manifest. */
  function ZipFolderIssues(g: Grouping, keys: seq<string>, expectWarped: bool): seq<Issue> {
    if keys == [] then []
    else
      var folder := keys[|keys| - 1];
      ZipFolderIssues(g, keys[..|keys| - 1], expectWarped) + PairIssues(Label(folder), NamesAt(g, folder), expectWarped, None)
  }

  /** The parity issue, when both exports are given. */
  function ParityIssue(dg: Grouping, zg: Grouping): seq<Issue> {
    if dg.names != zg.names then [ParityMismatch] else []
  }

  /** The decision of `validate_exports`. */
  function ValidateExportsSpec(dir: Option<DirExport>, zip: Option<ZipExport>, expectWarped: bool): Result<Report, Fatal> {
    if dir.Some? && !dir.value.present then Err(MissingDirectory)
    else if zip.Some? && !zip.value.present then Err(MissingZip)
    else
      var dg := if dir.Some? then DirGrouping(dir.value.entries) else Grouping([], map[]);
      var zg := if zip.Some? then ZipGrouping(zip.value.entries) else Grouping([], map[]);
      var folders := if dir.Some? then DirFolderIssues(dir.value, dg, dg.keys, expectWarped) else Ok([]);
      if folders.Err? then Err(folders.error)
      else
        var issues := folders.value +
          if dir.Some? && zip.Some? then ParityIssue(dg, zg)
          else if zip.Some? then ZipFolderIssues(zg, zg.keys, expectWarped)
          else [];
        Ok(Report(|issues| == 0, issues))
  }

  /** One more folder whose manifest is usable appends that folder's issues. */
  lemma DirFolderStep(d: DirExport, g: Grouping, keys: seq<string>, i: nat, expectWarped: bool)
    requires i < |keys|
    requires DirFolderIssues(d, g, keys[..i], expectWarped).Ok? && FindManifest(d, keys[i]).Ok?
    ensures DirFolderIssues(d, g, keys[..i + 1], expectWarped) ==
      Ok(DirFolderIssues(d, g, keys[..i], expectWarped).value +
         PairIssues(Label(keys[i]), NamesAt(g, keys[i]), expectWarped, FindManifest(d, keys[i]).value))
  {
    assert keys[..i + 1][..i] == keys[..i];
  }

  /** One more folder whose manifest is fatal ends the loop with its error. */
  lemma DirFolderFails(d: DirExport, g: Grouping, keys: seq<string>, i: nat, expectWarped: bool)
    requires i < |keys|
    requires DirFolderIssues(d, g, keys[..i], expectWarped).Ok? && FindManifest(d, keys[i]).Err?
    ensures DirFolderIssues(d, g, keys, expectWarped) == Err(FindManifest(d, keys[i]).error)
  {
    assert keys[..i + 1][..i] == keys[..i];
    DirFolderStuck(d, g, keys, i + 1, expectWarped);
  }

  /** The loop of `validate_exports` over the directory's folders. */
  method CheckDirFolders(d: DirExport, g: Grouping, expectWarped: bool) returns (r: Result<seq<Issue>, Fatal>)
    ensures r == DirFolderIssues(d, g, g.keys, expectWarped)
  {
    var keys := g.keys;
    var issues: seq<Issue> := [];
    for i := 0 to |keys|
      invariant DirFolderIssues(d, g, keys[..i], expectWarped) == Ok(issues)
    {
      var folder := keys[i];
      var manifest := FindManifest(d, folder);
      if manifest.Err? {
        DirFolderFails(d, g, keys, i, expectWarped);
        return Err(manifest.error);
      }
      DirFolderStep(d, g, keys, i, expectWarped);
      var found := ValidatePairImages(Label(folder), NamesAt(g, folder), expectWarped, manifest.value);
      issues := issues + found;
    }
    assert keys[..|keys|] == keys;
    r := Ok(issues);
  }

  lemma ZipFolderStep(g: Grouping, keys: seq<string>, i: nat, expectWarped: bool)
    requires i < |keys|
    ensures ZipFolderIssues(g, keys[..i + 1], expectWarped) ==
      ZipFolderIssues(g, keys[..i], expectWarped) + PairIssues(Label(keys[i]), NamesAt(g, keys[i]), expectWarped, None)
  {
    assert keys[..i + 1][..i] == keys[..i];
  }

  /** The loop of `validate_exports` over the ZIP's folders. */
  method CheckZipFolders(g: Grouping, expectWarped: bool) returns (issues: seq<Issue>)
    ensures issues == ZipFolderIssues(g, g.keys, expectWarped)
  {
    var keys := g.keys;
    issues := [];
    for i := 0 to |keys|
      invariant issues == ZipFolderIssues(g, keys[..i], expectWarped)
    {
      var folder := keys[i];
      ZipFolderStep(g, keys, i, expectWarped);
      var found := ValidatePairImages(Label(folder), NamesAt(g, folder), expectWarped, None);
      issues := issues + found;
    }
    assert keys[..|keys|] == keys;
  }

  /** `validate_exports`. */
  method ValidateExports(dir: Option<DirExport>, zip: Option<ZipExport>, expectWarped: bool)
    returns (r: Result<Report, Fatal>)
    ensures r == ValidateExportsSpec(dir, zip, expectWarped)
  {
    var directoryFiles := Grouping([], map[]);
    if dir.Some? {
      if !dir.value.present {
        return Err(MissingDirectory);
      }
      directoryFiles := CollectDirectory(dir.value.entries);
    }
    var zipFiles := Grouping([], map[]);
    if zip.Some? {
      if !zip.value.present {
        return Err(MissingZip);
      }
      zipFiles := CollectZip(zip.value.entries);
    }
    var folders: seq<Issue> := [];
    if dir.Some? {
      var checked := CheckDirFolders(dir.value, directoryFiles, expectWarped);
      if checked.Err? {
        return Err(checked.error);
      }
      folders := checked.value;
    }
    var rest: seq<Issue> := [];
    if dir.Some? && zip.Some? {
      if directoryFiles.names != zipFiles.names {
        rest := [ParityMismatch];
      }
    } else if zip.Some? {
      rest := CheckZipFolders(zipFiles, expectWarped);
    }
    var issues := folders + rest;
    r := Ok(Report(|issues| == 0, issues));
  }

  /** Once a folder's manifest is fatal, so is every longer run of folders. */
  lemma {:induction false} DirFolderStuck(d: DirExport, g: Grouping, keys: seq<string>, n: nat, expectWarped: bool)
    requires 0 < n <= |keys|
    requires DirFolderIssues(d, g, keys[..n], expectWarped).Err?
    ensures DirFolderIssues(d, g, keys, expectWarped) == DirFolderIssues(d, g, keys[..n], expectWarped)
    decreases |keys| - n
  {
    if n < |keys| {
      assert keys[..n + 1][..n] == keys[..n];
      DirFolderStuck(d, g, keys, n + 1, expectWarped);
    } else {
      assert keys[..n] == keys;
    }
  }

  // ---------------------------------------------------------------------
  // What the groupings hold
  // ---------------------------------------------------------------------

  lemma {:induction false} NamesOfMembers(items: seq<(string, string)>, key: string)
    ensures forall n :: n in NamesOf(items, key) <==> (key, n) in items
  {
    if items != [] {
      var init := items[..|items| - 1];
      NamesOfMembers(init, key);
      assert items == init + [items[|items| - 1]];
    }
  }

  /** Every member of a bag is a member of the sequence it came from. */
  lemma InMultiset(a: seq<string>, b: seq<string>)
    requires multiset(a) == multiset(b)
    ensures forall n :: n in a <==> n in b
  {
    assert forall n :: n in a <==> n in multiset(a);
    assert forall n :: n in b <==> n in multiset(b);
  }

  /** `_collect_directory` files each image under its parent folder, as a
      sorted list holding exactly the images of that folder; the keys are
      distinct and name only folders that hold an image. */
  lemma DirGroupingSpec(entries: seq<DirEntry>)
    ensures WellFormed(DirGrouping(entries))
    ensures forall k :: k in DirGrouping(entries).names ==>
      Sorted(DirGrouping(entries).names[k]) &&
      multiset(DirGrouping(entries).names[k]) == multiset(NamesOf(DirItems(entries), k)) &&
      forall n :: n in DirGrouping(entries).names[k] <==> DirEntry(k, n, true) in entries && IsImage(n)
    ensures forall p, n :: DirEntry(p, n, true) in entries && IsImage(n) ==>
      p in DirGrouping(entries).names && n in DirGrouping(entries).names[p]
  {
    var items := DirItems(entries);
    var g := DirGrouping(entries);
    SortGroupsSpec(items);
    DirItemsMembers(entries);
    forall k | k in g.names
      ensures forall n :: n in g.names[k] <==> DirEntry(k, n, true) in entries && IsImage(n)
    {
      NamesOfMembers(items, k);
      InMultiset(g.names[k], NamesOf(items, k));
    }
    forall p, n | DirEntry(p, n, true) in entries && IsImage(n)
      ensures p in g.names && n in g.names[p]
    {
      NamesOfMembers(items, p);
      assert n in NamesOf(items, p);
      InMultiset(g.names[p], NamesOf(items, p));
    }
  }

  /** `_collect_zip` files each image member under its stripped parent, as a
      sorted list holding exactly the images with that key, and skips
      directory entries and other files. */
  lemma ZipGroupingSpec(entries: seq<ZipEntry>)
    ensures WellFormed(ZipGrouping(entries))
    ensures forall k :: k in ZipGrouping(entries).names ==>
      Sorted(ZipGrouping(entries).names[k]) &&
      multiset(ZipGrouping(entries).names[k]) == multiset(NamesOf(ZipItems(entries), k)) &&
      forall n :: n in ZipGrouping(entries).names[k] <==>
        exists p :: ZipEntry(p, n, false) in entries && ZipKey(p) == k && IsImage(n)
    ensures forall p, n :: ZipEntry(p, n, false) in entries && IsImage(n) ==>
      ZipKey(p) in ZipGrouping(entries).names && n in ZipGrouping(entries).names[ZipKey(p)]
  {
    var items := ZipItems(entries);
    var g := ZipGrouping(entries);
    SortGroupsSpec(items);
    ZipItemsMembers(entries);
    forall k | k in g.names
      ensures forall n :: n in g.names[k] <==> exists p :: ZipEntry(p, n, false) in entries && ZipKey(p) == k && IsImage(n)
    {
      NamesOfMembers(items, k);
      InMultiset(g.names[k], NamesOf(items, k));
    }
    forall p, n | ZipEntry(p, n, false) in entries && IsImage(n)
      ensures ZipKey(p) in g.names && n in g.names[ZipKey(p)]
    {
      NamesOfMembers(items, ZipKey(p));
      assert (ZipKey(p), n) in items;
      assert n in NamesOf(items, ZipKey(p));
      InMultiset(g.names[ZipKey(p)], NamesOf(items, ZipKey(p)));
    }
  }

  // ---------------------------------------------------------------------
  // What validate_exports decides
  // ---------------------------------------------------------------------

  /** The verdict is "ok" exactly when no issue was found. */
  lemma ExportsOk(dir: Option<DirExport>, zip: Option<ZipExport>, expectWarped: bool)
    ensures var r := ValidateExportsSpec(dir, zip, expectWarped);
      r.Ok? ==> (r.value.ok <==> r.value.issues == [])
  {
  }

  /** An invalid manifest is fatal only for a folder of the directory. */
  lemma {:induction false} DirFolderFatal(d: DirExport, g: Grouping, keys: seq<string>, expectWarped: bool)
    ensures var r := DirFolderIssues(d, g, keys, expectWarped);
      r.Err? ==> (r.error.InvalidManifest? && r.error.folder in keys &&
        r.error.folder in d.manifests && d.manifests[r.error.folder] == InvalidJson)
  {
    if keys != [] {
      DirFolderFatal(d, g, keys[..|keys| - 1], expectWarped);
    }
  }

  /** Every folder's manifest that parses lets the loop finish, and then its
      issues never include the parity issue. */
  lemma {:induction false} DirFolderOk(d: DirExport, g: Grouping, keys: seq<string>, expectWarped: bool)
    requires forall k :: k in keys && k in d.manifests ==> d.manifests[k].Parsed?
    ensures DirFolderIssues(d, g, keys, expectWarped).Ok?
    ensures ParityMismatch !in DirFolderIssues(d, g, keys, expectWarped).value
  {
    if keys != [] {
      var init := keys[..|keys| - 1];
      var folder := keys[|keys| - 1];
      assert forall k :: k in init ==> k in keys;
      DirFolderOk(d, g, init, expectWarped);
      var manifest := FindManifest(d, folder);
      PairIssuesFolder(Label(folder), NamesAt(g, folder), expectWarped, manifest.value);
    }
  }

  lemma {:induction false} DirFolderNoParity(d: DirExport, g: Grouping, keys: seq<string>, expectWarped: bool)
    ensures var r := DirFolderIssues(d, g, keys, expectWarped);
      r.Ok? ==> ParityMismatch !in r.value
  {
    if keys != [] {
      var init := keys[..|keys| - 1];
      var folder := keys[|keys| - 1];
      DirFolderNoParity(d, g, init, expectWarped);
      var manifest := FindManifest(d, folder);
      if manifest.Ok? {
        PairIssuesFolder(Label(folder), NamesAt(g, folder), expectWarped, manifest.value);
      }
    }
  }

  /** A missing path is fatal, the directory's first; an invalid manifest is
      fatal only for a folder of an existing directory; nothing else is. */
  lemma ExportsFatal(dir: Option<DirExport>, zip: Option<ZipExport>, expectWarped: bool)
    ensures var r := ValidateExportsSpec(dir, zip, expectWarped);
      (dir.Some? && !dir.value.present ==> r == Err(MissingDirectory)) &&
      ((dir.None? || dir.value.present) && zip.Some? && !zip.value.present ==> r == Err(MissingZip)) &&
      (r.Err? && r.error.InvalidManifest? ==>
        dir.Some? && r.error.folder in DirGrouping(dir.value.entries).keys &&
        r.error.folder in dir.value.manifests && dir.value.manifests[r.error.folder] == InvalidJson)
  {
    if dir.Some? && dir.value.present {
      var dg := DirGrouping(dir.value.entries);
      DirFolderFatal(dir.value, dg, dg.keys, expectWarped);
    }
  }

  /** With no directory, an existing archive is never fatal and its folders
      are each checked without a manifest. */
  lemma ExportsZipOnly(zip: ZipExport, expectWarped: bool)
    requires zip.present
    ensures var r := ValidateExportsSpec(None, Some(zip), expectWarped);
      var zg := ZipGrouping(zip.entries);
      r.Ok? && r.value.issues == ZipFolderIssues(zg, zg.keys, expectWarped)
  {
  }

  /** How many parity issues a report holds. */
  function ParityCount(issues: seq<Issue>): nat {
    if issues == [] then 0
    else ParityCount(issues[..|issues| - 1]) + (if issues[|issues| - 1] == ParityMismatch then 1 else 0)
  }

  lemma {:induction false} ParityCountAppend(a: seq<Issue>, b: seq<Issue>)
    ensures ParityCount(a + b) == ParityCount(a) + ParityCount(b)
    decreases |b|
  {
    if b == [] {
      assert a + b == a;
    } else {
      assert (a + b)[..|a + b| - 1] == a + b[..|b| - 1];
      ParityCountAppend(a, b[..|b| - 1]);
    }
  }

  lemma {:induction false} ParityCountZero(a: seq<Issue>)
    requires ParityMismatch !in a
    ensures ParityCount(a) == 0
  {
    if a != [] {
      assert forall x :: x in a[..|a| - 1] ==> x in a;
      ParityCountZero(a[..|a| - 1]);
    }
  }

  /** With both exports, the report is the directory's folder issues plus
      exactly one parity issue when the two groupings differ and none when
      they agree; the archive's folders are not checked one by one. */
  lemma ExportsParity(dir: DirExport, zip: ZipExport, expectWarped: bool)
    requires dir.present && zip.present
    ensures var r := ValidateExportsSpec(Some(dir), Some(zip), expectWarped);
      var dg := DirGrouping(dir.entries);
      var zg := ZipGrouping(zip.entries);
      r.Ok? ==>
        r.value.issues == DirFolderIssues(dir, dg, dg.keys, expectWarped).value + ParityIssue(dg, zg) &&
        ParityCount(r.value.issues) == (if dg.names != zg.names then 1 else 0)
  {
    var dg := DirGrouping(dir.entries);
    var zg := ZipGrouping(zip.entries);
    var folders := DirFolderIssues(dir, dg, dg.keys, expectWarped);
    DirFolderNoParity(dir, dg, dg.keys, expectWarped);
    if folders.Ok? {
      ParityCountZero(folders.value);
      ParityCountAppend(folders.value, ParityIssue(dg, zg));
      assert ParityCount([ParityMismatch]) == 1 by {
        assert [ParityMismatch][..0] == [];
      }
    }
  }

  /** Two archives with the same grouping give the same decision next to a
      directory export. */
  lemma ExportsZipOnlyByGrouping(dir: DirExport, zip1: ZipExport, zip2: ZipExport, expectWarped: bool)
    requires zip1.present && zip2.present
    requires ZipGrouping(zip1.entries).names == ZipGrouping(zip2.entries).names
    ensures ValidateExportsSpec(Some(dir), Some(zip1), expectWarped) == ValidateExportsSpec(Some(dir), Some(zip2), expectWarped)
  {
  }

  /** A single pair makes a grouping with that one key. */
  lemma SingleGroup(key: string, name: string)
    ensures SortGroups(GroupPairs([(key, name)])).names.Keys == {key}
  {
    assert [(key, name)][..0] == [];
  }

  lemma DirRootKey(name: string)
    requires IsImage(name)
    ensures DirGrouping([DirEntry(".", name, true)]).names.Keys == {"."}
  {
    var de := [DirEntry(".", name, true)];
    assert de[..0] == [];
    assert DirItems(de) == [(".", name)];
    SingleGroup(".", name);
  }

  lemma ZipTopItems(name: string)
    requires IsImage(name)
    ensures ZipItems([ZipEntry(".", name, false)]) == [([], name)]
  {
    assert [ZipEntry(".", name, false)][..0] == [];
    ZipKeyTop();
  }

  lemma ZipRootKey(name: string)
    requires IsImage(name)
    ensures ZipGrouping([ZipEntry(".", name, false)]).names.Keys == {[]}
  {
    ZipTopItems(name);
    SingleGroup([], name);
  }

  lemma RootKeys(name: string)
    requires IsImage(name)
    ensures "." in DirGrouping([DirEntry(".", name, true)]).names
    ensures "." !in ZipGrouping([ZipEntry(".", name, false)]).names
  {
    DirRootKey(name);
    ZipRootKey(name);
  }

  /** With both exports present and no manifest, groupings that differ
      always draw the parity issue. */
  lemma ExportsMismatch(dir: DirExport, zip: ZipExport, expectWarped: bool)
    requires dir.present && zip.present && dir.manifests == map[]
    requires DirGrouping(dir.entries).names != ZipGrouping(zip.entries).names
    ensures var r := ValidateExportsSpec(Some(dir), Some(zip), expectWarped);
      r.Ok? && ParityMismatch in r.value.issues
  {
    var dg := DirGrouping(dir.entries);
    DirFolderOk(dir, dg, dg.keys, expectWarped);
    ExportsParity(dir, zip, expectWarped);
  }

  /** An image at the top of a directory export is filed under "." while the
      same image at the top of the archive is filed under the empty key, so
      the two exports of one picture never agree. */
  lemma RootImageParity(name: string, expectWarped: bool)
    requires IsImage(name)
    ensures var r := ValidateExportsSpec(Some(DirExport(true, [DirEntry(".", name, true)], map[])),
                                         Some(ZipExport(true, [ZipEntry(".", name, false)])), expectWarped);
      r.Ok? && ParityMismatch in r.value.issues
  {
    RootKeys(name);
    ExportsMismatch(DirExport(true, [DirEntry(".", name, true)], map[]),
                    ZipExport(true, [ZipEntry(".", name, false)]), expectWarped);
  }
}
