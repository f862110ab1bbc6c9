# eBay-Photos card pipeline: a verified model of its deterministic rules

eBay-Photos turns two flatbed scans into eBay listing images. One scan holds the card fronts and the other the card backs. The pipeline finds each card and reads its name and collector number. It files the card's photos into a numbered folder and matches each back to its front. QA tooling ships with it: a hand-rolled JPEG writer that makes the test images, and a validator for the exported bundles.

This Dafny project models the deterministic core of those programs and proves what they promise. The OpenCV, OCR, network and file-system calls become parameters.

- `strings.dfy`, module `Strings`:
  - Python's whitespace test, `strip`, `lstrip`, `rstrip` and ASCII `lower`;
  - lexicographic string order and an insertion sort of strings (sorted, a permutation, unique for a given bag);
  - decimal rendering of naturals, with a parse round trip.
- `sorting.dfy`, module `Sorting`: a stable insertion sort by a two-integer key. It models Python's stable `sorted(key=...)` and `list.sort(key=...)`.
- `geometry.dfy`, module `Geometry`:
  - `rect_iou` (over reals);
  - the merge loop of `merge_overlapping_contours`, taken over bounding rectangles;
  - `sort_contours_tltr`, `order_points` and the `create_quadrant_crops` rectangles;
  - `extract_art_region`, and the padded listing crop of the main loop.
- `text_lines.dfy`, module `TextLines`: `merge_text_boxes`. It sorts an array in place, then runs a merge loop that is proved against a recursive specification.
- `naming.dfy`, module `Naming`:
  - `score_ocr_candidate` and `compute_final_confidence` with auto-accept;
  - the filter and ranking of `normalize_collector_candidate`;
  - `sanitize_filename` and folder naming;
  - the collision-suffix loop of `safe_move`.
- `matching.dfy`, module `BackMatching`: back/front matching. With equal counts it picks the forward or the reversed order. Otherwise it falls back to greedy nearest unused front.
- `jpeg.dfy`, module `JpegWriter`:
  - the marker and segment builders;
  - `_pack_bits` with 0xFF byte stuffing, as in section F.1.2.3 of ITU-T T.81;
  - `_encode_dc`, as in section F.1.2.1, with the EXTEND decoding of section F.2.2.1;
  - `generate_grayscale_jpeg` without its file write.
- `export_validation.dfy`, module `ExportValidation`: `_is_image`, the file-name suffix and stem, and `_validate_pair_images`. That is a scan loop over one folder's images followed by the missing-front, missing-back, count, manifest and empty-folder checks.
- `export_bundle.dfy`, module `ExportBundle`:
  - the folder-to-sorted-names groupings of `_collect_directory` and `_collect_zip`, over abstract listings;
  - `_find_manifest`;
  - `validate_exports`.
- `wrappers.dfy`, module `Wrappers`: `Option` and `Result`.

Each report line of the validator is a value of the `Issue` datatype rather than a formatted message. Its constructor names the kind of line and its fields carry the values the message prints. Exceptions become the `Err` case of a `Result`. These are `Fatal` for `validate_exports`, and `ValueError`, `OverflowError` and `KeyError` for the JPEG writer.

## Model

| member | source | states |
|---|---|---|
| Geometry.RectIoUOne | process_and_organize.py:176-194 | for rectangles of non-negative size the IoU is exactly 1 when, and only when, the two are the same rectangle of positive area |
| Geometry.RectIoUSymmetric | process_and_organize.py:176-194 | the IoU does not depend on the order of its two rectangles |
| Geometry.RectIoUBounds | process_and_organize.py:176-194 | for rectangles of non-negative size the IoU lies in [0, 1], and it is positive exactly when they overlap |
| Geometry.Envelope | process_and_organize.py:207-210 | the rectangle that replaces two merged contours contains both, and each of its edges is an edge of one of them |
| Geometry.EnvelopeLeast | process_and_organize.py:207-210 | every rectangle that contains both merged rectangles contains their envelope |
| Geometry.MergePair | process_and_organize.py:207-210 | popping j, then i, and appending the envelope shortens the list by exactly one; every other entry is kept in its original order, each shifted down by the number of popped entries before it, and the envelope comes last; as a multiset the result is the input less the two merged entries plus their envelope |
| Geometry.MergePairCovers | process_and_organize.py:207-210 | a merge keeps every original rectangle inside some entry of the list |
| Geometry.MergePairEdges | process_and_organize.py:207-210 | a merge keeps every edge of every entry an edge of some original rectangle |
| Geometry.FirstPartner | process_and_organize.py:203-212 | the inner scan finds the first j > i whose IoU with entry i exceeds the threshold, or reports that none does |
| Geometry.FirstOverlap | process_and_organize.py:201-214 | the nested scan finds the first pair i < j, in scan order, that overlaps by more than the threshold; it finds none exactly when no pair does |
| Geometry.MergeOverlapping | process_and_organize.py:196-215 | on exit at most one entry remains or no pair overlaps by more than the threshold; the list never grows and is empty only if the input was; every input rectangle lies in some output rectangle; every output edge is an input edge; input with no overlapping pair comes back unchanged |
| Geometry.SortTlTr | process_and_organize.py:154-157 | the result is a permutation of the rectangles, ordered by top edge and then by left edge |
| Geometry.SortTlTrStable | process_and_organize.py:154-157 | rectangles with the same top-left corner keep their input order |
| Geometry.ArgMin | process_and_organize.py:1162-1166 | np.argmin gives the first index of a least key |
| Geometry.ArgMax | process_and_organize.py:1162-1165 | np.argmax gives the first index of a greatest key |
| Geometry.OrderPoints | process_and_organize.py:1158-1168 | four slots, each one of the input points; slot 0 has the least x+y and slot 2 the greatest; slot 1 has the least y-x and slot 3 the greatest |
| Geometry.OrderPointsFirstIndex | process_and_organize.py:1162-1167 | each slot holds the first input point with the extreme key |
| Geometry.OrderPointsRectangle | process_and_organize.py:1158-1168 | the corners of an axis-aligned rectangle, given in any order, come out as top-left, top-right, bottom-right, bottom-left |
| Geometry.OrderPointsIdempotent | process_and_organize.py:1158-1168 | when each key has a single extreme point, ordering the ordered corners changes nothing |
| Geometry.OrderPointsNotIdempotent | process_and_organize.py:1158-1168 | a concrete degenerate input whose ordered corners reorder differently |
| Geometry.QuadrantCrops | process_and_organize.py:1176-1189 | every crop written is a 60% box anchored at its corner of the image and lies inside the image |
| Geometry.QuadrantCropsShape | process_and_organize.py:1176-1188 | all four crops are written exactly when both sides are at least 2 px, with the TL/TR/BL/BR boxes at (0,0), (W-cw,0), (0,H-ch), (W-cw,H-ch); otherwise none is |
| Geometry.QuadrantCropsCover | process_and_organize.py:1176-1189 | from 4 px on, every pixel lies in some crop |
| Geometry.ArtRegion | process_and_organize.py:340-350 | the art window lies inside the card |
| Geometry.ArtRegionFallback | process_and_organize.py:340-350 | the whole card is returned exactly when a side is under 2 px; otherwise the window is the 8%-92% by 15%-68% box, floored, and strictly inside the card |
| Geometry.PaddedCrop | process_and_organize.py:1368-1370 | the padded crop lies inside the image and contains the in-image part of the bounding box |
| Geometry.PaddedCropNonEmpty | process_and_organize.py:1368-1371 | for a box of non-negative size the padded crop is non-empty exactly when the image is non-empty and the box comes within the 150 px padding of it on both axes |
| Geometry.FrontListing | process_and_organize.py:1368-1374 | the front listing uses the padded crop when it is non-empty, and the warped card image otherwise |
| Geometry.BackListing | process_and_organize.py:1410-1412 | a back whose padded crop is empty is skipped; otherwise the back uses the crop |
| TextLines.SortBoxes | process_and_organize.py:791 | the result is a permutation of the boxes, ordered by (y0, x0) |
| TextLines.SortBoxesInPlace | process_and_organize.py:791 | the array is sorted in place into that order |
| TextLines.MergeSortedBoxes | process_and_organize.py:793-832 | the loop over the sorted array returns the lines of the recursive specification |
| TextLines.MergeTextBoxes | process_and_organize.py:785-832 | the array is sorted in place and the returned lines are those of its sorted contents |
| TextLines.MergeLinesLength | process_and_organize.py:787-832 | empty input gives no lines; otherwise there are never more lines than boxes |
| TextLines.MergeLinesConf | process_and_organize.py:819-829 | every line has the confidence of the first box of its run, and the first line has that of the first sorted box |
| TextLines.MergeLinesEdges | process_and_organize.py:819-831 | there is one line per run and each line is the envelope of its run: the least box around it, each coordinate the min or max of the run's boxes and attained by one of them |
| TextLines.MergeLinesRuns | process_and_organize.py:799-831 | the lines are the envelopes of non-empty runs which, laid end to end, are the sorted boxes in order with only zero-height boxes left out; the first run starts with the first sorted box |
| TextLines.EnvSpec | process_and_organize.py:819-829 | the envelope of a run encloses every box of the run, takes each coordinate from one of its boxes and keeps the first box's confidence |
| TextLines.MergeLinesCovers | process_and_organize.py:799-831 | every box of positive height lies inside some line |
| TextLines.FlatBoxDropped | process_and_organize.py:805-807 | when every box has zero height, every box after the first is skipped and the first box is the only line |
| Naming.ScoreBounds | process_and_organize.py:41-50 | the score lies between -2 and 2 points per stripped character, and reaches the top bound exactly for all-letter text |
| Naming.ScoreIgnoresEdgeSpace | process_and_organize.py:43 | surrounding whitespace does not change the score |
| Naming.CountAll | process_and_organize.py:46-48 | a character count is at most the length, and equals it exactly when every character qualifies |
| Naming.FinalConfidence | process_and_organize.py:659-667 | the confidence lies in [0, 1] |
| Naming.FinalConfidenceUnclamped | process_and_organize.py:659-667 | the weights sum to 1, so the final clamp never changes the weighted sum |
| Naming.AutoAcceptIff | process_and_organize.py:1341-1344 | a card is accepted automatically exactly when a collector number was read and a visual score exists that, clamped, is at least 0.5 with an API hit or at least 0.9 without one |
| Naming.RemoveWhitespace | process_and_organize.py:311 | the token keeps no whitespace and is unchanged when it had none; a single character is dropped exactly when it is whitespace |
| Naming.RemoveWhitespaceAppend | process_and_organize.py:311 | removing whitespace from a concatenation concatenates the two results, so with the one-character case the token is the text's non-space characters in order |
| Naming.KeptMatches | process_and_organize.py:308-319 | a single match is kept exactly when its whitespace-free token has a digit, and promo tokens also need two digits and two letters; the kept token is the whitespace-free one |
| Naming.KeptMatchesAppend | process_and_organize.py:308-319 | filtering a concatenation concatenates the two filtered lists, so with the one-match case the kept list is an in-order filter of the matches |
| Naming.FirstMin | process_and_organize.py:326-337 | Python's `min` by `sort_key` gives the first match with a least key |
| Naming.BestMatch | process_and_organize.py:322-337 | there is no winner exactly when no match is kept; otherwise the winner is a kept match that no kept match outranks, and every kept match before it ranks strictly lower, so the first of tied matches wins |
| Naming.NormalizeCollectorCandidate | process_and_organize.py:285-338 | the result is None when the ranking has no winner and otherwise the winner's whitespace-free token |
| Naming.BestMatchPrefersRatio | process_and_organize.py:324-335 | a kept plain ratio match means the winner is a ratio; no match of the winner's kind has more digits |
| Naming.SanitizeFilename | process_and_organize.py:150-152 | the output holds none of the forbidden characters and no space, and has no whitespace at either end |
| Naming.SanitizeIdempotent | process_and_organize.py:150-152 | sanitising a sanitised name changes nothing |
| Naming.SanitizeKeepsPrefix | process_and_organize.py:150-152 | a clean prefix survives sanitising unchanged |
| Naming.CardName | process_and_organize.py:1331-1337 | the card name is never empty; it is the first non-empty one of, in this order, the resolved name, the stripped OCR name, the visual name and "Unknown" |
| Naming.FolderBase | process_and_organize.py:1338-1348 | the folder base holds no forbidden character and no space |
| Naming.FolderNameShape | process_and_organize.py:1346-1350 | every folder name ends in "_" and the 1-based card number, with no forbidden character and no space |
| Naming.FolderNameUncertain | process_and_organize.py:1344-1350 | a card that is not accepted automatically gets a folder starting "Uncertain_" |
| Naming.FolderNamesDistinct | process_and_organize.py:1350 | cards with different indices never share a folder, whatever was read off them |
| Naming.Basename | process_and_organize.py:1133 | the base name is the part of the path after its last '/' |
| Naming.SplitExt | process_and_organize.py:1134 | name and extension concatenate back to the base name; the extension is empty or starts at the last dot and holds no other dot; a leading run of dots starts no extension, and an empty extension means every dot of the base name is in that leading run |
| Naming.CandidateInjective | process_and_organize.py:1135-1139 | different attempts try different names |
| Naming.CandidateShape | process_and_organize.py:1137-1138 | every name tried keeps the base name's stem and extension |
| Naming.TryNext | process_and_organize.py:1137-1139 | each attempt tries a name not tried before |
| Naming.SafeMove | process_and_organize.py:1130-1140 | the target does not exist; the base name itself is used when free; otherwise the target is the first free name_n.ext |
| BackMatching.SumReversed | process_and_organize.py:1401-1402 | summing in the opposite order gives the same total |
| BackMatching.EqualCountMatch | process_and_organize.py:1401-1409 | with equal counts each back gets a distinct front; the order is forward when d_order <= d_rev and reversed only when d_order > d_rev |
| BackMatching.EqualCountMatchCost | process_and_organize.py:1401-1404 | the chosen order costs the smaller of the two totals |
| BackMatching.MinIn | process_and_organize.py:1428 | `min(unused_fronts, key=dist_norm)` gives the first allowed front at the least distance, or None when none is allowed |
| BackMatching.Range | process_and_organize.py:1418 | `set(range(n))` holds exactly the fronts and has n of them |
| BackMatching.TakeNearest | process_and_organize.py:1427-1431 | while fronts remain, the back takes the nearest unused front, which is then removed; afterwards it takes the nearest front overall |
| BackMatching.GreedyMatch | process_and_organize.py:1416-1433 | while fronts remain, each back takes the nearest front not yet used and no front is used twice; afterwards each back takes the nearest front overall |
| BackMatching.MatchBacks | process_and_organize.py:1390-1433 | no fronts means no matches; otherwise every back gets a front; equal counts use the forward-or-reversed policy; unequal counts match greedily, each back taking the nearest front not used by an earlier back while fronts remain, no front twice, and afterwards the nearest front overall |
| BackMatching.BackCrops | process_and_organize.py:1408-1439 | a back crop is written for exactly the backs whose padded crop is non-empty, each the back's padded crop, with left and top at least 0 and right and bottom within the image, filed under the back's front |
| BackMatching.BackCropsAppend | process_and_organize.py:1408-1439 | the crops of two back lists laid end to end are the crops of each, in order, so with the one-back case the crops follow the backs' order |
| Sorting.SortBy | process_and_organize.py:791 | the result is sorted by the key and is a permutation of the input |
| Sorting.SortByStable | process_and_organize.py:791 | entries with equal keys keep their relative order |
| Strings.SortStringsSpec | qa/checks/export_validation.py:66 | `sorted` of a list of strings is ascending and a permutation |
| Strings.SortedUnique | qa/checks/export_validation.py:132 | two ascending lists with the same elements and repetitions are equal |
| Strings.SortStringsEqual | qa/checks/export_validation.py:132 | two lists sort equal exactly when they hold the same names with the same repetitions |
| Strings.NatToStringRoundTrip | process_and_organize.py:1350 | the decimal rendering of the folder number reads back to the number |
| Strings.NatToStringInjective | process_and_organize.py:1350 | different numbers render differently |
| JpegWriter.EmitMarker | qa/assets/generate_test_images.py:46-47 | the marker is exactly the two bytes 0xFF and the code's low byte |
| JpegWriter.ToBytes2 | qa/assets/generate_test_images.py:76-77 | `to_bytes(2, "big")` gives two big-endian bytes of the value, and OverflowError outside 0..65535 |
| JpegWriter.JfifSegment | qa/assets/generate_test_images.py:50-59 | APP0 is 18 bytes and its length field 16 equals its size minus the marker; its fields are as written |
| JpegWriter.DqtSegment | qa/assets/generate_test_images.py:62-68 | DQT is 69 bytes, its length field is 67, and it carries table 0 and the 64 quantisation entries |
| JpegWriter.Sof0Segment | qa/assets/generate_test_images.py:71-82 | SOF0 writes the height before the width, each 16-bit big-endian, with length field 11; a dimension of 65536 or more is an OverflowError |
| JpegWriter.DhtSegment | qa/assets/generate_test_images.py:85-121 | the DC part's length field is 3 + counts + symbols = 31; the AC part's field, 3 + counts + symbols, is its byte count; the tables are the ones written |
| JpegWriter.SosSegment | qa/assets/generate_test_images.py:124-134 | SOS is 10 bytes, its length field is 8, and its fields are as written |
| JpegWriter.PackBits | qa/assets/generate_test_images.py:137-155 | the packer's output is the byte-stuffed sequence of the 0-padded 8-bit groups of the input bits |
| JpegWriter.StuffedFF | qa/assets/generate_test_images.py:146-154 | every 0xFF output byte is immediately followed by 0x00 |
| JpegWriter.UnstuffStuff | qa/assets/generate_test_images.py:146-154 | removing the stuffed zeros gives back the packed bytes |
| JpegWriter.GroupsLength | qa/assets/generate_test_images.py:137-155 | n bits pack into ceil(n/8) bytes before stuffing |
| JpegWriter.GroupsBits | qa/assets/generate_test_images.py:141-152 | the packed bytes carry the input bits in order, followed by 0 bits up to a byte boundary |
| JpegWriter.BitLength | qa/assets/generate_test_images.py:162 | `bit_length` is 0 only for 0, and otherwise the k with 2^(k-1) <= n < 2^k |
| JpegWriter.ToBinValue | qa/assets/generate_test_images.py:164 | `format(v, "0{n}b")` reads back to v |
| JpegWriter.DcCodeword | qa/assets/generate_test_images.py:16-29 | the DC codeword table has exactly the sizes 0 to 11 |
| JpegWriter.EncodeDc | qa/assets/generate_test_images.py:158-165 | a KeyError exactly when the magnitude is 2048 or more |
| JpegWriter.EncodeDcShape | qa/assets/generate_test_images.py:158-165 | 0 encodes as "00"; otherwise the output is the size's codeword followed by exactly size amplitude bits, size being the magnitude's bit length |
| JpegWriter.AmplitudeRoundTrip | qa/assets/generate_test_images.py:161-164 | the amplitude fits in size bits, leads with 1 exactly for a positive difference, and EXTEND decodes it back to the difference |
| JpegWriter.HalfRounded | qa/assets/generate_test_images.py:170 | `round(0.5 * n)` is within a half of n/2 and, at a tie, even |
| JpegWriter.HalfRoundedNearest | qa/assets/generate_test_images.py:170 | the rounded value is the nearest integer to n/2, and at a tie the even one |
| JpegWriter.DcCoefficient | qa/assets/generate_test_images.py:170 | the DC coefficient of a grey level lies in [-64, 64] |
| JpegWriter.DcSizeAtMost7 | qa/assets/generate_test_images.py:170-171 | every grey level's DC category is at most 7, so the codeword lookup succeeds |
| JpegWriter.EncodeDcLength | qa/assets/generate_test_images.py:158-165 | an encoded difference is its codeword plus size bits long, at most 12 bits for [-64, 64] |
| JpegWriter.GenerateGrayscaleJpeg | qa/assets/generate_test_images.py:167-183 | ValueError exactly for values outside 0..255, before anything is built; otherwise the bytes start FF D8 and end FF D9, with APP0, DQT, SOF0, DHT, SOS and the packed entropy data in order, each length field where the segment says |
| JpegWriter.Layout | qa/assets/generate_test_images.py:175-183 | concatenating the parts puts each marker and each length field at its offset |
| ExportValidation.Suffix | qa/checks/export_validation.py:94 | `PurePath.suffix` is empty or a dot followed by at least one character and no other dot |
| ExportValidation.StemSuffix | qa/checks/export_validation.py:99 | stem and suffix concatenate back to the name |
| ExportValidation.SplitRoundTrip | qa/checks/export_validation.py:94-99 | a non-empty stem followed by a proper suffix splits back into the two |
| ExportValidation.IsImageIff | qa/checks/export_validation.py:43-44 | a name is an image exactly when its lower-cased final suffix is .jpg, .jpeg or .png |
| ExportValidation.ImageName | qa/checks/export_validation.py:43-44 | a non-empty stem with an image suffix in any letter case is an image with that stem |
| ExportValidation.ScanImages | qa/checks/export_validation.py:93-105 | the loop ends in the state of the left fold of one scan step per image |
| ExportValidation.ScanExtension | qa/checks/export_validation.py:94-96 | the scan has no extension only for an empty folder, and otherwise keeps the first image's lower-cased extension |
| ExportValidation.ScanStems | qa/checks/export_validation.py:99-103 | the scan collects the FRONT_ and BACK_ stems in order |
| ExportValidation.ScanUnexpected | qa/checks/export_validation.py:99-105 | the scan reports one unexpected name per image whose stem starts with neither FRONT_ nor BACK_, in order |
| ExportValidation.ScanMixed | qa/checks/export_validation.py:94-98 | the scan reports one mixed extension per image whose extension differs from the first image's, in order |
| ExportValidation.RequiredFronts | qa/checks/export_validation.py:107-110 | the required fronts are exactly the five listing and quadrant stems, plus FRONT_WARPED exactly when expected, with no stem twice, so their count is the size of the set the source builds |
| ExportValidation.MissingSortedSpec | qa/checks/export_validation.py:112 | `sorted(expected - set(present))` is ascending and holds exactly the required stems that are absent |
| ExportValidation.CheckScan | qa/checks/export_validation.py:107-137 | after the scan the method appends, in the source's order, the missing-front, missing-back, count, manifest and empty-folder issues that PairFronts, PairBacks, PairCount, PairManifest and PairNoImages characterise |
| ExportValidation.ValidatePairImages | qa/checks/export_validation.py:82-139 | the method returns exactly the report of the model for the folder |
| ExportValidation.PairIssuesFolder | qa/checks/export_validation.py:82-139 | every issue of a folder's report names that folder, and none is a parity issue |
| ExportValidation.PairUnexpected | qa/checks/export_validation.py:99-105 | the report names exactly the images whose stem starts with neither FRONT_ nor BACK_, one issue each, in order |
| ExportValidation.PairMixed | qa/checks/export_validation.py:94-98 | the report lists, in order, every extension that differs from the first image's, one issue each |
| ExportValidation.PairFronts | qa/checks/export_validation.py:107-114 | a missing-front issue appears exactly when a required front stem is absent, and lists exactly the absent ones, ascending |
| ExportValidation.PairBacks | qa/checks/export_validation.py:115-124 | a missing-back issue appears exactly when the backs are not waived and a back stem is absent, and lists exactly the absent ones, ascending; under a waiver the expected total is the number of required fronts |
| ExportValidation.PairCount | qa/checks/export_validation.py:123-129 | a count issue appears exactly when the number of images differs from the expected total, and carries both numbers |
| ExportValidation.PairManifest | qa/checks/export_validation.py:130-135 | a manifest issue appears exactly when a truthy manifest has a non-empty "files" list that, sorted, differs from the sorted images |
| ExportValidation.PairNoImages | qa/checks/export_validation.py:136-137 | "no image files located" appears exactly for an empty folder |
| ExportValidation.PairClean | qa/checks/export_validation.py:82-139 | a folder's report is empty exactly when the folder is non-empty, every image has an expected prefix and the first image's extension, every required front and every unwaived back is there, the count is right and the manifest agrees |
| ExportBundle.GroupPairsSpec | qa/checks/export_validation.py:61-65 | `setdefault(...).append` yields distinct keys, one per folder that has a name, each with its names in order |
| ExportBundle.SortGroupsSpec | qa/checks/export_validation.py:66 | after sorting, each folder's names are its names in ascending order |
| ExportBundle.DirItemsMembers | qa/checks/export_validation.py:62-65 | a name is collected under a folder exactly when that folder holds a regular file of that name which is an image |
| ExportBundle.ZipKey | qa/checks/export_validation.py:77 | `strip("./")` gives a contiguous slice of the parent with no dot or slash at either end, and every character stripped off either end is a dot or a slash |
| ExportBundle.ZipKeyClean | qa/checks/export_validation.py:77 | a parent with no dot or slash at its ends is its own key |
| ExportBundle.ZipKeyTop | qa/checks/export_validation.py:77 | a member at the top of the archive is filed under the empty key |
| ExportBundle.ZipItemsMembers | qa/checks/export_validation.py:72-78 | a name is collected under a key exactly when a non-directory image member of that name has a parent that strips to the key |
| ExportBundle.CollectDirectory | qa/checks/export_validation.py:60-66 | the loop builds the grouping of the model for the listed paths |
| ExportBundle.CollectZip | qa/checks/export_validation.py:69-79 | the loop builds the grouping of the model for the archive's members |
| ExportBundle.DirGroupingSpec | qa/checks/export_validation.py:60-66 | each folder's list is sorted and holds exactly that folder's images; every image file is listed under its folder |
| ExportBundle.ZipGroupingSpec | qa/checks/export_validation.py:69-79 | each key's list is sorted and holds exactly the image members that strip to it; directory entries and other files are skipped |
| ExportBundle.Label | qa/checks/export_validation.py:171 | `folder or "."` is never empty, is "." for the empty folder and is the folder itself otherwise |
| ExportBundle.DirFolderStuck | qa/checks/export_validation.py:169-171 | once one folder's manifest is fatal, the whole loop stops with that error |
| ExportBundle.DirFolderFatal | qa/checks/export_validation.py:142-146 | the folder loop fails only for a folder whose MANIFEST.json exists and is not valid JSON |
| ExportBundle.DirFolderOk | qa/checks/export_validation.py:168-171 | when every manifest that exists parses, the folder loop finishes and reports no parity issue |
| ExportBundle.CheckDirFolders | qa/checks/export_validation.py:168-171 | the loop returns the directory folders' issues of the model, or its first fatal manifest |
| ExportBundle.CheckZipFolders | qa/checks/export_validation.py:176-178 | the loop returns the ZIP folders' issues of the model |
| ExportBundle.ValidateExports | qa/checks/export_validation.py:149-180 | the method returns exactly the decision of the model |
| ExportBundle.ExportsOk | qa/checks/export_validation.py:180 | the verdict is ok exactly when the issue list is empty |
| ExportBundle.ExportsFatal | qa/checks/export_validation.py:155-164 | a missing directory is fatal, checked first; a missing ZIP is fatal otherwise; an invalid manifest is fatal only for a folder of an existing directory |
| ExportBundle.ExportsZipOnly | qa/checks/export_validation.py:176-178 | with no directory, an existing archive is never fatal and each of its folders is checked without a manifest |
| ExportBundle.ExportsParity | qa/checks/export_validation.py:168-175 | with both exports, the report is the directory folders' issues plus exactly one parity issue when the groupings differ and none when they agree; ZIP folders are not checked one by one |
| ExportBundle.ExportsZipOnlyByGrouping | qa/checks/export_validation.py:173-175 | next to a directory, two archives with the same grouping give the same decision |
| ExportBundle.ExportsMismatch | qa/checks/export_validation.py:168-175 | with both exports present and no manifest, any difference between the two groupings puts a parity issue in a report that is returned rather than raised |
| ExportBundle.RootImageParity | qa/checks/export_validation.py:64-77 | one image at the top of a directory export and the same image at the top of the ZIP always give a parity issue |

## Notes

- Root-level images. `_collect_directory` files an image at the export root under the key ".", since that is the posix form of the relative root. `_collect_zip` strips "./" from the same parent and files it under the empty key. A bundle whose directory and ZIP both hold an image at the top level therefore always reports a parity mismatch (`ExportBundle.RootImageParity`). The real exports keep images inside per-card folders.
- `order_points` is not idempotent in general. Four points whose keys tie can reorder on a second pass (`Geometry.OrderPointsNotIdempotent`). Ordering the ordered corners changes nothing only when each key has a single extreme point (`Geometry.OrderPointsIdempotent`). The code shows no intent to guarantee more.
- Dict equality ignores insertion order, so the parity test compares the groupings' maps, not their key sequences. Iteration over the directory's folders follows the key sequence, which is the order in which the listing first met each folder.
- Python's `min` over a set of small integers meets them in ascending order. The greedy back matcher therefore breaks distance ties by the lowest front index.

## Left out

- OCR, text detection, OpenCV image work, visual embeddings, the card API and its cache: these are foreign library, numeric and network calls. Their results (contours as bounding rectangles, points, names, scores, API hits, matches) are parameters of the model.
- `get_contour_center` and `euclidean_distance`: the matcher takes any matrix of real distances from fronts to backs, so the square root and the moments are not modelled.
- Floating point: IoU, confidences, point coordinates and distances are exact reals. `int(W * 0.6)` and the art-region ratios are floors of exact rationals.
- File-system and process effects: directory creation, image and manifest writes, `shutil.move` and its error printing, `rglob` and `zipfile` reading, printing, argparse and `main`. Listings are abstract sequences of entries; the set of existing names stands for `os.path.exists`.
- `_load_manifest` on JSON that is not an object, and a "files" entry that is not a list of strings: the model's manifest is an object whose "files", when present, is a list of names, and invalid JSON is its own case. A corrupt archive (`BadZipFile`) is not modelled.
- `normalize_collector_candidate`'s regular expressions and its upper-casing and digit-friendly rewrites: the model takes the list of (pattern, token) matches they yield.
- Naming.ScoreBounds: letters and digits are the ASCII ones. Python's `isalpha` and `isdigit` also accept other Unicode letters and digits.
- Naming.Kept: the digit and letter counts of a token are over ASCII digits and letters. Python's `isdigit` and `isalpha` also accept other Unicode digits and letters.
- Naming.SortKey: the digit and letter counts of a token are over ASCII digits and letters. Python's `isdigit` and `isalpha` also accept other Unicode digits and letters.
- ExportValidation.IsImageIff: lower-casing is ASCII only, so a suffix whose lower case Python computes through Unicode case mapping is modelled on its ASCII letters alone.
- JpegWriter.GenerateGrayscaleJpeg: the model does not claim that the Huffman tables written are the standard ones (the DC and AC counts carry an extra leading 0 compared with Tables K.3 and K.5 of ITU-T T.81). It does not claim they agree with the DC codeword table, or that the file is a conformant JPEG.
- JpegWriter.PackBits: the last byte is padded with 0 bits as the code does, not with the 1 bits of section F.1.2.3 of ITU-T T.81.
- `rotate_image`, `preprocess_*`, `detect_text_regions`, `orient_and_ocr_card`, the legacy collector OCR and the text-fragment lookup of the main loop: OCR and image processing outside the deterministic core.
