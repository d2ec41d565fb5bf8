# Geometry record matcher

A Dafny model of the scoring core of `Task.py`. The script compares a
target solid (volume, bounding box `bbMin`/`bbMax`, and a list of faces
with area, bounding box and centroid) against an attempt. It builds a
correctness report under the absolute tolerance `EPSILON = 1e-5`. It then
computes a coarse percentage match, per-key true and false counts over the
faces, the number of fully matched faces and the percentage of
correctness. An attempt passes when that percentage is at least 80.

Modules:

- `Geometry` (`geometry.dfy`): the `Face` and `Record` datatypes, `EPSILON`
  and the strict tolerance test `WithinTolerance`.
- `Matcher` (`matcher.dfy`): `CompareCoordinates`, the recursive reference
  definition `ExpectedFaces` of the report's face list, and
  `CalculatePercentageMatch`. That method has the original's loop, which
  overwrites the flags of face `i` in place. Its result is proved equal to
  the reference definition.
- `Summary` (`summary.dfy`): the summary figures, which the original
  computes inline in `print_percentage_match`, as functions of the face
  list. Also the pass rule and the lemmas about them.

The numbers are exact reals. `len(target)` and `len(target['faces'][0])`
are dictionary sizes in the original. Here they are the parameters
`topLevelKeys` and `faceKeys` of `CalculatePercentageMatch`.

Both scoring quirks are kept as written:

- The denominator of the percentage match is the number of top-level keys,
  plus both bounding-box lengths, plus the key count of the first face.
- Only the volume feeds the numerator.

A consequence proved below is that the coarse score never exceeds 25, not
even for a record compared with itself.

Two further facts about the code shape the model:

- The denominator's first term is `len(target)`, the number of keys of the
  record. It is at least 4, because the function reads the keys `volume`,
  `bbMin`, `bbMax` and `faces` (Task.py:16, 30).
- Unequal face lists and coordinate lengths are not rejected: `zip`
  truncates silently. Target faces without a partner stay all-false, and
  extra components are ignored (Task.py:42, 56).

## Model

| member | source | states |
|---|---|---|
| `Geometry.WithinTolerance` | Task.py:30 | `abs(x - y) < EPSILON` holds iff x lies strictly inside the interval of half-width EPSILON around y |
| `Geometry.WithinToleranceReflexiveSymmetric` | Task.py:30 | the strict absolute-difference test accepts a value against itself and is symmetric |
| `Geometry.ToleranceExamples` | Task.py:12 | a difference of exactly EPSILON is rejected; 10 vs 10.0000001 agree, 10 vs 10.001 and 5 vs 5.00002 do not |
| `Matcher.CompareCoordinates` | Task.py:54-56 | true iff every index below the shorter length has its pair within the tolerance (both directions) |
| `Matcher.CompareCoordinatesReflexive` | Task.py:54-56 | a coordinate sequence agrees with itself; an empty sequence agrees with anything |
| `Matcher.CompareCoordinatesIgnoresTail` | Task.py:56 | when the second sequence is the longer one, components appended to it never change the answer, because `zip` truncates |
| `Matcher.CompareCoordinatesIgnoresFirstTail` | Task.py:56 | when the first sequence is the longer one, components appended to it never change the answer |
| `Matcher.CompareFace` | Task.py:43-46 | the area flag holds iff the areas are within EPSILON of each other; each coordinate flag of a face pair holds iff the components agree pairwise up to the shorter length; a face compared with itself gets all four flags |
| `Matcher.ExpectedFaces` | Task.py:26-46 | the list built all-false at line 26 and filled by the loop at lines 42-46: one entry per target face; for each index with an attempt face, each of the four flags equals the comparison of the matching fields; every later entry stays all-false |
| `Matcher.ExpectedFacesSelf` | Task.py:42-46 | a face list compared with itself has all four flags true on every face |
| `Matcher.TotalAttributes` | Task.py:16 | the quirky denominator is at least the record's key count, so it is positive for every record the function can read |
| `Matcher.PercentageMatch` | Task.py:49 | the capped score lies in [0, 100], is 0 iff nothing matched, and is matching*100/total when matching <= total |
| `Matcher.PercentageMatchVolumeOnly` | Task.py:16-49 | with the volume as the only numerator term, the score is 100/total when the volume agrees and 0 otherwise, and never more than 25 |
| `Matcher.SelfMatchIsNotFull` | Task.py:16-49 | a record compared with itself matches its volume, yet scores 100/total, which is below 100 |
| `Matcher.CalculatePercentageMatch` | Task.py:14-52 | the volume flag holds iff the volumes agree; the bounding-box flags are the coordinate comparisons; the face list is `ExpectedFaces`; the score is the volume-only percentage over the quirky total and lies in [0, 100] |
| `Summary.TrueCount` | Task.py:98-99 | the true count of a key never exceeds the number of faces |
| `Summary.TrueCountExtremes` | Task.py:98-99 | the true count equals the face count iff every face has the flag, and is 0 iff no face has it |
| `Summary.FalseCount` | Task.py:101 | the false count of a key is at most the face count, and is 0 iff every face has the flag |
| `Summary.FalseCountCountsFalseFlags` | Task.py:101 | the false count, computed by subtraction, equals an independent count of false flags, so true plus false count is the face count |
| `Summary.FullyMatched` | Task.py:93 | a face counts as matched iff all four of its flags are true |
| `Summary.MatchedFaces` | Task.py:93-94 | the matched-face count is at most the face count and at most the true count of every key |
| `Summary.MatchedFacesAll` | Task.py:93-94 | the matched-face count equals the face count iff every face has all four flags true |
| `Summary.TotalTrue` | Task.py:113 | the sum of the true counts is at most four flags per face |
| `Summary.TotalFalse` | Task.py:119 | the sum of the false counts is four flags per face minus the sum of the true counts, so the denominator at Task.py:122 is four flags per face |
| `Summary.PercentageTrue` | Task.py:122 | needs a non-empty face list; the result lies in [0, 100], is 100 iff every face is fully matched, and reaches 80 iff 5 times the true flags is at least 16 times the face count |
| `Summary.IsCorrectAttempt` | Task.py:127 | the attempt passes iff 5 times the true flags is at least 16 times the face count, i.e. 80 percent with the boundary included |
| `Summary.SelfComparisonSummary` | Task.py:93-127 | comparing a record's faces with themselves gives every face matched, no false flags, 100 percent, and a pass |
| `Summary.MissingAttemptFacesCountFalse` | Task.py:42-101 | when the attempt has fewer faces, no true count and no matched-face count can exceed the attempt's face count |
| `Summary.ThreeFaceScenario` | Task.py:93-127 | three faces with one centroid off: 2 matched, centroid counts 2 and 1, 1100/12 percent, a pass |
| `Summary.NoTrueFlagFails` | Task.py:122-127 | faces with no true flag score 0 percent and fail |

## Left out

- Reading the JSON files (Task.py:68-69, 74-75) is I/O. The model takes parsed records.
- All printing and formatting in `print_percentage_match` (Task.py:81-124, 128) is left out. The pass decision is kept as the predicate `Summary.IsCorrectAttempt`.
- The loop over attempt files and the example invocation with fixed file names (Task.py:72, 130-134) are left out. So is the result claimed in the comment at Task.py:137, which depends on data files that are not part of this model.
- Floating-point behaviour (rounding, NaN, infinities) is not modelled. The arithmetic is over exact reals.
- Missing dictionary keys (`KeyError`) and dynamic typing are not modelled. Records are fixed datatypes. The two dictionary sizes read at Task.py:16 are parameters.
- `CalculatePercentageMatch` requires `topLevelKeys >= 4`, because a record that the function can read without a `KeyError` has at least the keys volume, bbMin, bbMax and faces. It also requires a non-empty target face list, because `faces[0]` is indexed (Task.py:16).
- `PercentageTrue` requires a non-empty face list. The original would divide by zero there, but an empty face list never reaches Task.py:122: the report has one entry per target face, and Task.py:16 already raises `IndexError` on `target['faces'][0]` when the target has none.
- The `true_counts` and `false_counts` dictionaries are modelled as functions of a `Key`. They are not map values.
