/** The summary figures computed over the report's per-face flags (true and
    false counts per key, matched faces, percentage of correctness) and the
    pass decision taken from them. In Task.py they are computed inline in
    `print_percentage_match`; here they are functions of the face list. */
module Summary {
  import opened Geometry
  import opened Matcher

  /** The four per-face keys, in the order the original iterates them. */
  datatype Key = BbMin | BbMax | Centroid | Area

  function Flag(f: FaceCorrectness, k: Key): bool
  {
    match k
    case BbMin => f.bbMin
    case BbMax => f.bbMax
    case Centroid => f.centroid
    case Area => f.area
  }

  /** `all(face[key] for key in keys)`. */
  predicate FullyMatched(f: FaceCorrectness): (r: bool)
    ensures r <==> f == FaceCorrectness(true, true, true, true)
  {
    Flag(f, BbMin) && Flag(f, BbMax) && Flag(f, Centroid) && Flag(f, Area)
  }

  /** `true_counts[key]`: the number of faces whose flag for `key` is true. */
  function TrueCount(faces: seq<FaceCorrectness>, k: Key): (n: nat)
    ensures n <= |faces|
  {
    if |faces| == 0 then 0
    else (if Flag(faces[0], k) then 1 else 0) + TrueCount(faces[1..], k)
  }

  /** The true count reaches the face count exactly when every face has the
      flag, and is zero exactly when no face has it. */
  lemma {:induction false} TrueCountExtremes(faces: seq<FaceCorrectness>, k: Key)
    ensures TrueCount(faces, k) == |faces| <==> forall i :: 0 <= i < |faces| ==> Flag(faces[i], k)
    ensures TrueCount(faces, k) == 0 <==> forall i :: 0 <= i < |faces| ==> !Flag(faces[i], k)
  {
    if |faces| > 0 {
      TrueCountExtremes(faces[1..], k);
      assert forall i :: 1 <= i < |faces| ==> faces[i] == faces[1..][i - 1];
    }
  }

  /** `false_counts[key]`: the face count minus the true count. It is zero
      exactly when every face has the flag. */
  function FalseCount(faces: seq<FaceCorrectness>, k: Key): (n: nat)
    ensures n <= |faces|
    ensures n == 0 <==> forall i :: 0 <= i < |faces| ==> Flag(faces[i], k)
  {
    TrueCountExtremes(faces, k);
    |faces| - TrueCount(faces, k)
  }

  /** Independent count of the faces whose flag for `key` is false. */
  function CountFalseFlags(faces: seq<FaceCorrectness>, k: Key): nat
  {
    if |faces| == 0 then 0
    else CountFalseFlags(faces[..|faces| - 1], k) + (if Flag(faces[|faces| - 1], k) then 0 else 1)
  }

  lemma {:induction false} TrueCountAppend(faces: seq<FaceCorrectness>, f: FaceCorrectness, k: Key)
    ensures TrueCount(faces + [f], k) == TrueCount(faces, k) + (if Flag(f, k) then 1 else 0)
  {
    if |faces| > 0 {
      assert (faces + [f])[1..] == faces[1..] + [f];
      TrueCountAppend(faces[1..], f, k);
    } else {
      assert (faces + [f])[1..] == [];
    }
  }

  /** The false count obtained by subtraction is the number of faces whose
      flag is false, so true and false counts partition the faces. */
  lemma {:induction false} FalseCountCountsFalseFlags(faces: seq<FaceCorrectness>, k: Key)
    ensures FalseCount(faces, k) == CountFalseFlags(faces, k)
    ensures TrueCount(faces, k) + FalseCount(faces, k) == |faces|
  {
    if |faces| > 0 {
      var init := faces[..|faces| - 1];
      assert faces == init + [faces[|faces| - 1]];
      TrueCountAppend(init, faces[|faces| - 1], k);
      FalseCountCountsFalseFlags(init, k);
    }
  }

  /** `matched_faces`: the number of faces with all four flags true. It is
      never more than the true count of any key. */
  function MatchedFaces(faces: seq<FaceCorrectness>): (n: nat)
    ensures n <= |faces|
    ensures forall k: Key :: n <= TrueCount(faces, k)
  {
    if |faces| == 0 then 0
    else (if FullyMatched(faces[0]) then 1 else 0) + MatchedFaces(faces[1..])
  }

  /** Every face is matched exactly when the matched count is the face count. */
  lemma {:induction false} MatchedFacesAll(faces: seq<FaceCorrectness>)
    ensures MatchedFaces(faces) == |faces| <==> forall i :: 0 <= i < |faces| ==> FullyMatched(faces[i])
  {
    if |faces| > 0 {
      MatchedFacesAll(faces[1..]);
      assert forall i :: 1 <= i < |faces| ==> faces[i] == faces[1..][i - 1];
    }
  }

  /** `sum(true_counts.values())`: at most four flags per face. */
  function TotalTrue(faces: seq<FaceCorrectness>): (r: nat)
    ensures r <= 4 * |faces|
  {
    TrueCount(faces, BbMin) + TrueCount(faces, BbMax) + TrueCount(faces, Centroid) + TrueCount(faces, Area)
  }

  /** `sum(false_counts.values())`: the flags that are not true, so that
      true and false flags together are four per face. */
  function TotalFalse(faces: seq<FaceCorrectness>): (r: nat)
    ensures r == 4 * |faces| - TotalTrue(faces)
  {
    FalseCount(faces, BbMin) + FalseCount(faces, BbMax) + FalseCount(faces, Centroid) + FalseCount(faces, Area)
  }

  /** `percentage_true`: true flags over all flags, times 100. The original
      divides by zero on an empty face list. The result lies in [0, 100], is
      100 exactly when every flag of every face is true, and reaches 80
      exactly when at least 16 flags in every 20 (4 per face) are true. */
  function PercentageTrue(faces: seq<FaceCorrectness>): (p: real)
    requires |faces| > 0
    ensures 0.0 <= p <= 100.0
    ensures p == 100.0 <==> forall i :: 0 <= i < |faces| ==> FullyMatched(faces[i])
    ensures p >= 80.0 <==> 5 * TotalTrue(faces) >= 16 * |faces|
  {
    AllFlagsTrue(faces);
    var p := (TotalTrue(faces) as real) / ((TotalTrue(faces) + TotalFalse(faces)) as real) * 100.0;
    PercentTimesFaces(TotalTrue(faces), TotalFalse(faces), |faces|);
    ScaledPercent(p, TotalTrue(faces), |faces|);
    p
  }

  /** Every flag of every face is true exactly when the four true counts add
      up to four per face. */
  lemma AllFlagsTrue(faces: seq<FaceCorrectness>)
    ensures TotalTrue(faces) == 4 * |faces| <==> forall i :: 0 <= i < |faces| ==> FullyMatched(faces[i])
  {
    TrueCountExtremes(faces, BbMin);
    TrueCountExtremes(faces, BbMax);
    TrueCountExtremes(faces, Centroid);
    TrueCountExtremes(faces, Area);
  }

  /** The percentage of t true flags out of t + f = 4n flags is 25 t / n. */
  lemma PercentTimesFaces(t: nat, f: nat, n: nat)
    requires 0 < n && t + f == 4 * n
    ensures (t as real) / ((t + f) as real) * 100.0 * (n as real) == (t as real) * 25.0
  {
    var d := (t + f) as real;
    var nr := n as real;
    var q := (t as real) / d;
    assert q * d == t as real;
    assert d == 4.0 * nr;
    calc {
      q * 100.0 * nr;
      q * (4.0 * nr) * 25.0;
      q * d * 25.0;
      (t as real) * 25.0;
    }
  }

  /** Multiplying by a positive number keeps a strict order. */
  lemma MulPositive(a: real, b: real, c: real)
    requires c > 0.0
    ensures a < b <==> a * c < b * c
  {
    if a < b {
      assert (b - a) * c > 0.0;
    } else {
      assert (a - b) * c >= 0.0;
    }
  }

  /** A percentage p with p * n == 25 t, where 0 <= t <= 4 n, lies in
      [0, 100]. */
  lemma ScaledPercentBounds(p: real, t: real, n: real)
    requires 0.0 < n && 0.0 <= t <= 4.0 * n && p * n == t * 25.0
    ensures 0.0 <= p <= 100.0
  {
    MulPositive(p, 0.0, n);
    MulPositive(100.0, p, n);
    assert !(p * n < 0.0 * n);
    assert !(100.0 * n < p * n);
  }

  /** Such a percentage is 100 exactly when t == 4 n. */
  lemma ScaledPercentFull(p: real, t: real, n: real)
    requires 0.0 < n && 0.0 <= t <= 4.0 * n && p * n == t * 25.0
    ensures p == 100.0 <==> t == 4.0 * n
  {
    ScaledPercentBounds(p, t, n);
    MulPositive(p, 100.0, n);
    if p < 100.0 {
      assert p * n < 100.0 * n;
      assert t * 25.0 < 100.0 * n;
    } else {
      assert p * n == 100.0 * n;
      assert t * 25.0 == 100.0 * n;
    }
  }

  /** Such a percentage reaches 80 exactly when 5 t >= 16 n. */
  lemma ScaledPercentThreshold(p: real, t: real, n: real)
    requires 0.0 < n && 0.0 <= t <= 4.0 * n && p * n == t * 25.0
    ensures p >= 80.0 <==> 5.0 * t >= 16.0 * n
  {
    MulPositive(p, 80.0, n);
    if p < 80.0 {
      assert p * n < 80.0 * n;
      assert t * 25.0 < 80.0 * n;
    } else {
      assert p * n >= 80.0 * n;
      assert t * 25.0 >= 80.0 * n;
    }
  }

  /** What a percentage p with p * n == 25 t says about the t true flags
      out of 4 n: it lies in [0, 100], is 100 iff every flag is true, and
      reaches 80 iff 5 t >= 16 n. */
  lemma ScaledPercent(p: real, t: nat, n: nat)
    requires 0 < n && t <= 4 * n && p * (n as real) == (t as real) * 25.0
    ensures 0.0 <= p <= 100.0
    ensures p == 100.0 <==> t == 4 * n
    ensures p >= 80.0 <==> 5 * t >= 16 * n
  {
    var tr, nr := t as real, n as real;
    assert (4 * n) as real == 4.0 * nr;
    assert (5 * t) as real == 5.0 * tr && (16 * n) as real == 16.0 * nr;
    ScaledPercentBounds(p, tr, nr);
    ScaledPercentFull(p, tr, nr);
    ScaledPercentThreshold(p, tr, nr);
  }

  /** The pass threshold, 80 percent. */
  const PASS_THRESHOLD: real := 80.0

  /** `percentage_true >= 80`: the attempt is declared the correct file.
      In counts: at least 16 true flags for every 5 faces, that is, at least
      80 percent of the 4 flags per face, boundary included. */
  predicate IsCorrectAttempt(faces: seq<FaceCorrectness>): (r: bool)
    requires |faces| > 0
    ensures r <==> 5 * TotalTrue(faces) >= 16 * |faces|
  {
    PercentageTrue(faces) >= PASS_THRESHOLD
  }

  /** Comparing a face list with itself gives the full summary: every face
      matched, no false flag for any key, 100 percent, and a pass. */
  lemma SelfComparisonSummary(target: Record)
    requires |target.faces| > 0
    ensures MatchedFaces(ExpectedFaces(target.faces, target.faces)) == |target.faces|
    ensures forall k: Key :: FalseCount(ExpectedFaces(target.faces, target.faces), k) == 0
    ensures PercentageTrue(ExpectedFaces(target.faces, target.faces)) == 100.0
    ensures IsCorrectAttempt(ExpectedFaces(target.faces, target.faces))
  {
    var faces := ExpectedFaces(target.faces, target.faces);
    ExpectedFacesSelf(target.faces);
    assert forall i :: 0 <= i < |faces| ==> FullyMatched(faces[i]);
    MatchedFacesAll(faces);
    AllFlagsTrue(faces);
  }

  /** Faces past the end of a shorter attempt are all-false, so they count as
      unmatched and add nothing to any true count. */
  lemma {:induction false} MissingAttemptFacesCountFalse(target: seq<Face>, attempt: seq<Face>, k: Key)
    requires |attempt| <= |target|
    ensures TrueCount(ExpectedFaces(target, attempt), k) <= |attempt|
    ensures MatchedFaces(ExpectedFaces(target, attempt)) <= |attempt|
  {
    var faces := ExpectedFaces(target, attempt);
    TrueCountSplit(faces, |attempt|, k);
    MatchedFacesSplit(faces, |attempt|);
    var rest := faces[|attempt|..];
    assert forall i :: 0 <= i < |rest| ==> rest[i] == NoMatch;
    TrueCountExtremes(rest, k);
  }

  lemma {:induction false} TrueCountSplit(faces: seq<FaceCorrectness>, m: nat, k: Key)
    requires m <= |faces|
    ensures TrueCount(faces, k) == TrueCount(faces[..m], k) + TrueCount(faces[m..], k)
  {
    if m > 0 {
      assert faces[..m][1..] == faces[1..][..m - 1];
      assert faces[m..] == faces[1..][m - 1..];
      TrueCountSplit(faces[1..], m - 1, k);
    } else {
      assert faces[m..] == faces;
    }
  }

  lemma {:induction false} MatchedFacesSplit(faces: seq<FaceCorrectness>, m: nat)
    requires m <= |faces|
    ensures MatchedFaces(faces) == MatchedFaces(faces[..m]) + MatchedFaces(faces[m..])
  {
    if m > 0 {
      assert faces[..m][1..] == faces[1..][..m - 1];
      assert faces[m..] == faces[1..][m - 1..];
      MatchedFacesSplit(faces[1..], m - 1);
    } else {
      assert faces[m..] == faces;
    }
  }

  /** Three faces, two fully matched and one whose centroid alone is off:
      two matched faces, centroid counts 2 and 1, 11 of 12 flags true, a
      pass. */
  lemma ThreeFaceScenario()
    ensures var full := FaceCorrectness(true, true, true, true);
            var faces := [full, full, FaceCorrectness(true, true, true, false)];
            MatchedFaces(faces) == 2 &&
            TrueCount(faces, Centroid) == 2 && FalseCount(faces, Centroid) == 1 &&
            PercentageTrue(faces) == 1100.0 / 12.0 &&
            IsCorrectAttempt(faces)
  {
    var full := FaceCorrectness(true, true, true, true);
    var faces := [full, full, FaceCorrectness(true, true, true, false)];
    var last := [FaceCorrectness(true, true, true, false)];
    assert faces[1..] == [full] + last && ([full] + last)[1..] == last && last[1..] == [];
    assert TrueCount(last, Centroid) == 0 && MatchedFaces(last) == 0;
    assert TrueCount([full] + last, Centroid) == 1 && MatchedFaces([full] + last) == 1;
    forall k: Key | k != Centroid
      ensures TrueCount(faces, k) == 3
    {
      assert TrueCount(last, k) == 1;
      assert TrueCount([full] + last, k) == 2;
    }
  }

  /** A face list with no true flag scores 0 percent and fails, whatever the
      volume did for the coarse percentage match. */
  lemma NoTrueFlagFails(faces: seq<FaceCorrectness>)
    requires |faces| > 0
    requires forall i :: 0 <= i < |faces| ==> faces[i] == NoMatch
    ensures PercentageTrue(faces) == 0.0
    ensures !IsCorrectAttempt(faces)
  {
    TrueCountExtremes(faces, BbMin);
    TrueCountExtremes(faces, BbMax);
    TrueCountExtremes(faces, Centroid);
    TrueCountExtremes(faces, Area);
    assert TotalTrue(faces) == 0;
  }
}
