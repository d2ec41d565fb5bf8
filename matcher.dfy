/** The comparison of an attempt record against a target record: the
    coordinate comparison, the correctness report and the coarse
    percentage match, as Task.py computes them. */
module Matcher {
  import opened Geometry

  /** The four correctness flags kept for one face. */
  datatype FaceCorrectness = FaceCorrectness(area: bool, bbMin: bool, bbMax: bool, centroid: bool)

  /** The correctness report: volume, bounding box, and one entry per
      target face. */
  datatype Correctness = Correctness(volume: bool, bbMin: bool, bbMax: bool, faces: seq<FaceCorrectness>)

  /** The entry every face starts with before it is compared. */
  const NoMatch := FaceCorrectness(false, false, false, false)

  /** Two coordinate sequences agree when every pair taken by `zip` is
      within the tolerance; `zip` stops at the shorter sequence, so the
      trailing components of the longer one are never looked at. */
  function CompareCoordinates(a: seq<real>, b: seq<real>): (r: bool)
    ensures r <==> forall i :: 0 <= i < |a| && i < |b| ==> WithinTolerance(a[i], b[i])
  {
    if |a| == 0 || |b| == 0 then true
    else WithinTolerance(a[0], b[0]) && CompareCoordinates(a[1..], b[1..])
  }

  /** Every sequence agrees with itself, and an empty sequence agrees with
      anything. */
  lemma CompareCoordinatesReflexive(a: seq<real>, b: seq<real>)
    ensures CompareCoordinates(a, a)
    ensures |a| == 0 || |b| == 0 ==> CompareCoordinates(a, b)
  {
  }

  /** Components beyond the shorter sequence are ignored: appending to the
      longer one never changes the answer. */
  lemma CompareCoordinatesIgnoresTail(a: seq<real>, b: seq<real>, tail: seq<real>)
    requires |a| <= |b|
    ensures CompareCoordinates(a, b + tail) == CompareCoordinates(a, b)
  {
  }

  /** The same when the first sequence is the longer one. */
  lemma CompareCoordinatesIgnoresFirstTail(a: seq<real>, b: seq<real>, tail: seq<real>)
    requires |b| <= |a|
    ensures CompareCoordinates(a + tail, b) == CompareCoordinates(a, b)
  {
  }

  /** The flags for one pair of faces: the area flag says that the areas
      agree, each coordinate flag says that the components agree pairwise,
      and a face compared with itself gets all four flags. */
  function CompareFace(t: Face, a: Face): (r: FaceCorrectness)
    ensures r.area <==> a.area - EPSILON < t.area < a.area + EPSILON
    ensures r.bbMin <==> forall i :: 0 <= i < |t.bbMin| && i < |a.bbMin| ==> WithinTolerance(t.bbMin[i], a.bbMin[i])
    ensures r.bbMax <==> forall i :: 0 <= i < |t.bbMax| && i < |a.bbMax| ==> WithinTolerance(t.bbMax[i], a.bbMax[i])
    ensures r.centroid <==> forall i :: 0 <= i < |t.centroid| && i < |a.centroid| ==> WithinTolerance(t.centroid[i], a.centroid[i])
    ensures t == a ==> r == FaceCorrectness(true, true, true, true)
  {
    FaceCorrectness(
      area := WithinTolerance(t.area, a.area),
      bbMin := CompareCoordinates(t.bbMin, a.bbMin),
      bbMax := CompareCoordinates(t.bbMax, a.bbMax),
      centroid := CompareCoordinates(t.centroid, a.centroid))
  }

  /** Reference definition of the report's face list, by recursion over the
      two face lists: one entry per target face, compared with the attempt
      face at the same position while there is one, all-false after. */
  function ExpectedFaces(target: seq<Face>, attempt: seq<Face>): (r: seq<FaceCorrectness>)
    ensures |r| == |target|
    ensures forall i :: 0 <= i < |target| && i < |attempt| ==>
      r[i].area == WithinTolerance(target[i].area, attempt[i].area) &&
      r[i].bbMin == CompareCoordinates(target[i].bbMin, attempt[i].bbMin) &&
      r[i].bbMax == CompareCoordinates(target[i].bbMax, attempt[i].bbMax) &&
      r[i].centroid == CompareCoordinates(target[i].centroid, attempt[i].centroid)
    ensures forall i :: |attempt| <= i < |target| ==> r[i] == NoMatch
  {
    if |target| == 0 then []
    else if |attempt| == 0 then [NoMatch] + ExpectedFaces(target[1..], [])
    else [CompareFace(target[0], attempt[0])] + ExpectedFaces(target[1..], attempt[1..])
  }

  /** A face list compared with itself matches on every flag. */
  lemma ExpectedFacesSelf(faces: seq<Face>)
    ensures forall i :: 0 <= i < |faces| ==> ExpectedFaces(faces, faces)[i] == FaceCorrectness(true, true, true, true)
  {
  }

  /** `total_attributes`: the number of top-level keys of the target, plus
      the lengths of its two bounding-box corners, plus the number of keys of
      its first face. The two key counts are read from dictionary sizes in
      the original and are parameters here. */
  function TotalAttributes(topLevelKeys: nat, target: Record, faceKeys: nat): (r: nat)
    ensures r >= topLevelKeys
  {
    topLevelKeys + |target.bbMin| + |target.bbMax| + faceKeys
  }

  function Min(x: real, y: real): real
  {
    if x <= y then x else y
  }

  /** `min(matching / total * 100, 100)`. */
  function PercentageMatch(matching: nat, total: nat): (p: real)
    requires total > 0
    ensures 0.0 <= p <= 100.0
    ensures p == 0.0 <==> matching == 0
    ensures matching <= total ==> p * (total as real) == (matching as real) * 100.0
  {
    Min((matching as real) / (total as real) * 100.0, 100.0)
  }

  /** Only the volume feeds the numerator, so the score is either 0 or one
      share of 100 over the total, whatever the bounding box and the faces
      say; with at least the four keys every record has, it never exceeds 25. */
  lemma PercentageMatchVolumeOnly(volumeOk: bool, total: nat)
    requires total >= 4
    ensures PercentageMatch(if volumeOk then 1 else 0, total) == if volumeOk then 100.0 / (total as real) else 0.0
    ensures PercentageMatch(if volumeOk then 1 else 0, total) <= 25.0
  {
  }

  /** Comparing a record with itself never scores 100: the volume matches,
      but the score is 100 divided by the total, which is at least 4. */
  lemma SelfMatchIsNotFull(target: Record, topLevelKeys: nat, faceKeys: nat)
    requires topLevelKeys >= 4
    ensures WithinTolerance(target.volume, target.volume)
    ensures PercentageMatch(1, TotalAttributes(topLevelKeys, target, faceKeys))
            == 100.0 / (TotalAttributes(topLevelKeys, target, faceKeys) as real) < 100.0
  {
  }

  /** `calculate_percentage_match`: the report starts all-false with one
      entry per target face; the volume flag and the counter are set when the
      volumes agree; the bounding-box flags are set; then each face pair that
      `zip` produces has its four flags overwritten in place. The first
      target face is read for its key count, so the target has a face; the
      record holds the four keys the function reads, so `topLevelKeys` is at
      least 4. */
  method CalculatePercentageMatch(target: Record, attempt: Record, topLevelKeys: nat, faceKeys: nat)
    returns (percentage: real, report: Correctness)
    requires |target.faces| > 0
    requires topLevelKeys >= 4
    ensures report.volume <==> WithinTolerance(target.volume, attempt.volume)
    ensures report.bbMin == CompareCoordinates(target.bbMin, attempt.bbMin)
    ensures report.bbMax == CompareCoordinates(target.bbMax, attempt.bbMax)
    ensures report.faces == ExpectedFaces(target.faces, attempt.faces)
    ensures percentage == PercentageMatch(if report.volume then 1 else 0, TotalAttributes(topLevelKeys, target, faceKeys))
    ensures 0.0 <= percentage <= 100.0
  {
    var total := topLevelKeys + |target.bbMin| + |target.bbMax| + faceKeys;
    var matching: nat := 0;
    var faces := seq(|target.faces|, _ => NoMatch);
    report := Correctness(false, false, false, faces);

    if Abs(target.volume - attempt.volume) < EPSILON {
      matching := matching + 1;
      report := report.(volume := true);
    }

    report := report.(bbMin := CompareCoordinates(target.bbMin, attempt.bbMin));
    report := report.(bbMax := CompareCoordinates(target.bbMax, attempt.bbMax));

    var n := if |target.faces| <= |attempt.faces| then |target.faces| else |attempt.faces|;
    var i := 0;
    while i < n
      invariant 0 <= i <= n
      invariant |faces| == |target.faces|
      invariant forall j :: 0 <= j < i ==> faces[j] == CompareFace(target.faces[j], attempt.faces[j])
      invariant forall j :: i <= j < |faces| ==> faces[j] == NoMatch
    {
      var tf, af := target.faces[i], attempt.faces[i];
      var entry := faces[i];
      entry := entry.(bbMin := CompareCoordinates(tf.bbMin, af.bbMin));
      entry := entry.(bbMax := CompareCoordinates(tf.bbMax, af.bbMax));
      entry := entry.(centroid := CompareCoordinates(tf.centroid, af.centroid));
      entry := entry.(area := Abs(tf.area - af.area) < EPSILON);
      faces := faces[i := entry];
      i := i + 1;
    }
    report := report.(faces := faces);

    ghost var expected := ExpectedFaces(target.faces, attempt.faces);
    assert forall j :: 0 <= j < |faces| ==> faces[j] == expected[j];
    assert faces == expected;
    assert total == TotalAttributes(topLevelKeys, target, faceKeys);
    assert matching == if report.volume then 1 else 0;
    percentage := Min((matching as real) / (total as real) * 100.0, 100.0);
  }
}
