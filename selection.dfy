// The active-subject heuristic shared by both engines: among the tracked
// slots, the one whose reference point is nearest to "centred, two metres
// away" (score |x| + |2 - z|). The LINQ `OrderBy` is a stable sort, so
// `First()` picks the lowest slot among equal scores.

module Selection {
  import opened KinectTypes

  /** One body slot as the selector sees it. */
  datatype Candidate = Candidate(tracked: bool, point: CameraSpacePoint)

  function Abs(x: real): real { if x < 0.0 then -x else x }

  function Score(p: CameraSpacePoint): real {
    Abs(p.x) + Abs(2.0 - p.z)
  }

  /** `k` is what a stable sort by score puts first among the tracked slots. */
  ghost predicate IsFirstBest(c: seq<Candidate>, k: int) {
    && 0 <= k < |c|
    && c[k].tracked
    && (forall i :: 0 <= i < |c| && c[i].tracked ==> Score(c[k].point) <= Score(c[i].point))
    && (forall i :: 0 <= i < k && c[i].tracked ==> Score(c[k].point) < Score(c[i].point))
  }

  /** The slot a stable sort by score puts first among the tracked ones, or None. */
  function Best(c: seq<Candidate>): (r: Option<nat>)
    ensures r.Some? ==> r.value < |c|
  {
    if |c| == 0 then None
    else
      var last := |c| - 1;
      var rest := Best(c[..last]);
      if !c[last].tracked then rest
      else if rest.None? then Some(last)
      else if Score(c[last].point) < Score(c[rest.value].point) then Some(last)
      else rest
  }

  /** Best chooses nothing exactly when no slot is tracked, and otherwise the first-best slot. */
  lemma {:induction false} BestSpec(c: seq<Candidate>)
    ensures Best(c).None? <==> forall i :: 0 <= i < |c| ==> !c[i].tracked
    ensures Best(c).Some? ==> IsFirstBest(c, Best(c).value)
  {
    if |c| > 0 {
      BestSpec(c[..|c| - 1]);
    }
  }

  /** The first-best slot is unique, so the choice is deterministic. */
  lemma FirstBestUnique(c: seq<Candidate>, j: int, k: int)
    requires IsFirstBest(c, j) && IsFirstBest(c, k)
    ensures j == k
  {
  }

  /** Any slot with the stable-sort property is the one Best returns. */
  lemma BestIsFirstBest(c: seq<Candidate>, k: int)
    requires IsFirstBest(c, k)
    ensures Best(c) == Some(k)
  {
    BestSpec(c);
    FirstBestUnique(c, Best(c).value, k);
  }

  /** Scores 3, 1, 1 on three tracked slots: the tie goes to slot 1, never slot 2. */
  lemma TieGoesToLowestSlot(p3: CameraSpacePoint, p1: CameraSpacePoint)
    requires Score(p3) == 3.0 && Score(p1) == 1.0
    ensures Best([Candidate(true, p3), Candidate(true, p1), Candidate(true, p1)]) == Some(1)
  {
    var c := [Candidate(true, p3), Candidate(true, p1), Candidate(true, p1)];
    assert IsFirstBest(c, 1);
    BestIsFirstBest(c, 1);
  }
}
