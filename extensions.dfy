// Joint comparison helpers and the body reference point used by the
// active-subject heuristic.

module Extensions {
  import opened KinectTypes

  /** `joint` is further from the sensor than `other`. */
  predicate IsBehind(joint: Joint, other: Joint) {
    joint.position.z > other.position.z
  }

  predicate IsAbove(joint: Joint, other: Joint) {
    joint.position.y > other.position.y
  }

  predicate IsBelow(joint: Joint, other: Joint) {
    joint.position.y < other.position.y
  }

  predicate IsLeftOf(joint: Joint, other: Joint) {
    joint.position.x < other.position.x
  }

  /** As written this compares the Y coordinates, not X. */
  predicate IsRightOf(joint: Joint, other: Joint) {
    joint.position.y < other.position.y
  }

  /** The body's reference point: its mid-spine joint. */
  function Position(player: SdkBody): CameraSpacePoint {
    player.joints[SpineMid].position
  }

  /** "Above" and "below" are mirror images of each other and never both hold. */
  lemma AboveIsMirroredBelow(a: Joint, b: Joint)
    ensures IsAbove(a, b) <==> IsBelow(b, a)
    ensures !(IsAbove(a, b) && IsBelow(a, b))
  {
  }

  /** The strict comparisons are irreflexive and asymmetric. */
  lemma StrictComparisons(a: Joint, b: Joint)
    ensures !IsLeftOf(a, a) && !IsBehind(a, a)
    ensures IsLeftOf(a, b) ==> !IsLeftOf(b, a)
    ensures IsBehind(a, b) ==> !IsBehind(b, a)
  {
  }

  /** `IsRightOf` coincides with `IsBelow`, so it says nothing about X. */
  lemma RightOfIsBelow(a: Joint, b: Joint)
    ensures IsRightOf(a, b) <==> IsBelow(a, b)
  {
  }

  /** "Right of" comparing the X coordinates, as its name and `IsLeftOf` call for. */
  predicate IsRightOfCorrected(joint: Joint, other: Joint) {
    joint.position.x > other.position.x
  }

  /** The corrected "right of" mirrors `IsLeftOf` and excludes it. */
  lemma RightOfCorrectedMirrorsLeft(a: Joint, b: Joint)
    ensures IsRightOfCorrected(a, b) <==> IsLeftOf(b, a)
    ensures !(IsRightOfCorrected(a, b) && IsLeftOf(a, b))
  {
  }

  /** A joint left of another is not right of it in X, yet `IsRightOf` may still hold. */
  lemma RightOfIgnoresX()
    ensures var a := Joint(Head, CameraSpacePoint(0.0, 0.0, 1.0), Tracked);
            var b := Joint(Head, CameraSpacePoint(1.0, 1.0, 1.0), Tracked);
            IsLeftOf(a, b) && IsRightOf(a, b)
  {
  }
}
