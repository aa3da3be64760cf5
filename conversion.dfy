// Conversions from the legacy SDK's points, tracking states, clipped-edge
// flags and joint types to their modern counterparts.

module Conversion {
  import opened KinectTypes
  import opened LegacyTypes

  /** A legacy skeleton point becomes a camera-space point, coordinate for coordinate. */
  function ConvertPoint(point: SkeletonPoint): CameraSpacePoint {
    CameraSpacePoint(point.x, point.y, point.z)
  }

  /** The object initialiser the legacy mapper uses to hand a camera point to the SDK. */
  function ToSkeletonPoint(point: CameraSpacePoint): SkeletonPoint {
    SkeletonPoint(point.x, point.y, point.z)
  }

  /** The two point conversions are inverse to each other. */
  lemma PointRoundTrip(s: SkeletonPoint, c: CameraSpacePoint)
    ensures ToSkeletonPoint(ConvertPoint(s)) == s
    ensures ConvertPoint(ToSkeletonPoint(c)) == c
  {
  }

  /** Tracked and Inferred keep their meaning; everything else is NotTracked. */
  function ConvertTrackingState(state: JointTrackingState): (r: TrackingState)
    ensures r == Tracked <==> state == JointTracked
    ensures r == Inferred <==> state == JointInferred
    ensures r == NotTracked <==> state == JointNotTracked
  {
    match state
    case JointTracked => Tracked
    case JointInferred => Inferred
    case _ => NotTracked
  }

  /** Copies the four edge flags one by one into a fresh modern flag set. */
  function ConvertEdges(edges: bv32): (r: bv32)
    ensures (r & EDGE_BOTTOM != 0) <==> (edges & LEGACY_EDGE_BOTTOM != 0)
    ensures (r & EDGE_LEFT != 0) <==> (edges & LEGACY_EDGE_LEFT != 0)
    ensures (r & EDGE_RIGHT != 0) <==> (edges & LEGACY_EDGE_RIGHT != 0)
    ensures (r & EDGE_TOP != 0) <==> (edges & LEGACY_EDGE_TOP != 0)
    ensures r & !(EDGE_BOTTOM | EDGE_LEFT | EDGE_RIGHT | EDGE_TOP) == 0
  {
    var bottom := if edges & LEGACY_EDGE_BOTTOM != 0 then EDGE_BOTTOM else 0;
    var left := if edges & LEGACY_EDGE_LEFT != 0 then bottom | EDGE_LEFT else bottom;
    var right := if edges & LEGACY_EDGE_RIGHT != 0 then left | EDGE_RIGHT else left;
    if edges & LEGACY_EDGE_TOP != 0 then right | EDGE_TOP else right
  }

  /** The legacy joint set renamed into the modern one. */
  function ConvertJointType(t: LegacyJointType): JointType {
    match t
    case AnkleLeft => JointType.AnkleLeft
    case AnkleRight => JointType.AnkleRight
    case ElbowLeft => JointType.ElbowLeft
    case ElbowRight => JointType.ElbowRight
    case FootLeft => JointType.FootLeft
    case FootRight => JointType.FootRight
    case HandLeft => JointType.HandLeft
    case HandRight => JointType.HandRight
    case Head => JointType.Head
    case HipCenter => SpineBase
    case HipLeft => JointType.HipLeft
    case HipRight => JointType.HipRight
    case KneeLeft => JointType.KneeLeft
    case KneeRight => JointType.KneeRight
    case ShoulderCenter => SpineShoulder
    case ShoulderLeft => JointType.ShoulderLeft
    case ShoulderRight => JointType.ShoulderRight
    case Spine => SpineMid
    case WristLeft => JointType.WristLeft
    case WristRight => JointType.WristRight
  }

  /**
   * The legacy joint a modern joint type comes from, if any: the five joints
   * the legacy sensor cannot see (neck, hand tips, thumbs) have none.
   */
  function LegacyJointOf(t: JointType): (r: Option<LegacyJointType>)
    ensures r.None? <==> t in {Neck, HandTipLeft, ThumbLeft, HandTipRight, ThumbRight}
  {
    match t
    case SpineBase => Some(HipCenter)
    case SpineMid => Some(Spine)
    case SpineShoulder => Some(ShoulderCenter)
    case Head => Some(LegacyJointType.Head)
    case ShoulderLeft => Some(LegacyJointType.ShoulderLeft)
    case ElbowLeft => Some(LegacyJointType.ElbowLeft)
    case WristLeft => Some(LegacyJointType.WristLeft)
    case HandLeft => Some(LegacyJointType.HandLeft)
    case ShoulderRight => Some(LegacyJointType.ShoulderRight)
    case ElbowRight => Some(LegacyJointType.ElbowRight)
    case WristRight => Some(LegacyJointType.WristRight)
    case HandRight => Some(LegacyJointType.HandRight)
    case HipLeft => Some(LegacyJointType.HipLeft)
    case KneeLeft => Some(LegacyJointType.KneeLeft)
    case AnkleLeft => Some(LegacyJointType.AnkleLeft)
    case FootLeft => Some(LegacyJointType.FootLeft)
    case HipRight => Some(LegacyJointType.HipRight)
    case KneeRight => Some(LegacyJointType.KneeRight)
    case AnkleRight => Some(LegacyJointType.AnkleRight)
    case FootRight => Some(LegacyJointType.FootRight)
    case _ => None
  }

  /** The joint-type conversion and LegacyJointOf are inverse on the 20 legacy joints. */
  lemma JointTypeRoundTrip(j: LegacyJointType, t: JointType)
    ensures LegacyJointOf(ConvertJointType(j)) == Some(j)
    ensures LegacyJointOf(t) == Some(j) ==> ConvertJointType(j) == t
  {
  }

  /** Hence no two legacy joints share a modern joint, and the switch's default arm is never taken. */
  lemma ConvertJointTypeInjective(a: LegacyJointType, b: LegacyJointType)
    ensures ConvertJointType(a) == ConvertJointType(b) ==> a == b
  {
    JointTypeRoundTrip(a, ConvertJointType(a));
    JointTypeRoundTrip(b, ConvertJointType(b));
  }

  /** The three renamed joints. */
  lemma RenamedJoints()
    ensures ConvertJointType(HipCenter) == SpineBase
    ensures ConvertJointType(ShoulderCenter) == SpineShoulder
    ensures ConvertJointType(Spine) == SpineMid
  {
  }

  /** The converted joint of a legacy joint record. */
  function ConvertJoint(j: LegacyJoint): Joint {
    var t := ConvertJointType(j.jointType);
    Joint(t, ConvertPoint(j.position), ConvertTrackingState(j.trackingState))
  }

  /**
   * A converted joint keeps its meaning: its type maps back to the legacy
   * type, its position converts back, and its tracking state says the same.
   */
  lemma JointRoundTrip(j: LegacyJoint)
    ensures LegacyJointOf(ConvertJoint(j).jointType) == Some(j.jointType)
    ensures ToSkeletonPoint(ConvertJoint(j).position) == j.position
    ensures ConvertJoint(j).trackingState == Tracked <==> j.trackingState == JointTracked
    ensures ConvertJoint(j).trackingState == Inferred <==> j.trackingState == JointInferred
  {
    JointTypeRoundTrip(j.jointType, ConvertJointType(j.jointType));
  }
}
