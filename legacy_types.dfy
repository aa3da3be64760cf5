// Value types of the legacy (first-generation) sensor SDK, as the legacy
// engine reads them.

module LegacyTypes {
  import opened KinectTypes

  /** Camera space of the legacy SDK (metres). */
  datatype SkeletonPoint = SkeletonPoint(x: real, y: real, z: real)

  /** Pixel coordinates the legacy mapper returns (integers). */
  datatype ColorImagePoint = ColorImagePoint(x: int, y: int)
  datatype DepthImagePoint = DepthImagePoint(x: int, y: int, depth: int)

  /** One input pixel of the legacy frame-wide mapping calls. */
  datatype DepthImagePixel = DepthImagePixel(depth: short)

  /** The 20 joints of the legacy SDK, in its declaration order. */
  datatype LegacyJointType =
    | HipCenter | Spine | ShoulderCenter | Head
    | ShoulderLeft | ElbowLeft | WristLeft | HandLeft
    | ShoulderRight | ElbowRight | WristRight | HandRight
    | HipLeft | KneeLeft | AnkleLeft | FootLeft
    | HipRight | KneeRight | AnkleRight | FootRight

  datatype JointTrackingState = JointNotTracked | JointInferred | JointTracked

  datatype SkeletonTrackingState = SkeletonNotTracked | PositionOnly | SkeletonTracked

  /** The legacy `FrameEdges` flag values. */
  const LEGACY_EDGE_RIGHT: bv32 := 1
  const LEGACY_EDGE_LEFT: bv32 := 2
  const LEGACY_EDGE_TOP: bv32 := 4
  const LEGACY_EDGE_BOTTOM: bv32 := 8

  datatype LegacyJoint = LegacyJoint(jointType: LegacyJointType, position: SkeletonPoint, trackingState: JointTrackingState)

  /** A skeleton slot of a legacy skeleton frame; `trackingId` is a C# `int`. */
  datatype Skeleton = Skeleton(
    trackingState: SkeletonTrackingState,
    trackingId: int32,
    position: SkeletonPoint,
    clippedEdges: bv32,
    joints: seq<LegacyJoint>)
}
