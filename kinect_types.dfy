// Value types shared by both sensor generations: the integer widths the
// engine works with, the modern SDK's camera-space points, joints and
// bodies, the frame-source bit set and the depth visualisation options.

module KinectTypes {

  datatype Option<+T> = None | Some(value: T)

  /** The C# integer widths that the engine stores in its buffers. */
  type byte = x: int | 0 <= x < 0x100
  type ushort = x: int | 0 <= x < 0x1_0000
  type short = x: int | -0x8000 <= x < 0x8000
  type int32 = x: int | -0x8000_0000 <= x < 0x8000_0000
  type ulong = x: int | 0 <= x < 0x1_0000_0000_0000_0000

  /** `byte.MaxValue`, the body-index value that means "no player here". */
  const NO_ACTIVE_PLAYER: byte := 255

  /** A packed 0xAARRGGBB colour; its arithmetic is never interpreted here. */
  type ColorBGRA = x: int | 0 <= x < 0x1_0000_0000

  /** The six default player tints, in palette order. */
  const DEFAULT_USER_COLORS: seq<ColorBGRA> :=
    [0xFFFFFF00, 0xFF00FFFF, 0xFFFF00FF, 0xFF88FF88, 0xFF8888FF, 0xFFFF8888]

  /**
   * One pixel of the depth visualisation: a grey level (`new ColorBGRA(intensity)`)
   * optionally multiplied by palette colours (`pixel *= colour`), kept symbolic.
   */
  datatype Shade = Gray(level: byte) | Tinted(base: Shade, tint: ColorBGRA)

  /** Camera space (metres), depth-pixel space and colour-pixel space. */
  datatype CameraSpacePoint = CameraSpacePoint(x: real, y: real, z: real)
  datatype DepthSpacePoint = DepthSpacePoint(x: real, y: real)
  datatype ColorSpacePoint = ColorSpacePoint(x: real, y: real)

  /** The 25 joints of the modern SDK, in the SDK's declaration order. */
  datatype JointType =
    | SpineBase | SpineMid | Neck | Head
    | ShoulderLeft | ElbowLeft | WristLeft | HandLeft
    | ShoulderRight | ElbowRight | WristRight | HandRight
    | HipLeft | KneeLeft | AnkleLeft | FootLeft
    | HipRight | KneeRight | AnkleRight | FootRight
    | SpineShoulder | HandTipLeft | ThumbLeft | HandTipRight | ThumbRight

  datatype TrackingState = NotTracked | Inferred | Tracked

  datatype Joint = Joint(jointType: JointType, position: CameraSpacePoint, trackingState: TrackingState)

  /** A body record of the modern SDK, as far as the engine reads it. */
  datatype Body = Body(isTracked: bool, trackingId: ulong, joints: map<JointType, Joint>)

  /** The SDK fills every joint of every body slot, so SpineMid is always there. */
  type SdkBody = b: Body | SpineMid in b.joints witness UntrackedBody

  const UntrackedBody: Body :=
    Body(false, 0, map[SpineMid := Joint(SpineMid, CameraSpacePoint(0.0, 0.0, 0.0), NotTracked)])

  /** The modern `FrameEdges` flag values. */
  const EDGE_RIGHT: bv32 := 1
  const EDGE_LEFT: bv32 := 2
  const EDGE_TOP: bv32 := 4
  const EDGE_BOTTOM: bv32 := 8

  /**
   * The members of the `FrameSourceTypes` flag enumeration that the engine sets;
   * a value of the enumeration is a set of them (`|=` is union, `& s != 0` is `s in`).
   */
  datatype FrameSource =
    | ColorSource | InfraredSource | LongExposureInfraredSource
    | DepthSource | BodyIndexSource | BodySource

  /** The `DepthImageMode` flags; `Normal` is all three off. */
  datatype DepthImageMode = DepthImageMode(wrapped: bool, userColor: bool, includeJoints: bool)

  const Normal := DepthImageMode(false, false, false)
}
