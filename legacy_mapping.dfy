// The legacy coordinate mapper: single-point conversions that copy fields
// around the legacy SDK's own mapper, and batch and frame-wide conversions
// that fill caller-supplied output arrays up to the shorter length.

module LegacyMapping {
  import opened KinectTypes
  import opened LegacyTypes
  import opened Conversion

  /**
   * The legacy SDK's mapper, bound to the fixed formats the adapter always
   * passes (colour 640x480 at 30 fps, depth 640x480 at 30 fps). A frame-wide
   * call fills an output array; `f(pixels, n, i)` is what it writes at index
   * `i` of an output array of length `n`.
   */
  datatype SdkMapper = SdkMapper(
    skeletonToColor: SkeletonPoint -> ColorImagePoint,
    skeletonToDepth: SkeletonPoint -> DepthImagePoint,
    depthToSkeleton: DepthImagePoint -> SkeletonPoint,
    depthToColor: DepthImagePoint -> ColorImagePoint,
    colorFrameToSkeleton: (seq<DepthImagePixel>, nat, nat) -> SkeletonPoint,
    colorFrameToDepth: (seq<DepthImagePixel>, nat, nat) -> DepthImagePoint,
    depthFrameToSkeleton: (seq<DepthImagePixel>, nat, nat) -> SkeletonPoint,
    depthFrameToColor: (seq<DepthImagePixel>, nat, nat) -> ColorImagePoint)

  function Min(a: int, b: int): (m: int)
    ensures m <= a && m <= b && (m == a || m == b)
  {
    if a < b then a else b
  }

  /** `(int)x` on a float: truncation toward zero. */
  function Truncate(x: real): (n: int)
    ensures 0.0 <= x ==> n as real <= x < n as real + 1.0
    ensures x < 0.0 ==> n as real - 1.0 < x <= n as real
  {
    if x >= 0.0 then x.Floor else -((-x).Floor)
  }

  /** `(short)depth` on a `ushort`: values from 32768 up wrap to negatives. */
  function ToShort(d: ushort): (s: short)
    ensures d < 0x8000 ==> s == d
    ensures d >= 0x8000 ==> s == d - 0x1_0000
  {
    if d < 0x8000 then d else d - 0x1_0000
  }

  /** The depth pixels the frame-wide calls hand to the SDK. */
  function ToDepthPixels(data: seq<ushort>): (r: seq<DepthImagePixel>)
    ensures |r| == |data|
    ensures forall i :: 0 <= i < |data| ==> r[i] == DepthImagePixel(ToShort(data[i]))
  {
    seq(|data|, i requires 0 <= i < |data| => DepthImagePixel(ToShort(data[i])))
  }

  /** The depth-image point built from a depth-space point: coordinates truncated. */
  function ToDepthImagePoint(p: DepthSpacePoint, depth: ushort): DepthImagePoint {
    DepthImagePoint(Truncate(p.x), Truncate(p.y), depth)
  }

  /** On whole-pixel coordinates the truncation loses nothing. */
  lemma TruncateIntegral(n: int)
    ensures Truncate(n as real) == n
  {
  }

  /** Truncation goes toward zero, not down: -0.5 becomes column 0. */
  lemma TruncateTowardZero()
    ensures Truncate(-0.5) == 0 && Truncate(-1.5) == -1 && Truncate(1.5) == 1
  {
  }

  class CoordinateMapper {
    const mapper: SdkMapper

    constructor (mapper: SdkMapper)
      ensures this.mapper == mapper
    {
      this.mapper := mapper;
    }

    function MapCameraPointToColorSpace(cameraPoint: CameraSpacePoint): ColorSpacePoint {
      var point := mapper.skeletonToColor(ToSkeletonPoint(cameraPoint));
      ColorSpacePoint(point.x as real, point.y as real)
    }

    function MapCameraPointToDepthSpace(cameraPoint: CameraSpacePoint): DepthSpacePoint {
      var point := mapper.skeletonToDepth(ToSkeletonPoint(cameraPoint));
      DepthSpacePoint(point.x as real, point.y as real)
    }

    function MapDepthPointToCameraSpace(depthPoint: DepthSpacePoint, depth: ushort): CameraSpacePoint {
      ConvertPoint(mapper.depthToSkeleton(ToDepthImagePoint(depthPoint, depth)))
    }

    function MapDepthPointToColorSpace(depthPoint: DepthSpacePoint, depth: ushort): ColorSpacePoint {
      var point := mapper.depthToColor(ToDepthImagePoint(depthPoint, depth));
      ColorSpacePoint(point.x as real, point.y as real)
    }

    /**
     * A legacy point handed in as a camera point reaches the SDK unchanged, and
     * the pixel the SDK returns comes back with the same coordinates.
     */
    lemma CameraMappingsPassThrough(s: SkeletonPoint)
      ensures var c := mapper.skeletonToColor(s);
              MapCameraPointToColorSpace(ConvertPoint(s)) == ColorSpacePoint(c.x as real, c.y as real)
      ensures var d := mapper.skeletonToDepth(s);
              MapCameraPointToDepthSpace(ConvertPoint(s)) == DepthSpacePoint(d.x as real, d.y as real)
    {
      PointRoundTrip(s, ConvertPoint(s));
    }

    /** A depth pixel at whole coordinates reaches the SDK at exactly those coordinates. */
    lemma DepthMappingsPassThrough(x: int, y: int, depth: ushort)
      ensures var s := mapper.depthToSkeleton(DepthImagePoint(x, y, depth));
              MapDepthPointToCameraSpace(DepthSpacePoint(x as real, y as real), depth) == CameraSpacePoint(s.x, s.y, s.z)
      ensures var c := mapper.depthToColor(DepthImagePoint(x, y, depth));
              MapDepthPointToColorSpace(DepthSpacePoint(x as real, y as real), depth) == ColorSpacePoint(c.x as real, c.y as real)
    {
      TruncateIntegral(x);
      TruncateIntegral(y);
    }

    method MapCameraPointsToColorSpace(cameraPoints: array<CameraSpacePoint>, colorPoints: array<ColorSpacePoint>)
      modifies colorPoints
      ensures forall i :: 0 <= i < Min(cameraPoints.Length, colorPoints.Length) ==>
        colorPoints[i] == MapCameraPointToColorSpace(cameraPoints[i])
      ensures forall i :: Min(cameraPoints.Length, colorPoints.Length) <= i < colorPoints.Length ==>
        colorPoints[i] == old(colorPoints[i])
    {
      var count := Min(cameraPoints.Length, colorPoints.Length);
      for i := 0 to count
        invariant forall k :: 0 <= k < i ==> colorPoints[k] == MapCameraPointToColorSpace(cameraPoints[k])
        invariant forall k :: i <= k < colorPoints.Length ==> colorPoints[k] == old(colorPoints[k])
      {
        colorPoints[i] := MapCameraPointToColorSpace(cameraPoints[i]);
      }
    }

    method MapCameraPointsToDepthSpace(cameraPoints: array<CameraSpacePoint>, depthPoints: array<DepthSpacePoint>)
      modifies depthPoints
      ensures forall i :: 0 <= i < Min(cameraPoints.Length, depthPoints.Length) ==>
        depthPoints[i] == MapCameraPointToDepthSpace(cameraPoints[i])
      ensures forall i :: Min(cameraPoints.Length, depthPoints.Length) <= i < depthPoints.Length ==>
        depthPoints[i] == old(depthPoints[i])
    {
      var count := Min(cameraPoints.Length, depthPoints.Length);
      for i := 0 to count
        invariant forall k :: 0 <= k < i ==> depthPoints[k] == MapCameraPointToDepthSpace(cameraPoints[k])
        invariant forall k :: i <= k < depthPoints.Length ==> depthPoints[k] == old(depthPoints[k])
      {
        depthPoints[i] := MapCameraPointToDepthSpace(cameraPoints[i]);
      }
    }

    /** Reads `depths[i]` for every written index, so `depths` must be at least that long. */
    method MapDepthPointsToCameraSpace(depthPoints: array<DepthSpacePoint>, depths: array<ushort>,
                                       cameraPoints: array<CameraSpacePoint>)
      requires Min(depthPoints.Length, cameraPoints.Length) <= depths.Length
      modifies cameraPoints
      ensures forall i :: 0 <= i < Min(depthPoints.Length, cameraPoints.Length) ==>
        cameraPoints[i] == MapDepthPointToCameraSpace(depthPoints[i], depths[i])
      ensures forall i :: Min(depthPoints.Length, cameraPoints.Length) <= i < cameraPoints.Length ==>
        cameraPoints[i] == old(cameraPoints[i])
    {
      var count := Min(depthPoints.Length, cameraPoints.Length);
      for i := 0 to count
        invariant forall k :: 0 <= k < i ==> cameraPoints[k] == MapDepthPointToCameraSpace(depthPoints[k], depths[k])
        invariant forall k :: i <= k < cameraPoints.Length ==> cameraPoints[k] == old(cameraPoints[k])
      {
        var point := mapper.depthToSkeleton(ToDepthImagePoint(depthPoints[i], depths[i]));
        cameraPoints[i] := CameraSpacePoint(point.x, point.y, point.z);
      }
    }

    method MapDepthPointsToColorSpace(depthPoints: array<DepthSpacePoint>, depths: array<ushort>,
                                      colorPoints: array<ColorSpacePoint>)
      requires Min(depthPoints.Length, colorPoints.Length) <= depths.Length
      modifies colorPoints
      ensures forall i :: 0 <= i < Min(depthPoints.Length, colorPoints.Length) ==>
        colorPoints[i] == MapDepthPointToColorSpace(depthPoints[i], depths[i])
      ensures forall i :: Min(depthPoints.Length, colorPoints.Length) <= i < colorPoints.Length ==>
        colorPoints[i] == old(colorPoints[i])
    {
      var count := Min(depthPoints.Length, colorPoints.Length);
      for i := 0 to count
        invariant forall k :: 0 <= k < i ==> colorPoints[k] == MapDepthPointToColorSpace(depthPoints[k], depths[k])
        invariant forall k :: i <= k < colorPoints.Length ==> colorPoints[k] == old(colorPoints[k])
      {
        var point := mapper.depthToColor(ToDepthImagePoint(depthPoints[i], depths[i]));
        colorPoints[i] := ColorSpacePoint(point.x as real, point.y as real);
      }
    }

    /*
     * Frame-wide conversions. The SDK writes into a temporary array as long as
     * the output; only the first min(depth frame length, output length) results
     * are copied out, the rest of the output keeps its old contents.
     */

    method MapColorFrameToCameraSpace(depthFrameData: array<ushort>, cameraSpacePoints: array<CameraSpacePoint>)
      modifies cameraSpacePoints
      ensures var pixels, n := ToDepthPixels(depthFrameData[..]), cameraSpacePoints.Length;
        forall i :: 0 <= i < Min(depthFrameData.Length, n) ==>
          cameraSpacePoints[i] == ConvertPoint(mapper.colorFrameToSkeleton(pixels, n, i))
      ensures forall i :: Min(depthFrameData.Length, cameraSpacePoints.Length) <= i < cameraSpacePoints.Length ==>
        cameraSpacePoints[i] == old(cameraSpacePoints[i])
    {
      var pixels := ToDepthPixels(depthFrameData[..]);
      var n := cameraSpacePoints.Length;
      var count := Min(|pixels|, n);
      for i := 0 to count
        invariant forall k :: 0 <= k < i ==> cameraSpacePoints[k] == ConvertPoint(mapper.colorFrameToSkeleton(pixels, n, k))
        invariant forall k :: i <= k < n ==> cameraSpacePoints[k] == old(cameraSpacePoints[k])
      {
        cameraSpacePoints[i] := ConvertPoint(mapper.colorFrameToSkeleton(pixels, n, i));
      }
    }

    method MapColorFrameToDepthSpace(depthFrameData: array<ushort>, depthSpacePoints: array<DepthSpacePoint>)
      modifies depthSpacePoints
      ensures var pixels, n := ToDepthPixels(depthFrameData[..]), depthSpacePoints.Length;
        forall i :: 0 <= i < Min(depthFrameData.Length, n) ==>
          var p := mapper.colorFrameToDepth(pixels, n, i);
          depthSpacePoints[i] == DepthSpacePoint(p.x as real, p.y as real)
      ensures forall i :: Min(depthFrameData.Length, depthSpacePoints.Length) <= i < depthSpacePoints.Length ==>
        depthSpacePoints[i] == old(depthSpacePoints[i])
    {
      var pixels := ToDepthPixels(depthFrameData[..]);
      var n := depthSpacePoints.Length;
      var count := Min(|pixels|, n);
      for i := 0 to count
        invariant forall k :: 0 <= k < i ==>
          var p := mapper.colorFrameToDepth(pixels, n, k);
          depthSpacePoints[k] == DepthSpacePoint(p.x as real, p.y as real)
        invariant forall k :: i <= k < n ==> depthSpacePoints[k] == old(depthSpacePoints[k])
      {
        var p := mapper.colorFrameToDepth(pixels, n, i);
        depthSpacePoints[i] := DepthSpacePoint(p.x as real, p.y as real);
      }
    }

    method MapDepthFrameToCameraSpace(depthFrameData: array<ushort>, cameraSpacePoints: array<CameraSpacePoint>)
      modifies cameraSpacePoints
      ensures var pixels, n := ToDepthPixels(depthFrameData[..]), cameraSpacePoints.Length;
        forall i :: 0 <= i < Min(depthFrameData.Length, n) ==>
          cameraSpacePoints[i] == ConvertPoint(mapper.depthFrameToSkeleton(pixels, n, i))
      ensures forall i :: Min(depthFrameData.Length, cameraSpacePoints.Length) <= i < cameraSpacePoints.Length ==>
        cameraSpacePoints[i] == old(cameraSpacePoints[i])
    {
      var pixels := ToDepthPixels(depthFrameData[..]);
      var n := cameraSpacePoints.Length;
      var count := Min(|pixels|, n);
      for i := 0 to count
        invariant forall k :: 0 <= k < i ==> cameraSpacePoints[k] == ConvertPoint(mapper.depthFrameToSkeleton(pixels, n, k))
        invariant forall k :: i <= k < n ==> cameraSpacePoints[k] == old(cameraSpacePoints[k])
      {
        cameraSpacePoints[i] := ConvertPoint(mapper.depthFrameToSkeleton(pixels, n, i));
      }
    }

    method MapDepthFrameToColorSpace(depthFrameData: array<ushort>, colorSpacePoints: array<ColorSpacePoint>)
      modifies colorSpacePoints
      ensures var pixels, n := ToDepthPixels(depthFrameData[..]), colorSpacePoints.Length;
        forall i :: 0 <= i < Min(depthFrameData.Length, n) ==>
          var p := mapper.depthFrameToColor(pixels, n, i);
          colorSpacePoints[i] == ColorSpacePoint(p.x as real, p.y as real)
      ensures forall i :: Min(depthFrameData.Length, colorSpacePoints.Length) <= i < colorSpacePoints.Length ==>
        colorSpacePoints[i] == old(colorSpacePoints[i])
    {
      var pixels := ToDepthPixels(depthFrameData[..]);
      var n := colorSpacePoints.Length;
      var count := Min(|pixels|, n);
      for i := 0 to count
        invariant forall k :: 0 <= k < i ==>
          var p := mapper.depthFrameToColor(pixels, n, k);
          colorSpacePoints[k] == ColorSpacePoint(p.x as real, p.y as real)
        invariant forall k :: i <= k < n ==> colorSpacePoints[k] == old(colorSpacePoints[k])
      {
        var p := mapper.depthFrameToColor(pixels, n, i);
        colorSpacePoints[i] := ColorSpacePoint(p.x as real, p.y as real);
      }
    }
  }
}
