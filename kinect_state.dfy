// The modern frame-state engine: per-source decoders that copy each frame into
// a buffer allocated on first use and mark the source dirty, the active-subject
// selection, the edge-triggered availability report, the depth-pixel
// enumeration, and the render step that redraws the depth visualisation from
// the dirty set and then clears it.

module ModernState {
  import opened KinectTypes
  import opened DepthVisual
  import opened Selection
  import Extensions

  /** The number of body slots the sensor reports. */
  const BODY_COUNT := 6

  /** One pixel of the depth enumeration. */
  datatype DepthDataPixel = DepthDataPixel(
    index: int, x: int, y: int,
    depth: ushort, playerIndex: byte,
    minDepth: ushort, maxDepth: ushort)
  {
    predicate IsValidDepth() { minDepth <= depth && depth <= maxDepth }
    predicate HasPlayer() { playerIndex != NO_ACTIVE_PLAYER }
  }

  /*
   * Frames as the SDK hands them over; a missing frame is `None`. The subset
   * types state what the SDK guarantees about each frame.
   */

  datatype BodyFrameData = BodyFrameData(bodies: seq<SdkBody>)
  type BodyFrame = f: BodyFrameData | |f.bodies| == BODY_COUNT
    witness BodyFrameData([UntrackedBody, UntrackedBody, UntrackedBody, UntrackedBody, UntrackedBody, UntrackedBody])

  datatype BodyIndexFrame = BodyIndexFrame(data: seq<byte>)

  datatype ColorImageFormat = NoFormat | Rgba | Yuv | Bgra | Bayer | Yuy2

  /**
   * A colour frame: its raw bytes in the sensor's format and the BGRA bytes the
   * SDK's conversion produces (which are the raw bytes when the raw format is BGRA).
   */
  datatype ColorFrameData = ColorFrameData(width: nat, height: nat, rawFormat: ColorImageFormat,
                                           rawData: seq<byte>, bgraData: seq<byte>)
  type ColorFrame = f: ColorFrameData |
    |f.bgraData| == f.width * f.height * 4 && (f.rawFormat == Bgra ==> f.rawData == f.bgraData)
    witness ColorFrameData(0, 0, Bgra, [], [])

  /** A depth frame: one sample per pixel and the reliable range, whose maximum exceeds its minimum. */
  datatype DepthFrameData = DepthFrameData(width: nat, height: nat, data: seq<ushort>,
                                           minReliable: ushort, maxReliable: ushort)
  type DepthFrame = f: DepthFrameData |
    |f.data| == f.width * f.height && f.minReliable < f.maxReliable
    witness DepthFrameData(0, 0, [], 0, 1)

  datatype InfraredFrame = InfraredFrame(data: seq<ushort>)
  datatype LongExposureInfraredFrame = LongExposureInfraredFrame(data: seq<ushort>)

  /** The frames a multi-source frame references; each may be unavailable. */
  datatype MultiSourceFrame = MultiSourceFrame(
    body: Option<BodyFrame>,
    bodyIndex: Option<BodyIndexFrame>,
    color: Option<ColorFrame>,
    depth: Option<DepthFrame>,
    infrared: Option<InfraredFrame>,
    longExposure: Option<LongExposureInfraredFrame>)

  /** The reader handed to `Update`: a multi-source reader with its latest frame, or anything else. */
  datatype FrameReader = MultiSourceReader(latest: Option<MultiSourceFrame>) | OtherReader

  /** The dirty bit a decoder adds: its source's, when a frame arrived. */
  function Dirty<T>(frame: Option<T>, source: FrameSource): (r: set<FrameSource>)
    ensures source in r <==> frame.Some?
    ensures r <= {source}
  {
    if frame.Some? then {source} else {}
  }

  /** The selector's view of the body slots: tracked flag and SpineMid position. */
  function Candidates(bs: seq<SdkBody>): (c: seq<Candidate>)
    ensures |c| == |bs|
    ensures forall i :: 0 <= i < |bs| ==> c[i] == Candidate(bs[i].isTracked, Extensions.Position(bs[i]))
  {
    seq(|bs|, i requires 0 <= i < |bs| => Candidate(bs[i].isTracked, Extensions.Position(bs[i])))
  }

  /*
   * Which dirty sets redraw the depth image. As written, a Body bit with
   * IncludeJoints on is enough, even before any depth frame has allocated the
   * depth buffer that the redraw then reads. The model redraws only when that
   * buffer exists.
   */

  /** The redraw condition as the source writes it. */
  predicate RedrawsDepthAsWritten(modified: set<FrameSource>, mode: DepthImageMode) {
    DepthSource in modified || (mode.includeJoints && BodySource in modified)
  }

  /** The redraw condition with the missing depth-buffer check added. */
  predicate RedrawsDepth(modified: set<FrameSource>, mode: DepthImageMode, hasDepthData: bool) {
    hasDepthData && RedrawsDepthAsWritten(modified, mode)
  }

  /** The corrected condition never redraws without depth data, and agrees with the source once depth data exists. */
  lemma RedrawsDepthCorrected(modified: set<FrameSource>, mode: DepthImageMode, hasDepthData: bool)
    ensures RedrawsDepth(modified, mode, hasDepthData) ==> hasDepthData
    ensures hasDepthData ==> (RedrawsDepth(modified, mode, hasDepthData) <==> RedrawsDepthAsWritten(modified, mode))
    ensures DepthSource in modified ==> (RedrawsDepth(modified, mode, hasDepthData) <==> hasDepthData)
  {
  }

  /** Which slot is the active player, whether there is one, and whether there was one before. */
  datatype PlayerSelection = PlayerSelection(activeIndex: byte, hasActive: bool, hadPlayer: bool)

  /**
   * The selection after decoding a body frame (or none): the first slot with
   * the best score among the tracked ones, or nobody; `hadPlayer` records
   * whether a player was active before the frame.
   */
  function SelectionAfter(f: Option<BodyFrame>, before: PlayerSelection): (r: PlayerSelection)
    ensures f.None? ==> r == before
    ensures f.Some? ==> r.hadPlayer == before.hasActive
    ensures f.Some? ==> (r.hasActive <==> exists i :: 0 <= i < BODY_COUNT && f.value.bodies[i].isTracked)
    ensures f.Some? && r.hasActive ==> IsFirstBest(Candidates(f.value.bodies), r.activeIndex as int)
    ensures f.Some? && !r.hasActive ==> r.activeIndex == NO_ACTIVE_PLAYER
  {
    if f.None? then before
    else
      var c := Candidates(f.value.bodies);
      BestSpec(c);
      match Best(c)
      case None => PlayerSelection(NO_ACTIVE_PLAYER, false, before.hasActive)
      case Some(k) => PlayerSelection(k, true, before.hasActive)
  }

  class KinectState {
    var isAvailable: bool
    var wasAvailable: bool
    var activePlayerIndex: byte
    /** Whether the active-player wrapper currently refers to a body slot. */
    var hasActivePlayer: bool
    var hadPlayer: bool

    var depthImageMode: DepthImageMode
    var userColors: seq<ColorBGRA>

    var colorWidth: nat
    var colorHeight: nat
    var depthWidth: nat
    var depthHeight: nat
    var minDepth: ushort
    var depthRange: int

    var bodies: array?<SdkBody>
    var bodyIndexData: array?<byte>
    var colorData: array?<byte>
    var depthData: array?<ushort>
    var infraredData: array?<ushort>
    var infraredExposureData: array?<ushort>

    var modified: set<FrameSource>

    /** The depth visualisation buffer and the last contents uploaded to each texture. */
    var depthRender: array?<Shade>
    var colorImage: Option<seq<byte>>
    var depthImage: Option<seq<Shade>>

    ghost predicate Valid()
      reads this
    {
      BodiesValid() && DepthValid() && DirtyValid() && Distinct()
    }

    ghost predicate BodiesValid()
      reads this`bodies, this`activePlayerIndex, this`hasActivePlayer
    {
      && (bodies != null ==> bodies.Length == BODY_COUNT)
      && (activePlayerIndex == NO_ACTIVE_PLAYER || activePlayerIndex < BODY_COUNT)
      && (hasActivePlayer ==> bodies != null && activePlayerIndex < BODY_COUNT)
    }

    ghost predicate DepthValid()
      reads this`depthData, this`bodyIndexData, this`depthWidth, this`depthHeight, this`depthRange, this`minDepth, this`depthRender
    {
      && (depthData != null ==>
            && bodyIndexData != null && bodyIndexData.Length == depthData.Length
            && depthData.Length == depthWidth * depthHeight
            && 0 < depthRange && minDepth + depthRange < 0x1_0000)
      && (depthRender != null ==> depthData != null && depthRender.Length == depthData.Length)
    }

    ghost predicate DirtyValid()
      reads this`modified, this`colorData, this`depthData
    {
      && (ColorSource in modified ==> colorData != null)
      && (DepthSource in modified ==> depthData != null)
    }

    ghost predicate Distinct()
      reads this`bodyIndexData, this`colorData, this`depthData, this`infraredData, this`infraredExposureData
    {
      && (bodyIndexData == null || bodyIndexData != colorData)
      && (depthData == null || (depthData != infraredData && depthData != infraredExposureData))
      && (infraredData == null || infraredData != infraredExposureData)
    }

    constructor ()
      ensures Valid()
      ensures !isAvailable && !wasAvailable && !hadPlayer
      ensures activePlayerIndex == 0 && !hasActivePlayer
      ensures userColors == DEFAULT_USER_COLORS && depthImageMode == Normal
      ensures bodies == null && bodyIndexData == null && colorData == null
      ensures depthData == null && infraredData == null && infraredExposureData == null
      ensures modified == {} && depthRender == null && colorImage == None && depthImage == None
    {
      isAvailable, wasAvailable := false, false;
      activePlayerIndex, hasActivePlayer, hadPlayer := 0, false, false;
      depthImageMode, userColors := Normal, DEFAULT_USER_COLORS;
      colorWidth, colorHeight, depthWidth, depthHeight := 0, 0, 0, 0;
      minDepth, depthRange := 0, 0;
      bodies, bodyIndexData, colorData := null, null, null;
      depthData, infraredData, infraredExposureData := null, null, null;
      modified := {};
      depthRender, colorImage, depthImage := null, None, None;
    }

    /** The sensor's availability notification. */
    method AvailabilityChanged(available: bool)
      modifies this`isAvailable
      ensures isAvailable == available
    {
      isAvailable := available;
    }

    /** The depth sample at column `x`, row `y`. */
    function GetDepth(x: int, y: int): ushort
      reads this, depthData
      requires depthData != null && 0 <= y * depthWidth + x < depthData.Length
    {
      depthData[y * depthWidth + x]
    }

    /** The body index at column `x`, row `y`. */
    function GetPlayerIndex(x: int, y: int): byte
      reads this, bodyIndexData
      requires bodyIndexData != null && 0 <= y * depthWidth + x < bodyIndexData.Length
    {
      bodyIndexData[y * depthWidth + x]
    }

    /** `ActivePlayer`: the body in the active slot, read through the slot, or none. */
    function ActivePlayer(): Option<SdkBody>
      reads this, bodies
      requires BodiesValid()
    {
      if hasActivePlayer then Some(bodies[activePlayerIndex]) else None
    }

    /** After a depth frame, the sample at column `x`, row `y` is the frame's sample at that pixel. */
    lemma GetDepthReadsFrame(f: DepthFrame, x: int, y: int)
      requires DepthValid() && DepthHolds(Some(f)) && depthWidth == f.width
      requires 0 <= x < f.width && 0 <= y < f.height
      ensures 0 <= y * depthWidth + x < depthData.Length
      ensures GetDepth(x, y) == f.data[y * f.width + x]
    {
      CellFits(x, y, f.width, f.height);
    }

    /** After a body-index frame that fits the depth image, the index at column `x`, row `y` is the frame's. */
    lemma GetPlayerIndexReadsFrame(f: BodyIndexFrame, x: int, y: int)
      requires DepthValid() && depthData != null && BodyIndexHolds(Some(f))
      requires 0 <= x < depthWidth && 0 <= y < depthHeight
      ensures 0 <= y * depthWidth + x < bodyIndexData.Length
      ensures GetPlayerIndex(x, y) == f.data[y * depthWidth + x]
    {
      CellFits(x, y, depthWidth, depthHeight);
    }

    /**
     * After a body frame, the active player is absent exactly when no body is
     * tracked, and otherwise is the body in the slot the selector chooses.
     */
    lemma ActivePlayerAfterFrame(f: BodyFrame, before: PlayerSelection)
      requires BodiesValid() && BodiesDecoded(Some(f), before)
      ensures ActivePlayer().None? <==> forall i :: 0 <= i < BODY_COUNT ==> !f.bodies[i].isTracked
      ensures ActivePlayer().Some? ==>
        var k := Best(Candidates(f.bodies));
        k.Some? && ActivePlayer() == Some(f.bodies[k.value])
    {
      var c := Candidates(f.bodies);
      BestSpec(c);
      if hasActivePlayer {
        BestIsFirstBest(c, activePlayerIndex as int);
      }
    }

    /*
     * What each decoder leaves behind. A body frame refreshes the slots and the
     * selection (and `HadPlayer` records whether a player was active before);
     * no body frame leaves the selection alone. Every other frame ends up in its
     * buffer, and a depth frame also refreshes the reliable range.
     */

    /** The player-selection fields, as one value. */
    function Selection(): PlayerSelection
      reads this`activePlayerIndex, this`hasActivePlayer, this`hadPlayer
    {
      PlayerSelection(activePlayerIndex, hasActivePlayer, hadPlayer)
    }

    /** `before` is the selection the decoder started from. */
    predicate BodiesDecoded(f: Option<BodyFrame>, before: PlayerSelection)
      reads this`bodies, this`activePlayerIndex, this`hasActivePlayer, this`hadPlayer, bodies
    {
      && Selection() == SelectionAfter(f, before)
      && (f.Some? ==> bodies != null && bodies[..] == f.value.bodies)
    }

    predicate BodyIndexHolds(f: Option<BodyIndexFrame>)
      reads this`bodyIndexData, bodyIndexData
    {
      f.Some? ==> bodyIndexData != null && bodyIndexData[..] == f.value.data
    }

    predicate ColorHolds(f: Option<ColorFrame>)
      reads this`colorData, colorData
    {
      f.Some? ==> colorData != null && colorData[..] == f.value.bgraData
    }

    predicate DepthHolds(f: Option<DepthFrame>)
      reads this`depthData, this`minDepth, this`depthRange, depthData
    {
      f.Some? ==>
        && depthData != null && depthData[..] == f.value.data
        && minDepth == f.value.minReliable
        && depthRange == f.value.maxReliable - f.value.minReliable
    }

    predicate InfraredHolds(f: Option<InfraredFrame>)
      reads this`infraredData, infraredData
    {
      f.Some? ==> infraredData != null && infraredData[..] == f.value.data
    }

    predicate LongExposureHolds(f: Option<LongExposureInfraredFrame>)
      reads this`infraredExposureData, infraredExposureData
    {
      f.Some? ==> infraredExposureData != null && infraredExposureData[..] == f.value.data
    }

    /*
     * The decoders. Each one ignores a missing frame; otherwise it allocates its
     * buffer on the first frame (and never again), copies the frame into it and
     * marks its source dirty. Later frames of a source have the pixel count of
     * the first.
     */

    method UpdateBody(frame: Option<BodyFrame>) returns (ok: bool)
      requires Valid()
      modifies this`bodies, this`activePlayerIndex, this`hasActivePlayer, this`hadPlayer, this`modified, bodies
      ensures BodiesValid() && DirtyValid()
      ensures ok == frame.Some?
      ensures modified == old(modified) + Dirty(frame, BodySource)
      ensures BodiesDecoded(frame, old(Selection()))
      ensures bodies == old(bodies) || (old(bodies) == null && fresh(bodies))
      ensures frame.None? ==> bodies == old(bodies) && (bodies != null ==> unchanged(bodies))
    {
      if frame.None? {
        return false;
      }
      var bs := frame.value.bodies;
      if bodies == null {
        bodies := new SdkBody[BODY_COUNT](_ => UntrackedBody);
      }
      forall i | 0 <= i < BODY_COUNT {
        bodies[i] := bs[i];
      }
      var best := Best(Candidates(bs));
      hadPlayer := hasActivePlayer;
      if best.None? {
        hasActivePlayer := false;
        activePlayerIndex := NO_ACTIVE_PLAYER;
      } else {
        activePlayerIndex := best.value;
        hasActivePlayer := true;
      }
      modified := modified + {BodySource};
      ok := true;
    }

    predicate FitsBodyIndex(f: BodyIndexFrame)
      reads this`bodyIndexData
    {
      bodyIndexData != null ==> |f.data| == bodyIndexData.Length
    }

    method UpdateBodyIndex(frame: Option<BodyIndexFrame>) returns (ok: bool)
      requires Valid() && (frame.Some? ==> FitsBodyIndex(frame.value))
      modifies this`bodyIndexData, this`modified, bodyIndexData
      ensures DepthValid() && Distinct()
      ensures ok == frame.Some?
      ensures modified == old(modified) + Dirty(frame, BodyIndexSource)
      ensures BodyIndexHolds(frame)
      ensures bodyIndexData == old(bodyIndexData) || (old(bodyIndexData) == null && fresh(bodyIndexData))
      ensures frame.None? ==> bodyIndexData == old(bodyIndexData) && (bodyIndexData != null ==> unchanged(bodyIndexData))
    {
      if frame.None? {
        return false;
      }
      var data := frame.value.data;
      if bodyIndexData == null {
        bodyIndexData := new byte[|data|];
      }
      forall i | 0 <= i < bodyIndexData.Length {
        bodyIndexData[i] := data[i];
      }
      modified := modified + {BodyIndexSource};
      ok := true;
    }

    predicate FitsColor(f: ColorFrame)
      reads this`colorData
    {
      colorData != null ==> |f.bgraData| == colorData.Length
    }

    method UpdateColor(frame: Option<ColorFrame>) returns (ok: bool)
      requires Valid() && (frame.Some? ==> FitsColor(frame.value))
      modifies this`colorData, this`colorWidth, this`colorHeight, this`modified, colorData
      ensures DirtyValid() && Distinct()
      ensures ok == frame.Some?
      ensures modified == old(modified) + Dirty(frame, ColorSource)
      ensures ColorHolds(frame)
      ensures colorData == old(colorData) || (old(colorData) == null && fresh(colorData))
      ensures old(colorData) == null && frame.Some? ==>
        colorWidth == frame.value.width && colorHeight == frame.value.height
      ensures old(colorData) != null || frame.None? ==>
        colorWidth == old(colorWidth) && colorHeight == old(colorHeight)
      ensures frame.None? ==> colorData == old(colorData) && (colorData != null ==> unchanged(colorData))
    {
      if frame.None? {
        return false;
      }
      var f := frame.value;
      if colorData == null {
        colorData := new byte[|f.bgraData|];
        colorWidth, colorHeight := f.width, f.height;
      }
      if f.rawFormat == Bgra {
        forall i | 0 <= i < colorData.Length {
          colorData[i] := f.rawData[i];
        }
      } else {
        forall i | 0 <= i < colorData.Length {
          colorData[i] := f.bgraData[i];
        }
      }
      modified := modified + {ColorSource};
      ok := true;
    }

    predicate FitsDepth(f: DepthFrame)
      reads this`depthData, this`bodyIndexData
    {
      && (depthData != null ==> |f.data| == depthData.Length)
      && (bodyIndexData != null ==> |f.data| == bodyIndexData.Length)
    }

    method UpdateDepth(frame: Option<DepthFrame>) returns (ok: bool)
      requires Valid() && (frame.Some? ==> FitsDepth(frame.value))
      modifies this`depthData, this`depthWidth, this`depthHeight, this`bodyIndexData
      modifies this`minDepth, this`depthRange, this`modified, depthData
      ensures DepthValid() && DirtyValid() && Distinct()
      ensures ok == frame.Some?
      ensures modified == old(modified) + Dirty(frame, DepthSource)
      ensures DepthHolds(frame)
      ensures depthData == old(depthData) || (old(depthData) == null && fresh(depthData))
      ensures old(depthData) == null && frame.Some? ==>
        depthWidth == frame.value.width && depthHeight == frame.value.height
      ensures old(depthData) != null || frame.None? ==>
        depthWidth == old(depthWidth) && depthHeight == old(depthHeight)
      ensures old(bodyIndexData) == null && frame.Some? ==>
        && bodyIndexData != null && fresh(bodyIndexData)
        && forall i :: 0 <= i < bodyIndexData.Length ==> bodyIndexData[i] == NO_ACTIVE_PLAYER
      ensures old(bodyIndexData) != null || frame.None? ==> bodyIndexData == old(bodyIndexData)
      ensures old(bodyIndexData) != null ==> unchanged(old(bodyIndexData))
      ensures frame.None? ==>
        && depthData == old(depthData) && (depthData != null ==> unchanged(depthData))
        && minDepth == old(minDepth) && depthRange == old(depthRange)
    {
      if frame.None? {
        return false;
      }
      var f := frame.value;
      if depthData == null {
        depthData := new ushort[|f.data|];
        depthWidth, depthHeight := f.width, f.height;
        if bodyIndexData == null {
          bodyIndexData := NoPlayerBuffer(depthData.Length);
        }
      }
      forall i | 0 <= i < depthData.Length {
        depthData[i] := f.data[i];
      }
      minDepth := f.minReliable;
      depthRange := f.maxReliable - minDepth;
      modified := modified + {DepthSource};
      ok := true;
    }

    predicate FitsInfrared(f: InfraredFrame)
      reads this`infraredData
    {
      infraredData != null ==> |f.data| == infraredData.Length
    }

    method UpdateInfrared(frame: Option<InfraredFrame>) returns (ok: bool)
      requires Valid() && (frame.Some? ==> FitsInfrared(frame.value))
      modifies this`infraredData, this`modified, infraredData
      ensures Distinct()
      ensures ok == frame.Some?
      ensures modified == old(modified) + Dirty(frame, InfraredSource)
      ensures InfraredHolds(frame)
      ensures infraredData == old(infraredData) || (old(infraredData) == null && fresh(infraredData))
      ensures frame.None? ==> infraredData == old(infraredData) && (infraredData != null ==> unchanged(infraredData))
    {
      if frame.None? {
        return false;
      }
      var data := frame.value.data;
      if infraredData == null {
        infraredData := new ushort[|data|];
      }
      forall i | 0 <= i < infraredData.Length {
        infraredData[i] := data[i];
      }
      modified := modified + {InfraredSource};
      ok := true;
    }

    predicate FitsLongExposure(f: LongExposureInfraredFrame)
      reads this`infraredExposureData
    {
      infraredExposureData != null ==> |f.data| == infraredExposureData.Length
    }

    method UpdateLongExposure(frame: Option<LongExposureInfraredFrame>) returns (ok: bool)
      requires Valid() && (frame.Some? ==> FitsLongExposure(frame.value))
      modifies this`infraredExposureData, this`modified, infraredExposureData
      ensures Distinct()
      ensures ok == frame.Some?
      ensures modified == old(modified) + Dirty(frame, LongExposureInfraredSource)
      ensures LongExposureHolds(frame)
      ensures infraredExposureData == old(infraredExposureData)
              || (old(infraredExposureData) == null && fresh(infraredExposureData))
      ensures frame.None? ==>
        infraredExposureData == old(infraredExposureData)
        && (infraredExposureData != null ==> unchanged(infraredExposureData))
    {
      if frame.None? {
        return false;
      }
      var data := frame.value.data;
      if infraredExposureData == null {
        infraredExposureData := new ushort[|data|];
      }
      forall i | 0 <= i < infraredExposureData.Length {
        infraredExposureData[i] := data[i];
      }
      modified := modified + {LongExposureInfraredSource};
      ok := true;
    }

    /** Every frame of `m` fits the buffers, and its body-index and depth frames agree in size. */
    predicate Accepts(m: MultiSourceFrame)
      reads this
    {
      && (m.bodyIndex.Some? ==> FitsBodyIndex(m.bodyIndex.value))
      && (m.color.Some? ==> FitsColor(m.color.value))
      && (m.depth.Some? ==> FitsDepth(m.depth.value))
      && (m.infrared.Some? ==> FitsInfrared(m.infrared.value))
      && (m.longExposure.Some? ==> FitsLongExposure(m.longExposure.value))
      && (m.bodyIndex.Some? && m.depth.Some? ==> |m.bodyIndex.value.data| == |m.depth.value.data|)
    }

    /**
     * What decoding `m` leaves behind: each arrived frame decoded and its bit
     * added, and every source without a frame kept.
     */
    twostate predicate Decoded(m: MultiSourceFrame)
      reads this, bodies, bodyIndexData, colorData, depthData, infraredData, infraredExposureData
    {
      FramesDecoded(m) && AbsentKept(m)
    }

    /** Each arrived frame of `m` is decoded into its buffer and its bit is added to `modified`. */
    twostate predicate FramesDecoded(m: MultiSourceFrame)
      reads this, bodies, bodyIndexData, colorData, depthData, infraredData, infraredExposureData
    {
      && modified == old(modified) + Dirty(m.body, BodySource) + Dirty(m.bodyIndex, BodyIndexSource)
                    + Dirty(m.color, ColorSource) + Dirty(m.depth, DepthSource)
                    + Dirty(m.infrared, InfraredSource) + Dirty(m.longExposure, LongExposureInfraredSource)
      && BodiesDecoded(m.body, old(Selection()))
      && BodyIndexHolds(m.bodyIndex) && ColorHolds(m.color) && DepthHolds(m.depth)
      && InfraredHolds(m.infrared) && LongExposureHolds(m.longExposure)
    }

    /**
     * Every source without a frame in `m` keeps its buffer, except that a first
     * depth frame without a body-index buffer brings one filled with "no player".
     */
    twostate predicate AbsentKept(m: MultiSourceFrame)
      reads this, bodies, bodyIndexData, colorData, depthData, infraredData, infraredExposureData
    {
      && (m.body.None? ==> BodiesKept())
      && (m.bodyIndex.None? && (m.depth.None? || old(bodyIndexData) != null) ==> BodyIndexKept())
      && (m.bodyIndex.None? && m.depth.Some? && old(bodyIndexData) == null ==> NoPlayerAllocated())
      && (m.color.None? ==> ColorKept()) && (m.depth.None? ==> DepthKept())
      && (m.infrared.None? ==> InfraredKept()) && (m.longExposure.None? ==> LongExposureKept())
    }

    /** Nothing is decoded: no bit is added, the selection stays and every source keeps its buffer. */
    twostate predicate NothingDecoded()
      reads this, bodies, bodyIndexData, colorData, depthData, infraredData, infraredExposureData
    {
      && modified == old(modified)
      && Selection() == old(Selection())
      && BodiesKept() && BodyIndexKept() && ColorKept() && DepthKept()
      && InfraredKept() && LongExposureKept()
    }

    /*
     * A source without a frame keeps its buffer: the same array with the same
     * contents, and for colour and depth the same size and reliable range.
     */

    twostate predicate BodiesKept()
      reads this`bodies, bodies
    {
      bodies == old(bodies) && (bodies != null ==> unchanged(bodies))
    }

    twostate predicate BodyIndexKept()
      reads this`bodyIndexData, bodyIndexData
    {
      bodyIndexData == old(bodyIndexData) && (bodyIndexData != null ==> unchanged(bodyIndexData))
    }

    twostate predicate ColorKept()
      reads this`colorData, this`colorWidth, this`colorHeight, colorData
    {
      && colorData == old(colorData) && (colorData != null ==> unchanged(colorData))
      && colorWidth == old(colorWidth) && colorHeight == old(colorHeight)
    }

    twostate predicate DepthKept()
      reads this`depthData, this`depthWidth, this`depthHeight, this`minDepth, this`depthRange, depthData
    {
      && depthData == old(depthData) && (depthData != null ==> unchanged(depthData))
      && depthWidth == old(depthWidth) && depthHeight == old(depthHeight)
      && minDepth == old(minDepth) && depthRange == old(depthRange)
    }

    twostate predicate InfraredKept()
      reads this`infraredData, infraredData
    {
      infraredData == old(infraredData) && (infraredData != null ==> unchanged(infraredData))
    }

    twostate predicate LongExposureKept()
      reads this`infraredExposureData, infraredExposureData
    {
      infraredExposureData == old(infraredExposureData)
      && (infraredExposureData != null ==> unchanged(infraredExposureData))
    }

    /** The body-index buffer allocated by the first depth frame when no body-index frame came before it. */
    twostate predicate NoPlayerAllocated()
      reads this`bodyIndexData, bodyIndexData
    {
      && bodyIndexData != null && fresh(bodyIndexData)
      && forall i :: 0 <= i < bodyIndexData.Length ==> bodyIndexData[i] == NO_ACTIVE_PLAYER
    }

    /*
     * `Update(object)` decodes the six frames of a multi-source frame in a fixed
     * order, here grouped in three stages of two: bodies, images, infrared.
     */

    method DecodeBodies(m: MultiSourceFrame)
      requires Valid() && Accepts(m)
      modifies this`bodies, this`activePlayerIndex, this`hasActivePlayer, this`hadPlayer, this`modified
      modifies this`bodyIndexData, bodies, bodyIndexData
      ensures Valid() && Accepts(m)
      ensures modified == old(modified) + Dirty(m.body, BodySource) + Dirty(m.bodyIndex, BodyIndexSource)
      ensures BodiesDecoded(m.body, old(Selection())) && BodyIndexHolds(m.bodyIndex)
      ensures bodies == old(bodies) || (old(bodies) == null && fresh(bodies))
      ensures bodyIndexData == old(bodyIndexData) || (old(bodyIndexData) == null && fresh(bodyIndexData))
      ensures m.body.None? ==> BodiesKept()
      ensures m.bodyIndex.None? ==> BodyIndexKept()
      ensures ColorKept() && DepthKept() && InfraredKept() && LongExposureKept()
    {
      var _ := UpdateBody(m.body);
      var _ := UpdateBodyIndex(m.bodyIndex);
    }

    method DecodeImages(m: MultiSourceFrame)
      requires Valid() && Accepts(m)
      modifies this`colorData, this`colorWidth, this`colorHeight, this`modified
      modifies this`depthData, this`depthWidth, this`depthHeight, this`bodyIndexData, this`minDepth, this`depthRange
      modifies colorData, depthData
      ensures Valid() && Accepts(m)
      ensures modified == old(modified) + Dirty(m.color, ColorSource) + Dirty(m.depth, DepthSource)
      ensures ColorHolds(m.color) && DepthHolds(m.depth)
      ensures colorData == old(colorData) || (old(colorData) == null && fresh(colorData))
      ensures depthData == old(depthData) || (old(depthData) == null && fresh(depthData))
      ensures bodyIndexData == old(bodyIndexData) || (old(bodyIndexData) == null && fresh(bodyIndexData))
      ensures old(bodyIndexData) != null ==> unchanged(old(bodyIndexData))
      ensures m.depth.None? || old(bodyIndexData) != null ==> BodyIndexKept()
      ensures m.depth.Some? && old(bodyIndexData) == null ==> NoPlayerAllocated()
      ensures m.color.None? ==> ColorKept()
      ensures m.depth.None? ==> DepthKept()
    {
      var _ := UpdateColor(m.color);
      var _ := UpdateDepth(m.depth);
    }

    method DecodeInfrared(m: MultiSourceFrame)
      requires Valid() && Accepts(m)
      modifies this`infraredData, this`infraredExposureData, this`modified, infraredData, infraredExposureData
      ensures Valid()
      ensures modified == old(modified) + Dirty(m.infrared, InfraredSource)
                          + Dirty(m.longExposure, LongExposureInfraredSource)
      ensures InfraredHolds(m.infrared) && LongExposureHolds(m.longExposure)
      ensures infraredData == old(infraredData) || (old(infraredData) == null && fresh(infraredData))
      ensures infraredExposureData == old(infraredExposureData)
              || (old(infraredExposureData) == null && fresh(infraredExposureData))
      ensures m.infrared.None? ==> InfraredKept()
      ensures m.longExposure.None? ==> LongExposureKept()
    {
      var _ := UpdateInfrared(m.infrared);
      var _ := UpdateLongExposure(m.longExposure);
    }

    /** The image stages together: colour and depth, then the two infrared streams. */
    method DecodeImageStreams(m: MultiSourceFrame)
      requires Valid() && Accepts(m)
      modifies this`colorData, this`colorWidth, this`colorHeight, this`modified
      modifies this`depthData, this`depthWidth, this`depthHeight, this`bodyIndexData, this`minDepth, this`depthRange
      modifies this`infraredData, this`infraredExposureData
      modifies colorData, depthData, infraredData, infraredExposureData
      ensures Valid()
      ensures modified == old(modified) + Dirty(m.color, ColorSource) + Dirty(m.depth, DepthSource)
                          + Dirty(m.infrared, InfraredSource) + Dirty(m.longExposure, LongExposureInfraredSource)
      ensures ColorHolds(m.color) && DepthHolds(m.depth)
      ensures InfraredHolds(m.infrared) && LongExposureHolds(m.longExposure)
      ensures colorData == old(colorData) || (old(colorData) == null && fresh(colorData))
      ensures depthData == old(depthData) || (old(depthData) == null && fresh(depthData))
      ensures bodyIndexData == old(bodyIndexData) || (old(bodyIndexData) == null && fresh(bodyIndexData))
      ensures old(bodyIndexData) != null ==> unchanged(old(bodyIndexData))
      ensures infraredData == old(infraredData) || (old(infraredData) == null && fresh(infraredData))
      ensures infraredExposureData == old(infraredExposureData)
              || (old(infraredExposureData) == null && fresh(infraredExposureData))
      ensures BodiesKept() && Selection() == old(Selection())
      ensures m.depth.None? || old(bodyIndexData) != null ==> BodyIndexKept()
      ensures m.depth.Some? && old(bodyIndexData) == null ==> NoPlayerAllocated()
      ensures m.color.None? ==> ColorKept()
      ensures m.depth.None? ==> DepthKept()
      ensures m.infrared.None? ==> InfraredKept()
      ensures m.longExposure.None? ==> LongExposureKept()
    {
      DecodeImages(m);
      DecodeInfrared(m);
    }

    /** Decodes every frame of a multi-source frame, body first and depth after body index. */
    method UpdateMulti(frame: Option<MultiSourceFrame>) returns (ok: bool)
      requires Valid() && (frame.Some? ==> Accepts(frame.value))
      modifies this`bodies, this`activePlayerIndex, this`hasActivePlayer, this`hadPlayer, this`modified
      modifies this`bodyIndexData, this`colorData, this`colorWidth, this`colorHeight
      modifies this`depthData, this`depthWidth, this`depthHeight, this`minDepth, this`depthRange
      modifies this`infraredData, this`infraredExposureData
      modifies bodies, bodyIndexData, colorData, depthData, infraredData, infraredExposureData
      ensures Valid()
      ensures ok == frame.Some?
      ensures isAvailable == old(isAvailable) && wasAvailable == old(wasAvailable)
      ensures frame.None? ==> NothingDecoded()
      ensures frame.Some? ==> Decoded(frame.value)
    {
      if frame.None? {
        return false;
      }
      DecodeAll(frame.value);
      ok := true;
    }

    /** Each source of `m` in turn: body, body index, colour, depth, infrared, long exposure. */
    method DecodeAll(m: MultiSourceFrame)
      requires Valid() && Accepts(m)
      modifies this`bodies, this`activePlayerIndex, this`hasActivePlayer, this`hadPlayer, this`modified
      modifies this`bodyIndexData, this`colorData, this`colorWidth, this`colorHeight
      modifies this`depthData, this`depthWidth, this`depthHeight, this`minDepth, this`depthRange
      modifies this`infraredData, this`infraredExposureData
      modifies bodies, bodyIndexData, colorData, depthData, infraredData, infraredExposureData
      ensures Valid() && Decoded(m)
    {
      DecodeBodies(m);
      DecodeImageStreams(m);
    }

    /**
     * `Update(object)`: reports an availability change since the last call (and
     * records it), then decodes the reader's latest multi-source frame if any.
     */
    method Update(reader: FrameReader) returns (updated: bool)
      requires Valid()
      requires reader.MultiSourceReader? && reader.latest.Some? ==> Accepts(reader.latest.value)
      modifies this`wasAvailable
      modifies this`bodies, this`activePlayerIndex, this`hasActivePlayer, this`hadPlayer, this`modified
      modifies this`bodyIndexData, this`colorData, this`colorWidth, this`colorHeight
      modifies this`depthData, this`depthWidth, this`depthHeight, this`minDepth, this`depthRange
      modifies this`infraredData, this`infraredExposureData
      modifies bodies, bodyIndexData, colorData, depthData, infraredData, infraredExposureData
      ensures Valid()
      ensures wasAvailable == isAvailable
      ensures updated <==> old(isAvailable) != old(wasAvailable) || (reader.MultiSourceReader? && reader.latest.Some?)
      ensures reader.MultiSourceReader? && reader.latest.Some? ==> FramesDecoded(reader.latest.value)
      ensures reader.MultiSourceReader? && reader.latest.Some? ==> AbsentKept(reader.latest.value)
      ensures !(reader.MultiSourceReader? && reader.latest.Some?) ==> NothingDecoded()
    {
      updated := RecordAvailability();
      if reader.MultiSourceReader? {
        var decoded := UpdateMulti(reader.latest);
        updated := updated || decoded;
      }
    }

    /** The availability edge: reports a change since the last call and records it. */
    method RecordAvailability() returns (changed: bool)
      modifies this`wasAvailable
      ensures changed <==> old(isAvailable) != old(wasAvailable)
      ensures wasAvailable == isAvailable
    {
      changed := false;
      if isAvailable != wasAvailable {
        wasAvailable := isAvailable;
        changed := true;
      }
    }

    /** With nothing new, a second `Update` reports nothing: the availability edge fires once. */
    method UpdateTwiceWithoutFrames() returns (first: bool, second: bool)
      requires Valid()
      modifies this`wasAvailable
      modifies this`bodies, this`activePlayerIndex, this`hasActivePlayer, this`hadPlayer, this`modified
      modifies this`bodyIndexData, this`colorData, this`colorWidth, this`colorHeight
      modifies this`depthData, this`depthWidth, this`depthHeight, this`minDepth, this`depthRange
      modifies this`infraredData, this`infraredExposureData
      modifies bodies, bodyIndexData, colorData, depthData, infraredData, infraredExposureData
      ensures first <==> old(isAvailable) != old(wasAvailable)
      ensures !second
    {
      first := Update(OtherReader);
      second := Update(MultiSourceReader(None));
    }

    /*
     * The depth-pixel enumeration: rows of `depthWidth` pixels, row-major.
     */

    method DepthData() returns (pixels: seq<DepthDataPixel>)
      requires Valid()
      ensures depthData == null ==> pixels == []
      ensures depthData != null ==> |pixels| == depthData.Length
      ensures depthData != null ==> forall k :: 0 <= k < |pixels| ==>
        && pixels[k].index == k
        && 0 <= pixels[k].x < depthWidth && 0 <= pixels[k].y
        && pixels[k].y * depthWidth + pixels[k].x == k
        && pixels[k].depth == GetDepth(pixels[k].x, pixels[k].y)
        && pixels[k].playerIndex == GetPlayerIndex(pixels[k].x, pixels[k].y)
        && pixels[k].minDepth == minDepth && pixels[k].maxDepth == minDepth + depthRange
        && (pixels[k].IsValidDepth() <==> minDepth <= depthData[k] <= minDepth + depthRange)
        && (pixels[k].HasPlayer() <==> bodyIndexData[k] != NO_ACTIVE_PLAYER)
    {
      pixels := [];
      if depthData == null {
        return;
      }
      var n, w := depthData.Length, depthWidth;
      var maxDepth: ushort := (minDepth + depthRange) % 0x1_0000;
      var index, y := 0, 0;
      while index < n
        invariant 0 <= y && index == y * w && index <= n
        invariant |pixels| == index
        invariant forall k :: 0 <= k < index ==>
          && pixels[k].index == k
          && 0 <= pixels[k].x < w && 0 <= pixels[k].y && pixels[k].y * w + pixels[k].x == k
          && pixels[k].depth == depthData[k] && pixels[k].playerIndex == bodyIndexData[k]
          && pixels[k].minDepth == minDepth && pixels[k].maxDepth == minDepth + depthRange
        decreases n - index
      {
        RowFits(y, w, depthHeight);
        var x := 0;
        while x < w
          invariant 0 <= x <= w
          invariant index == y * w + x && index <= (y + 1) * w
          invariant |pixels| == index
          invariant forall k :: 0 <= k < index ==>
            && pixels[k].index == k
            && 0 <= pixels[k].x < w && 0 <= pixels[k].y && pixels[k].y * w + pixels[k].x == k
            && pixels[k].depth == depthData[k] && pixels[k].playerIndex == bodyIndexData[k]
            && pixels[k].minDepth == minDepth && pixels[k].maxDepth == minDepth + depthRange
        {
          pixels := pixels + [DepthDataPixel(index, x, y, depthData[index], bodyIndexData[index], minDepth, maxDepth)];
          x, index := x + 1, index + 1;
        }
        y := y + 1;
      }
    }

    /*
     * Rendering.
     */

    /** Every body index has a palette colour after the active-player remap. */
    ghost predicate PaletteCovers()
      reads this`bodyIndexData, this`activePlayerIndex, this`userColors, bodyIndexData
    {
      bodyIndexData != null ==>
        forall i :: 0 <= i < bodyIndexData.Length ==>
          ModernPaletteCovers(bodyIndexData[i], activePlayerIndex, userColors)
    }

    /** The body-index buffer holds only slot numbers and "nobody", as the sensor writes it. */
    ghost predicate BodyIndicesInRange()
      reads this, bodyIndexData
    {
      bodyIndexData != null ==>
        forall i :: 0 <= i < bodyIndexData.Length ==>
          bodyIndexData[i] < BODY_COUNT || bodyIndexData[i] == NO_ACTIVE_PLAYER
    }

    /** The shade pixel `i` of the depth visualisation must have. */
    ghost function PixelShade(i: int): Shade
      reads this`depthData, this`bodyIndexData, this`depthWidth, this`depthHeight, this`depthRange
      reads this`minDepth, this`depthRender, this`depthImageMode, this`activePlayerIndex, this`userColors
      reads depthData, bodyIndexData
      requires DepthValid() && depthData != null && 0 <= i < depthData.Length
      requires depthImageMode.userColor ==> PaletteCovers()
    {
      ModernShade(depthData[i], bodyIndexData[i], minDepth, depthRange, depthImageMode,
                  depthImageMode.userColor, activePlayerIndex, userColors)
    }

    /**
     * Uploads the colour buffer if it changed, redraws the depth visualisation if
     * the depth (or, with IncludeJoints, the body) changed, and returns and
     * clears the dirty set.
     */
    method Render() returns (rendered: set<FrameSource>)
      requires Valid()
      requires depthImageMode.userColor && RedrawsDepth(modified, depthImageMode, depthData != null) ==> PaletteCovers()
      modifies this`modified, this`colorImage, this`depthImage, this`depthRender, depthRender
      ensures Valid()
      ensures rendered == old(modified) && modified == {}
      ensures depthRender == old(depthRender) || (old(depthRender) == null && fresh(depthRender))
      ensures ColorSource in rendered ==> colorData != null && colorImage == Some(colorData[..])
      ensures ColorSource !in rendered ==> colorImage == old(colorImage)
      ensures RedrawsDepth(rendered, depthImageMode, depthData != null) ==>
        && depthData != null && depthRender != null
        && depthImage == Some(depthRender[..])
        && forall i :: 0 <= i < depthRender.Length ==> depthRender[i] == PixelShade(i)
      ensures !RedrawsDepth(rendered, depthImageMode, depthData != null) ==>
        depthImage == old(depthImage) && depthRender == old(depthRender)
        && (depthRender != null ==> unchanged(depthRender))
    {
      rendered := modified;
      if ColorSource in rendered {
        colorImage := Some(colorData[..]);
      }
      if RedrawsDepth(rendered, depthImageMode, depthData != null) {
        RedrawDepth();
      }
      modified := {};
    }

    /** The depth visualisation pass: intensity per sample, then the player tint. */
    method RedrawDepth()
      requires DepthValid() && depthData != null
      requires depthImageMode.userColor ==> PaletteCovers()
      modifies this`depthImage, this`depthRender, depthRender
      ensures DepthValid() && depthRender != null
      ensures depthRender == old(depthRender) || (old(depthRender) == null && fresh(depthRender))
      ensures depthImage == Some(depthRender[..])
      ensures forall i :: 0 <= i < depthRender.Length ==> depthRender[i] == PixelShade(i)
    {
      if depthRender == null {
        depthRender := new Shade[depthData.Length](_ => Gray(0));
      }
      ShadeByDepth(depthRender, depthData, minDepth, depthRange, depthImageMode.wrapped);
      if depthImageMode.userColor && bodyIndexData != null {
        TintPlayers(depthRender, bodyIndexData, activePlayerIndex, userColors);
      }
      depthImage := Some(depthRender[..]);
    }
  }

  /** A new body-index buffer of `n` entries, all "nobody". */
  method NoPlayerBuffer(n: nat) returns (a: array<byte>)
    ensures fresh(a) && a.Length == n
    ensures forall k :: 0 <= k < n ==> a[k] == NO_ACTIVE_PLAYER
  {
    a := new byte[n];
    for i := 0 to n
      invariant forall k :: 0 <= k < i ==> a[k] == NO_ACTIVE_PLAYER
    {
      a[i] := NO_ACTIVE_PLAYER;
    }
  }

  /** The intensity pass of the depth redraw: one grey level per depth sample. */
  method ShadeByDepth(render: array<Shade>, depth: array<ushort>, minDepth: ushort, depthRange: int, wrapped: bool)
    requires render.Length == depth.Length && 0 < depthRange
    modifies render
    ensures forall k :: 0 <= k < render.Length ==>
      render[k] == Gray(Intensity(depth[k], minDepth, depthRange, wrapped))
  {
    for i := 0 to render.Length
      invariant forall k :: 0 <= k < i ==> render[k] == Gray(Intensity(depth[k], minDepth, depthRange, wrapped))
    {
      var intensity: byte := 0;
      if minDepth <= depth[i] {
        var distance := if depth[i] - minDepth < depthRange then depth[i] - minDepth else depthRange;
        if wrapped {
          intensity := distance % 255;
        } else {
          LinearLevelBounds(distance, depthRange);
          intensity := 255 * distance / depthRange;
        }
      }
      render[i] := Gray(intensity);
    }
  }

  /** The player pass: each pixel's shade tinted with its remapped player's colour. */
  method TintPlayers(render: array<Shade>, bodyIndexData: array<byte>, active: byte, colors: seq<ColorBGRA>)
    requires render.Length == bodyIndexData.Length
    requires forall k :: 0 <= k < bodyIndexData.Length ==> ModernPaletteCovers(bodyIndexData[k], active, colors)
    modifies render
    ensures forall k :: 0 <= k < render.Length ==>
      render[k] == PlayerTint(old(render[k]), bodyIndexData[k], active, colors)
  {
    for i := 0 to render.Length
      invariant forall k :: 0 <= k < i ==> render[k] == PlayerTint(old(render[k]), bodyIndexData[k], active, colors)
      invariant forall k :: i <= k < render.Length ==> render[k] == old(render[k])
    {
      var bodyIndex := bodyIndexData[i];
      if active != NO_ACTIVE_PLAYER {
        if bodyIndex == active {
          bodyIndex := 0;
        } else if bodyIndex < active {
          bodyIndex := bodyIndex + 1;
        }
      }
      if bodyIndex != NO_ACTIVE_PLAYER {
        render[i] := Tinted(render[i], colors[bodyIndex]);
      }
    }
  }

  /** The row that starts at `y * w` lies wholly inside a buffer of `w * h` pixels. */
  lemma RowFits(y: int, w: int, h: int)
    requires 0 <= y && 0 <= w && 0 <= h && y * w < w * h
    ensures 0 < w && (y + 1) * w <= w * h
  {
    if y >= h {
      MulMono(h, y, w);
    }
    MulMono(y + 1, h, w);
  }

  /** Column `x` of row `y` lies inside a buffer of `w * h` pixels. */
  lemma CellFits(x: int, y: int, w: int, h: int)
    requires 0 <= x < w && 0 <= y < h
    ensures 0 <= y * w + x < w * h
  {
    MulMono(0, y, w);
    MulMono(y + 1, h, w);
  }

  /**
   * The enumeration's pixel tests agree with the depth image: a valid depth is
   * shaded on the linear scale, a depth below the range is black and one above
   * it white; a pixel with a player is tinted and one without is left alone.
   */
  lemma PixelTestsMatchShading(p: DepthDataPixel, depthRange: int, level: byte, active: byte, colors: seq<ColorBGRA>)
    requires 0 < depthRange && p.maxDepth as int == p.minDepth as int + depthRange
    requires ModernPaletteCovers(p.playerIndex, active, colors)
    ensures p.IsValidDepth() ==>
      Intensity(p.depth as int, p.minDepth as int, depthRange, false) == LinearLevel(p.depth as int - p.minDepth as int, depthRange)
    ensures p.depth < p.minDepth ==> Intensity(p.depth as int, p.minDepth as int, depthRange, false) == 0
    ensures p.depth > p.maxDepth ==> Intensity(p.depth as int, p.minDepth as int, depthRange, false) == 255
    ensures p.HasPlayer() <==> PlayerTint(Gray(level), p.playerIndex, active, colors).Tinted?
  {
    if p.HasPlayer() {
      assert RemapBodyIndex(p.playerIndex, active) != NO_ACTIVE_PLAYER;
    }
  }

  /** With six colours, the default palette covers every body index the sensor writes. */
  lemma SixColoursCover(s: KinectState)
    requires s.Valid() && |s.userColors| >= BODY_COUNT && s.BodyIndicesInRange()
    ensures s.PaletteCovers()
  {
    if s.bodyIndexData != null {
      forall i | 0 <= i < s.bodyIndexData.Length
        ensures ModernPaletteCovers(s.bodyIndexData[i], s.activePlayerIndex, s.userColors)
      {
        RemapStaysInPalette(s.bodyIndexData[i], s.activePlayerIndex, BODY_COUNT);
      }
    }
  }

  /**
   * The reachable state the source's redraw condition mishandles: with
   * IncludeJoints on, a body frame before any depth frame sets the Body bit,
   * the source's condition then asks for a redraw, and the depth buffer it
   * would size the render buffer from does not exist.
   */
  method BodyFrameBeforeDepth(f: BodyFrame) returns (s: KinectState)
    ensures s.Valid() && s.depthData == null
    ensures RedrawsDepthAsWritten(s.modified, s.depthImageMode)
    ensures !RedrawsDepth(s.modified, s.depthImageMode, s.depthData != null)
  {
    s := new KinectState();
    s.depthImageMode := DepthImageMode(false, false, true);
    var _ := s.UpdateBody(Some(f));
  }
}
