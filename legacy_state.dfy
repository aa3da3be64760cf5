// The legacy frame-state engine: the same interface as the modern engine, fed
// by a first-generation sensor. Colour, depth and skeleton frames are decoded
// into buffers allocated on the first frame; each source raises a sticky
// "updated" flag, and `Update` reports a new frame only once all three have
// delivered since the last report. Depth words carry the player number in
// their low three bits.

module LegacyState {
  import opened KinectTypes
  import opened LegacyTypes
  import opened DepthVisual
  import opened Selection
  import opened Conversion
  import LegacyBody
  import ModernState
  import LegacyMapping

  /** The legacy SDK reports six skeleton slots in every skeleton frame. */
  const SKELETON_COUNT := 6

  /*
   * Frames as `OpenNextFrame(0)` hands them over: `None` when no frame is
   * ready. The subset types state what the SDK guarantees about each frame.
   */

  datatype ColorImageFrame = ColorImageFrame(width: nat, height: nat, pixels: seq<byte>)

  datatype DepthImageFrameData = DepthImageFrameData(
    width: nat, height: nat, pixels: seq<short>, minDepth: int, maxDepth: int)

  type DepthImageFrame = f: DepthImageFrameData
    | |f.pixels| == f.width * f.height && 0 <= f.minDepth < f.maxDepth <= 0xFFFF
    witness DepthImageFrameData(0, 0, [], 0, 1)

  const UntrackedSkeleton := Skeleton(SkeletonNotTracked, 0, SkeletonPoint(0.0, 0.0, 0.0), 0, [])

  datatype SkeletonFrameData = SkeletonFrameData(skeletons: seq<Skeleton>)

  type SkeletonFrame = f: SkeletonFrameData | |f.skeletons| == SKELETON_COUNT
    witness SkeletonFrameData([UntrackedSkeleton, UntrackedSkeleton, UntrackedSkeleton,
                               UntrackedSkeleton, UntrackedSkeleton, UntrackedSkeleton])

  /** A sensor as one `Update` sees it: running or not, its mapper, and its ready frames. */
  datatype Sensor = Sensor(
    isRunning: bool,
    mapper: LegacyMapping.SdkMapper,
    colorFrame: Option<ColorImageFrame>,
    depthFrame: Option<DepthImageFrame>,
    skeletonFrame: Option<SkeletonFrame>)

  /** What `Update(object)` may be given: a sensor, a sensor chooser (with or without a sensor), or anything else. */
  datatype FrameReader = SensorReader(sensor: Sensor) | SensorChooser(kinect: Option<Sensor>) | OtherReader

  /** The candidates for the active player: Tracked skeletons, placed at their position. */
  function Candidates(ss: seq<Skeleton>): (c: seq<Candidate>)
    ensures |c| == |ss|
    ensures forall i :: 0 <= i < |ss| ==>
      c[i] == Candidate(ss[i].trackingState == SkeletonTracked, ConvertPoint(ss[i].position))
  {
    seq(|ss|, i requires 0 <= i < |ss| => Candidate(ss[i].trackingState == SkeletonTracked, ConvertPoint(ss[i].position)))
  }

  /**
   * The selection after decoding a skeleton frame (or none): the first slot
   * with the best score among the Tracked skeletons, cast to a byte, or nobody;
   * `hadPlayer` records whether a player was active before the frame.
   */
  function SelectionAfter(f: Option<SkeletonFrame>, before: ModernState.PlayerSelection): (r: ModernState.PlayerSelection)
    ensures f.None? ==> r == before
    ensures f.Some? ==> r.hadPlayer == before.hasActive
    ensures f.Some? && !r.hasActive ==> r.activeIndex == NO_ACTIVE_PLAYER
  {
    if f.None? then before
    else
      match Best(Candidates(f.value.skeletons))
      case None => ModernState.PlayerSelection(NO_ACTIVE_PLAYER, false, before.hasActive)
      case Some(k) => ModernState.PlayerSelection(k % 256, true, before.hasActive)
  }

  /**
   * A skeleton frame leaves a player active exactly when some skeleton is
   * Tracked, and the active slot is the first one with the best score.
   */
  lemma SelectionAfterChoosesBest(f: SkeletonFrame, before: ModernState.PlayerSelection)
    ensures var r := SelectionAfter(Some(f), before);
      && (r.hasActive <==> exists i :: 0 <= i < SKELETON_COUNT && f.skeletons[i].trackingState == SkeletonTracked)
      && (r.hasActive ==> r.activeIndex < SKELETON_COUNT && IsFirstBest(Candidates(f.skeletons), r.activeIndex as int))
  {
    BestSpec(Candidates(f.skeletons));
  }

  /*
   * The report gate. Each source's flag is sticky: it is raised by a frame and
   * only cleared, together with the others, when all three are raised, which is
   * the round `Update` reports as a new frame.
   */

  datatype Pending = Pending(color: bool, depth: bool, skeleton: bool)

  const NothingPending := Pending(false, false, false)

  /** The flags after a round in which `arrived` came in, and whether the round completes. */
  function Gate(pending: Pending, arrived: Pending): (r: (Pending, bool))
    ensures r.1 <==> (pending.color || arrived.color) && (pending.depth || arrived.depth)
                     && (pending.skeleton || arrived.skeleton)
    ensures r.1 ==> r.0 == NothingPending
    ensures !r.1 ==> r.0 == Pending(pending.color || arrived.color, pending.depth || arrived.depth,
                                    pending.skeleton || arrived.skeleton)
  {
    var p := Pending(pending.color || arrived.color, pending.depth || arrived.depth, pending.skeleton || arrived.skeleton);
    if p.color && p.depth && p.skeleton then (NothingPending, true) else (p, false)
  }

  /** Which rounds of a run of arrivals complete, starting from `pending`. */
  function Completions(pending: Pending, rounds: seq<Pending>): (r: seq<bool>)
    ensures |r| == |rounds|
    decreases |rounds|
  {
    if rounds == [] then []
    else
      var g := Gate(pending, rounds[0]);
      [g.1] + Completions(g.0, rounds[1..])
  }

  /** Without a colour frame no round completes: a report needs every source. */
  lemma {:induction false} NoColorNoCompletion(pending: Pending, rounds: seq<Pending>)
    requires !pending.color
    requires forall i :: 0 <= i < |rounds| ==> !rounds[i].color
    ensures forall i :: 0 <= i < |rounds| ==> !Completions(pending, rounds)[i]
    decreases |rounds|
  {
    if rounds != [] {
      var g := Gate(pending, rounds[0]);
      NoColorNoCompletion(g.0, rounds[1..]);
      forall i | 0 <= i < |rounds|
        ensures !Completions(pending, rounds)[i]
      {
        if i > 0 {
          assert Completions(pending, rounds)[i] == Completions(g.0, rounds[1..])[i - 1];
        }
      }
    }
  }

  /** After a completing round, one more round completes only if every source delivers in it. */
  lemma CompletionStartsOver(pending: Pending, a: Pending, b: Pending)
    requires Gate(pending, a).1
    ensures Gate(Gate(pending, a).0, b).1 <==> b.color && b.depth && b.skeleton
  {
  }

  class KinectState {
    var isAvailable: bool
    var activePlayerIndex: byte
    /** Whether `ActivePlayer` currently refers to a player. */
    var hasActivePlayer: bool
    var hadPlayer: bool

    var coordinateMapper: LegacyMapping.CoordinateMapper?

    var depthImageMode: DepthImageMode
    var userColors: seq<ColorBGRA>

    var colorWidth: nat
    var colorHeight: nat
    var depthWidth: nat
    var depthHeight: nat
    var minDepth: int
    var depthRange: int

    var colorUpdated: bool
    var depthUpdated: bool
    var skeletonUpdated: bool
    var colorNeedRender: bool
    var depthNeedRender: bool
    var skeletonsNeedRender: bool

    var colorData: array?<byte>
    var depthData: array?<short>
    var skeletons: array?<Skeleton>
    /** One body per skeleton slot, empty until the first skeleton frame. */
    var players: array<LegacyBody.Body>

    /** The depth visualisation buffer and the last contents uploaded to each texture. */
    var depthRender: array?<Shade>
    var colorImage: Option<seq<byte>>
    var depthImage: Option<seq<Shade>>

    ghost predicate Valid()
      reads this, players
    {
      PlayersValid() && DepthValid() && NeedRenderValid()
    }

    ghost predicate PlayersValid()
      reads this`skeletons, this`players, this`activePlayerIndex, this`hasActivePlayer, players
    {
      SlotsValid() && SelectionValid()
    }

    /** One distinct body per skeleton slot once skeletons arrive, none before. */
    ghost predicate SlotsValid()
      reads this`skeletons, this`players, players
    {
      && (skeletons == null ==> players.Length == 0)
      && (skeletons != null ==> skeletons.Length == SKELETON_COUNT && players.Length == SKELETON_COUNT)
      && (forall i, j :: 0 <= i < j < players.Length ==> players[i] != players[j])
    }

    ghost predicate SelectionValid()
      reads this`players, this`activePlayerIndex, this`hasActivePlayer
    {
      && (activePlayerIndex == NO_ACTIVE_PLAYER || activePlayerIndex < SKELETON_COUNT)
      && (hasActivePlayer ==> activePlayerIndex < players.Length)
    }

    ghost predicate DepthValid()
      reads this`depthData, this`depthWidth, this`depthHeight, this`depthRange, this`minDepth, this`depthRender
    {
      && (depthData != null ==>
            && depthData.Length == depthWidth * depthHeight
            && 0 < depthRange && 0 <= minDepth && minDepth + depthRange <= 0xFFFF)
      && (depthRender != null ==> depthData != null && depthRender.Length == depthData.Length)
    }

    ghost predicate NeedRenderValid()
      reads this`colorNeedRender, this`depthNeedRender, this`colorData, this`depthData
    {
      && (colorNeedRender ==> colorData != null)
      && (depthNeedRender ==> depthData != null)
    }

    constructor ()
      ensures Valid()
      ensures !isAvailable && !hadPlayer && activePlayerIndex == 0 && !hasActivePlayer
      ensures userColors == DEFAULT_USER_COLORS && depthImageMode == Normal
      ensures coordinateMapper == null && players.Length == 0
      ensures colorData == null && depthData == null && skeletons == null
      ensures !colorUpdated && !depthUpdated && !skeletonUpdated
      ensures !colorNeedRender && !depthNeedRender && !skeletonsNeedRender
      ensures depthRender == null && colorImage == None && depthImage == None
    {
      isAvailable, activePlayerIndex, hasActivePlayer, hadPlayer := false, 0, false, false;
      coordinateMapper := null;
      depthImageMode, userColors := Normal, DEFAULT_USER_COLORS;
      colorWidth, colorHeight, depthWidth, depthHeight := 0, 0, 0, 0;
      minDepth, depthRange := 0, 0;
      colorUpdated, depthUpdated, skeletonUpdated := false, false, false;
      colorNeedRender, depthNeedRender, skeletonsNeedRender := false, false, false;
      colorData, depthData, skeletons := null, null, null;
      players := new LegacyBody.Body[0];
      depthRender, colorImage, depthImage := null, None, None;
    }

    /** The depth at column `x`, row `y`: the packed word shifted right by three. */
    function GetDepth(x: int, y: int): ushort
      reads this`depthData, this`depthWidth, depthData
      requires depthData != null && 0 <= y * depthWidth + x < depthData.Length
    {
      LegacyDepth(depthData[y * depthWidth + x])
    }

    /** The player at column `x`, row `y`: "nobody" for player number 0, else the number minus one. */
    function GetPlayerIndex(x: int, y: int): byte
      reads this`depthData, this`depthWidth, depthData
      requires depthData != null && 0 <= y * depthWidth + x < depthData.Length
    {
      LegacyPlayerIndex(depthData[y * depthWidth + x])
    }

    /** `ActivePlayer`: the body in the active slot, or none. */
    function ActivePlayer(): Option<LegacyBody.Body>
      reads this`players, this`hasActivePlayer, this`activePlayerIndex, this`skeletons, players
      requires PlayersValid()
    {
      if hasActivePlayer then Some(players[activePlayerIndex]) else None
    }

    /**
     * A word packed from depth `d` and player number `p` at column `x`, row `y`
     * reads back as depth `d`, and as player `p - 1`, or nobody for `p == 0`.
     */
    lemma ReadsPackedPixel(x: int, y: int, d: int, p: int)
      requires depthData != null && 0 <= y * depthWidth + x < depthData.Length
      requires 0 <= d < 4096 && 0 <= p <= INDEX_MASK
      requires depthData[y * depthWidth + x] == Pack(d, p)
      ensures GetDepth(x, y) == d
      ensures GetPlayerIndex(x, y) == if p == 0 then NO_ACTIVE_PLAYER else p - 1
    {
      UnpackPack(d, p);
    }

    /**
     * After a skeleton frame, the active player is absent exactly when no
     * skeleton is Tracked, and otherwise is the body in the slot the selector chooses.
     */
    lemma ActivePlayerAfterFrame(f: SkeletonFrame, before: ModernState.PlayerSelection)
      requires PlayersValid() && SkeletonsHold(Some(f), before)
      ensures ActivePlayer().None? <==>
        forall i :: 0 <= i < SKELETON_COUNT ==> f.skeletons[i].trackingState != SkeletonTracked
      ensures ActivePlayer().Some? ==>
        var k := Best(Candidates(f.skeletons));
        k.Some? && k.value < players.Length && ActivePlayer() == Some(players[k.value])
    {
      var c := Candidates(f.skeletons);
      BestSpec(c);
      SelectionAfterChoosesBest(f, before);
      if hasActivePlayer {
        BestIsFirstBest(c, activePlayerIndex as int);
      }
    }

    function Selection(): ModernState.PlayerSelection
      reads this`activePlayerIndex, this`hasActivePlayer, this`hadPlayer
    {
      ModernState.PlayerSelection(activePlayerIndex, hasActivePlayer, hadPlayer)
    }

    function PendingFlags(): Pending
      reads this`colorUpdated, this`depthUpdated, this`skeletonUpdated
    {
      Pending(colorUpdated, depthUpdated, skeletonUpdated)
    }

    /*
     * What each decoder leaves behind when its frame arrived.
     */

    predicate ColorHolds(f: Option<ColorImageFrame>)
      reads this`colorData, colorData
    {
      f.Some? ==> colorData != null && colorData[..] == f.value.pixels
    }

    predicate DepthHolds(f: Option<DepthImageFrame>)
      reads this`depthData, this`minDepth, this`depthRange, depthData
    {
      f.Some? ==>
        && depthData != null && depthData[..] == f.value.pixels
        && minDepth == f.value.minDepth && depthRange == f.value.maxDepth - f.value.minDepth
    }

    predicate SkeletonsHold(f: Option<SkeletonFrame>, before: ModernState.PlayerSelection)
      reads this`skeletons, this`activePlayerIndex, this`hasActivePlayer, this`hadPlayer, skeletons
    {
      && Selection() == SelectionAfter(f, before)
      && (f.Some? ==> skeletons != null && skeletons[..] == f.value.skeletons)
    }

    /*
     * A source without a frame keeps its buffer: the same array with the same
     * contents, and for colour and depth the same size and reliable range.
     */

    twostate predicate ColorKept()
      reads this`colorData, this`colorWidth, this`colorHeight, colorData
    {
      && colorData == old(colorData) && (colorData != null ==> unchanged(colorData))
      && colorWidth == old(colorWidth) && colorHeight == old(colorHeight)
    }

    twostate predicate DepthKept()
      reads this`depthData, this`depthWidth, this`depthHeight, this`minDepth, this`depthRange, depthData
    {
      && depthData == old(depthData) && (depthData != null ==> unchanged(depthData))
      && depthWidth == old(depthWidth) && depthHeight == old(depthHeight)
      && minDepth == old(minDepth) && depthRange == old(depthRange)
    }

    /** The skeletons and every body keep their values, and the selection stays. */
    twostate predicate SkeletonsKept()
      reads this`skeletons, this`players, this`activePlayerIndex, this`hasActivePlayer, this`hadPlayer
      reads skeletons, players, players[..]
    {
      && skeletons == old(skeletons) && players == old(players) && Selection() == old(Selection())
      && (skeletons != null ==> unchanged(skeletons))
      && unchanged(players) && forall i :: 0 <= i < players.Length ==> unchanged(players[i])
    }

    /** Nothing changes: every field, the contents of every buffer and every body. */
    twostate predicate Untouched()
      reads this, colorData, depthData, skeletons, players, players[..]
    {
      unchanged(this) && ColorKept() && DepthKept() && SkeletonsKept()
    }

    /**
     * Each arrived frame of `sensor` is copied in and raises its "needs render"
     * flag, and the selection follows the skeleton frame.
     */
    twostate predicate FramesDecoded(sensor: Sensor)
      reads this, colorData, depthData, skeletons
    {
      && ColorHolds(sensor.colorFrame) && DepthHolds(sensor.depthFrame)
      && SkeletonsHold(sensor.skeletonFrame, old(Selection()))
      && colorNeedRender == (old(colorNeedRender) || sensor.colorFrame.Some?)
      && depthNeedRender == (old(depthNeedRender) || sensor.depthFrame.Some?)
      && skeletonsNeedRender == (old(skeletonsNeedRender) || sensor.skeletonFrame.Some?)
    }

    /*
     * The decoders. Each one ignores a missing frame; otherwise it allocates its
     * buffer on the first frame, copies the frame in and raises its
     * "needs render" flag.
     */

    predicate FitsColor(f: ColorImageFrame)
      reads this`colorData
    {
      colorData != null ==> |f.pixels| == colorData.Length
    }

    method UpdateColor(frame: Option<ColorImageFrame>) returns (ok: bool)
      requires NeedRenderValid() && (frame.Some? ==> FitsColor(frame.value))
      modifies this`colorData, this`colorWidth, this`colorHeight, this`colorNeedRender, colorData
      ensures NeedRenderValid()
      ensures ok == frame.Some?
      ensures ColorHolds(frame)
      ensures colorNeedRender == (old(colorNeedRender) || frame.Some?)
      ensures colorData == old(colorData) || (old(colorData) == null && fresh(colorData))
      ensures old(colorData) == null && frame.Some? ==>
        colorWidth == frame.value.width && colorHeight == frame.value.height
      ensures old(colorData) != null ==> colorWidth == old(colorWidth) && colorHeight == old(colorHeight)
      ensures frame.None? ==> ColorKept()
    {
      if frame.None? {
        return false;
      }
      var f := frame.value;
      if colorData == null {
        colorData := new byte[|f.pixels|];
        colorWidth, colorHeight := f.width, f.height;
      }
      forall i | 0 <= i < colorData.Length {
        colorData[i] := f.pixels[i];
      }
      colorNeedRender := true;
      ok := true;
    }

    predicate FitsDepth(f: DepthImageFrame)
      reads this`depthData
    {
      depthData != null ==> |f.pixels| == depthData.Length
    }

    method UpdateDepth(frame: Option<DepthImageFrame>) returns (ok: bool)
      requires DepthValid() && NeedRenderValid() && (frame.Some? ==> FitsDepth(frame.value))
      modifies this`depthData, this`depthWidth, this`depthHeight, this`minDepth, this`depthRange
      modifies this`depthNeedRender, depthData
      ensures DepthValid() && NeedRenderValid()
      ensures ok == frame.Some?
      ensures DepthHolds(frame)
      ensures depthNeedRender == (old(depthNeedRender) || frame.Some?)
      ensures depthData == old(depthData) || (old(depthData) == null && fresh(depthData))
      ensures old(depthData) == null && frame.Some? ==>
        depthWidth == frame.value.width && depthHeight == frame.value.height
      ensures old(depthData) != null ==> depthWidth == old(depthWidth) && depthHeight == old(depthHeight)
      ensures frame.None? ==> DepthKept()
    {
      if frame.None? {
        return false;
      }
      var f := frame.value;
      if depthData == null {
        depthData := new short[|f.pixels|];
        depthWidth, depthHeight := f.width, f.height;
      }
      forall i | 0 <= i < depthData.Length {
        depthData[i] := f.pixels[i];
      }
      minDepth := f.minDepth;
      depthRange := f.maxDepth - minDepth;
      depthNeedRender := true;
      ok := true;
    }

    /**
     * Copies the skeletons, updates each body in place from its skeleton, and
     * chooses the active player. The bodies are created on the first frame.
     */
    method UpdateSkeletons(frame: Option<SkeletonFrame>) returns (ok: bool)
      requires PlayersValid()
      modifies this`skeletons, this`players, this`activePlayerIndex, this`hasActivePlayer, this`hadPlayer
      modifies this`skeletonsNeedRender, skeletons, players[..]
      ensures PlayersValid()
      ensures ok == frame.Some?
      ensures SkeletonsHold(frame, old(Selection()))
      ensures skeletonsNeedRender == (old(skeletonsNeedRender) || frame.Some?)
      ensures skeletons == old(skeletons) || (old(skeletons) == null && fresh(skeletons))
      ensures players == old(players) || (old(skeletons) == null && fresh(players))
      ensures frame.Some? ==> PlayersHold(frame.value.skeletons, old(skeletons) == null)
      ensures frame.None? ==> SkeletonsKept()
    {
      if frame.None? {
        return false;
      }
      var ss := frame.value.skeletons;
      CopySkeletons(ss);
      SelectActivePlayer(ss);
      skeletonsNeedRender := true;
      ok := true;
    }

    /** Allocates the skeleton buffer and the bodies on the first frame, copies the skeletons and updates each body. */
    method CopySkeletons(ss: seq<Skeleton>)
      requires SlotsValid() && |ss| == SKELETON_COUNT
      modifies this`skeletons, this`players, skeletons, players[..]
      ensures SlotsValid() && skeletons != null && skeletons[..] == ss
      ensures skeletons == old(skeletons) || (old(skeletons) == null && fresh(skeletons))
      ensures players == old(players) || (old(skeletons) == null && fresh(players))
      ensures PlayersHold(ss, old(skeletons) == null)
    {
      if skeletons == null {
        skeletons := new Skeleton[SKELETON_COUNT](_ => UntrackedSkeleton);
        players := NewPlayers(SKELETON_COUNT);
      }
      forall i | 0 <= i < SKELETON_COUNT {
        skeletons[i] := ss[i];
      }
      UpdatePlayers(players, skeletons[..]);
    }

    /** Chooses the active player among the Tracked skeletons `ss`. */
    method SelectActivePlayer(ss: seq<Skeleton>)
      requires |ss| == SKELETON_COUNT && players.Length == SKELETON_COUNT
      modifies this`activePlayerIndex, this`hasActivePlayer, this`hadPlayer
      ensures SelectionValid()
      ensures Selection() == SelectionAfter(Some(SkeletonFrameData(ss)), old(Selection()))
    {
      var best := Best(Candidates(ss));
      hadPlayer := hasActivePlayer;
      if best.None? {
        activePlayerIndex := NO_ACTIVE_PLAYER;
        hasActivePlayer := false;
      } else {
        activePlayerIndex := best.value % 256;
        hasActivePlayer := true;
      }
    }

    /**
     * Each body holds its previous value (a new body's on the first frame)
     * updated from the skeleton in its slot.
     */
    twostate predicate PlayersHold(ss: seq<Skeleton>, first: bool)
      reads this`players, players, players[..]
    {
      && players.Length == |ss|
      && (!first ==> players == old(players) && unchanged(players))
      && forall i :: 0 <= i < |ss| ==>
           players[i].Value() == LegacyBody.Updated(if first then LegacyBody.NewBody else old(players[i].Value()), ss[i])
    }

    /**
     * `Update(sensor)`: creates the coordinate mapper on first use, takes the
     * sensor's running state, decodes whichever frames are ready, and reports a
     * new frame when colour, depth and skeletons have all arrived since the
     * last report (clearing the three flags), or else whether availability
     * changed.
     */
    method UpdateSensor(sensor: Sensor) returns (updated: bool)
      requires Valid() && Accepts(sensor)
      modifies this`coordinateMapper, this`isAvailable, this`colorUpdated, this`depthUpdated, this`skeletonUpdated
      modifies this`colorData, this`colorWidth, this`colorHeight, this`colorNeedRender
      modifies this`depthData, this`depthWidth, this`depthHeight, this`minDepth, this`depthRange, this`depthNeedRender
      modifies this`skeletons, this`players, this`activePlayerIndex, this`hasActivePlayer, this`hadPlayer
      modifies this`skeletonsNeedRender, colorData, depthData, skeletons, players[..]
      ensures Valid()
      ensures isAvailable == sensor.isRunning
      ensures coordinateMapper != null
      ensures old(coordinateMapper) == null ==> fresh(coordinateMapper) && coordinateMapper.mapper == sensor.mapper
      ensures old(coordinateMapper) != null ==> coordinateMapper == old(coordinateMapper)
      ensures var g := Gate(old(PendingFlags()), Arrived(sensor));
        PendingFlags() == g.0 && (updated <==> g.1 || old(isAvailable) != sensor.isRunning)
      ensures FramesDecoded(sensor)
    {
      var availabilityUpdated := Attach(sensor);
      var complete := DecodeAndReport(sensor);
      updated := complete || availabilityUpdated;
    }

    /**
     * The first part of `Update(sensor)`: the coordinate mapper is created from
     * the first sensor seen and kept afterwards, and availability follows the
     * sensor's running state.
     */
    method Attach(sensor: Sensor) returns (availabilityUpdated: bool)
      modifies this`coordinateMapper, this`isAvailable
      ensures coordinateMapper != null
      ensures old(coordinateMapper) == null ==> fresh(coordinateMapper) && coordinateMapper.mapper == sensor.mapper
      ensures old(coordinateMapper) != null ==> coordinateMapper == old(coordinateMapper)
      ensures isAvailable == sensor.isRunning
      ensures availabilityUpdated == (old(isAvailable) != sensor.isRunning)
    {
      if coordinateMapper == null {
        coordinateMapper := new LegacyMapping.CoordinateMapper(sensor.mapper);
      }
      availabilityUpdated := isAvailable != sensor.isRunning;
      if availabilityUpdated {
        isAvailable := sensor.isRunning;
      }
      isAvailable := sensor.isRunning;
    }

    /** The rest of `Update(sensor)`: the three decoders and the report gate. */
    method DecodeAndReport(sensor: Sensor) returns (complete: bool)
      requires Valid() && Accepts(sensor)
      modifies this`colorUpdated, this`depthUpdated, this`skeletonUpdated
      modifies this`colorData, this`colorWidth, this`colorHeight, this`colorNeedRender
      modifies this`depthData, this`depthWidth, this`depthHeight, this`minDepth, this`depthRange, this`depthNeedRender
      modifies this`skeletons, this`players, this`activePlayerIndex, this`hasActivePlayer, this`hadPlayer
      modifies this`skeletonsNeedRender, colorData, depthData, skeletons, players[..]
      ensures Valid()
      ensures var g := Gate(old(PendingFlags()), Arrived(sensor));
        PendingFlags() == g.0 && complete == g.1
      ensures FramesDecoded(sensor)
    {
      var c, d, s := DecodeStreams(sensor);
      complete := RecordArrivals(c, d, s);
    }

    /** Raises the sticky flag of each source that delivered, and clears all three once every source has. */
    method RecordArrivals(c: bool, d: bool, s: bool) returns (complete: bool)
      requires Valid()
      modifies this`colorUpdated, this`depthUpdated, this`skeletonUpdated
      ensures Valid()
      ensures var g := Gate(old(PendingFlags()), Pending(c, d, s));
        PendingFlags() == g.0 && complete == g.1
    {
      var color, depth, skeleton := colorUpdated || c, depthUpdated || d, skeletonUpdated || s;
      complete := color && depth && skeleton;
      if complete {
        color, depth, skeleton := false, false, false;
      }
      colorUpdated, depthUpdated, skeletonUpdated := color, depth, skeleton;
    }

    /** The three decoders of one `Update(sensor)`, in the source's order. */
    method DecodeStreams(sensor: Sensor) returns (c: bool, d: bool, s: bool)
      requires Valid() && Accepts(sensor)
      modifies this`colorData, this`colorWidth, this`colorHeight, this`colorNeedRender
      modifies this`depthData, this`depthWidth, this`depthHeight, this`minDepth, this`depthRange, this`depthNeedRender
      modifies this`skeletons, this`players, this`activePlayerIndex, this`hasActivePlayer, this`hadPlayer
      modifies this`skeletonsNeedRender, colorData, depthData, skeletons, players[..]
      ensures Valid()
      ensures Pending(c, d, s) == Arrived(sensor)
      ensures FramesDecoded(sensor)
    {
      c, d := DecodeImages(sensor);
      s := UpdateSkeletons(sensor.skeletonFrame);
      assert DepthValid() && NeedRenderValid();
      assert ColorHolds(sensor.colorFrame) && DepthHolds(sensor.depthFrame);
    }

    /** The colour and depth decoders of one `Update(sensor)`. */
    method DecodeImages(sensor: Sensor) returns (c: bool, d: bool)
      requires DepthValid() && NeedRenderValid() && Accepts(sensor)
      modifies this`colorData, this`colorWidth, this`colorHeight, this`colorNeedRender
      modifies this`depthData, this`depthWidth, this`depthHeight, this`minDepth, this`depthRange, this`depthNeedRender
      modifies colorData, depthData
      ensures DepthValid() && NeedRenderValid()
      ensures c == sensor.colorFrame.Some? && d == sensor.depthFrame.Some?
      ensures ColorHolds(sensor.colorFrame) && DepthHolds(sensor.depthFrame)
      ensures colorNeedRender == (old(colorNeedRender) || sensor.colorFrame.Some?)
      ensures depthNeedRender == (old(depthNeedRender) || sensor.depthFrame.Some?)
    {
      c := UpdateColor(sensor.colorFrame);
      d := UpdateDepth(sensor.depthFrame);
    }

    /** `Update(object)`: a sensor chooser stands for its current sensor; anything else reports nothing. */
    method Update(reader: FrameReader) returns (updated: bool)
      requires Valid()
      requires reader.SensorReader? ==> Accepts(reader.sensor)
      requires reader.SensorChooser? && reader.kinect.Some? ==> Accepts(reader.kinect.value)
      modifies this`coordinateMapper, this`isAvailable, this`colorUpdated, this`depthUpdated, this`skeletonUpdated
      modifies this`colorData, this`colorWidth, this`colorHeight, this`colorNeedRender
      modifies this`depthData, this`depthWidth, this`depthHeight, this`minDepth, this`depthRange, this`depthNeedRender
      modifies this`skeletons, this`players, this`activePlayerIndex, this`hasActivePlayer, this`hadPlayer
      modifies this`skeletonsNeedRender, colorData, depthData, skeletons, players[..]
      ensures Valid()
      ensures reader.OtherReader? || (reader.SensorChooser? && reader.kinect.None?) ==> !updated && Untouched()
      ensures reader.SensorReader? || (reader.SensorChooser? && reader.kinect.Some?) ==>
        var sensor := if reader.SensorReader? then reader.sensor else reader.kinect.value;
        var g := Gate(old(PendingFlags()), Arrived(sensor));
        && isAvailable == sensor.isRunning
        && coordinateMapper != null
        && (old(coordinateMapper) == null ==> fresh(coordinateMapper) && coordinateMapper.mapper == sensor.mapper)
        && (old(coordinateMapper) != null ==> coordinateMapper == old(coordinateMapper))
        && PendingFlags() == g.0 && (updated <==> g.1 || old(isAvailable) != sensor.isRunning)
        && FramesDecoded(sensor)
    {
      match reader
      case SensorReader(sensor) =>
        updated := UpdateSensor(sensor);
      case SensorChooser(kinect) =>
        if kinect.Some? {
          updated := UpdateSensor(kinect.value);
        } else {
          updated := false;
        }
      case OtherReader =>
        updated := false;
    }

    /** The frames of `sensor` fit the buffers already allocated. */
    predicate Accepts(sensor: Sensor)
      reads this`colorData, this`depthData
    {
      && (sensor.colorFrame.Some? ==> FitsColor(sensor.colorFrame.value))
      && (sensor.depthFrame.Some? ==> FitsDepth(sensor.depthFrame.value))
    }

    /*
     * The depth-pixel enumeration: rows of `depthWidth` pixels, row-major, each
     * packed word unpacked into its depth and its player.
     */

    /** Pixel `k` of the enumeration: column and row of `k` in rows of `w`, and the word at `k` unpacked. */
    ghost predicate EnumeratedAt(p: ModernState.DepthDataPixel, k: int, w: int)
      reads this`depthData, this`minDepth, this`depthRange, depthData
      requires depthData != null && 0 <= k < depthData.Length
    {
      && p.index == k
      && 0 <= p.x < w && 0 <= p.y && p.y * w + p.x == k
      && p.depth == LegacyDepth(depthData[k]) && p.playerIndex == LegacyPlayerIndex(depthData[k])
      && p.minDepth == minDepth && p.maxDepth == minDepth + depthRange
    }

    method DepthData() returns (pixels: seq<ModernState.DepthDataPixel>)
      requires Valid()
      ensures depthData == null ==> pixels == []
      ensures depthData != null ==> |pixels| == depthData.Length
      ensures depthData != null ==> forall k :: 0 <= k < |pixels| ==>
        && pixels[k].index == k
        && 0 <= pixels[k].x < depthWidth && 0 <= pixels[k].y
        && pixels[k].y * depthWidth + pixels[k].x == k
        && pixels[k].depth == GetDepth(pixels[k].x, pixels[k].y)
        && pixels[k].playerIndex == GetPlayerIndex(pixels[k].x, pixels[k].y)
        && pixels[k].minDepth == minDepth && pixels[k].maxDepth == minDepth + depthRange
        && (pixels[k].HasPlayer() <==> PackedPlayer(depthData[k]) != 0)
    {
      pixels := [];
      if depthData == null {
        return;
      }
      var n, w := depthData.Length, depthWidth;
      var low: ushort := minDepth % 0x1_0000;
      var high: ushort := (minDepth + depthRange) % 0x1_0000;
      var index, y := 0, 0;
      while index < n
        invariant 0 <= y && index == y * w && index <= n
        invariant |pixels| == index
        invariant forall k :: 0 <= k < index ==> EnumeratedAt(pixels[k], k, w)
        decreases n - index
      {
        ModernState.RowFits(y, w, depthHeight);
        var x := 0;
        while x < w
          invariant 0 <= x <= w
          invariant index == y * w + x && index <= (y + 1) * w
          invariant |pixels| == index
          invariant forall k :: 0 <= k < index ==> EnumeratedAt(pixels[k], k, w)
        {
          var raw := depthData[index];
          var depth: ushort := (raw as int / 8) % 0x1_0000;
          var playerIndex := raw % 8;
          var player: byte := if playerIndex == 0 then NO_ACTIVE_PLAYER else playerIndex - 1;
          var p := ModernState.DepthDataPixel(index, x, y, depth, player, low, high);
          assert EnumeratedAt(p, index, w);
          pixels := pixels + [p];
          x, index := x + 1, index + 1;
        }
        y := y + 1;
      }
      forall k | 0 <= k < |pixels|
        ensures pixels[k].depth == GetDepth(pixels[k].x, pixels[k].y)
        ensures pixels[k].playerIndex == GetPlayerIndex(pixels[k].x, pixels[k].y)
      {
        assert EnumeratedAt(pixels[k], k, w);
      }
    }

    /*
     * Rendering.
     */

    /** Every packed word has a palette colour after the legacy remap. */
    ghost predicate PaletteCovers()
      reads this`depthData, this`activePlayerIndex, this`userColors, depthData
    {
      depthData != null ==>
        forall i :: 0 <= i < depthData.Length ==> LegacyPaletteCovers(depthData[i], activePlayerIndex, userColors)
    }

    /** The shade pixel `i` of the depth visualisation must have. */
    ghost function PixelShade(i: int): Shade
      reads this`depthData, this`depthWidth, this`depthHeight, this`depthRange, this`minDepth, this`depthRender
      reads this`depthImageMode, this`activePlayerIndex, this`userColors, depthData
      requires DepthValid() && depthData != null && 0 <= i < depthData.Length
      requires depthImageMode.userColor ==> PaletteCovers()
    {
      LegacyShade(depthData[i], minDepth, depthRange, depthImageMode, activePlayerIndex, userColors)
    }

    /**
     * Uploads the colour buffer if a colour frame arrived since the last render,
     * and redraws the depth visualisation whenever a depth frame has ever
     * arrived: the depth flag is never lowered. Returns the sources drawn.
     */
    method Render() returns (rendered: set<FrameSource>)
      requires Valid()
      requires depthImageMode.userColor && depthNeedRender ==> PaletteCovers()
      modifies this`colorNeedRender, this`colorImage, this`depthImage, this`depthRender, depthRender
      ensures Valid()
      ensures !colorNeedRender && depthNeedRender == old(depthNeedRender)
      ensures depthRender == old(depthRender) || (old(depthRender) == null && fresh(depthRender))
      ensures ColorSource in rendered <==> old(colorNeedRender)
      ensures DepthSource in rendered <==> depthNeedRender
      ensures BodyIndexSource in rendered <==> depthNeedRender && depthImageMode.userColor
      ensures BodySource in rendered <==> depthNeedRender && depthImageMode.includeJoints && hasActivePlayer
      ensures rendered <= {ColorSource, DepthSource, BodyIndexSource, BodySource}
      ensures old(colorNeedRender) ==> colorImage == Some(colorData[..])
      ensures !old(colorNeedRender) ==> colorImage == old(colorImage)
      ensures depthNeedRender ==>
        && depthData != null && depthRender != null
        && depthImage == Some(depthRender[..])
        && forall i :: 0 <= i < depthRender.Length ==> depthRender[i] == PixelShade(i)
      ensures !depthNeedRender ==>
        depthImage == old(depthImage) && depthRender == old(depthRender)
        && (depthRender != null ==> unchanged(depthRender))
    {
      rendered := {};
      if colorNeedRender {
        colorImage := Some(colorData[..]);
        colorNeedRender := false;
        rendered := rendered + {ColorSource};
      }
      if depthNeedRender {
        RedrawDepth();
        if depthImageMode.userColor {
          rendered := rendered + {BodyIndexSource};
        }
        rendered := rendered + {DepthSource};
        if depthImageMode.includeJoints && hasActivePlayer {
          rendered := rendered + {BodySource};
        }
      }
    }

    /** The depth visualisation pass: intensity per word, then the player tint. */
    method RedrawDepth()
      requires DepthValid() && depthData != null
      requires depthImageMode.userColor ==> PaletteCovers()
      modifies this`depthImage, this`depthRender, depthRender
      ensures DepthValid() && depthRender != null
      ensures depthRender == old(depthRender) || (old(depthRender) == null && fresh(depthRender))
      ensures depthImage == Some(depthRender[..])
      ensures forall i :: 0 <= i < depthRender.Length ==> depthRender[i] == PixelShade(i)
    {
      if depthRender == null {
        depthRender := new Shade[depthData.Length](_ => Gray(0));
      }
      ShadePackedDepth(depthRender, depthData, minDepth, depthRange, depthImageMode.wrapped);
      if depthImageMode.userColor {
        TintPackedPlayers(depthRender, depthData, activePlayerIndex, userColors);
      }
      depthImage := Some(depthRender[..]);
    }
  }

  /** The frames of one `Update(sensor)` that arrived. */
  function Arrived(sensor: Sensor): Pending {
    Pending(sensor.colorFrame.Some?, sensor.depthFrame.Some?, sensor.skeletonFrame.Some?)
  }

  /** `n` new bodies, all distinct. */
  method NewPlayers(n: nat) returns (a: array<LegacyBody.Body>)
    ensures fresh(a) && a.Length == n
    ensures forall i :: 0 <= i < n ==> fresh(a[i]) && a[i].Value() == LegacyBody.NewBody
    ensures forall i, j :: 0 <= i < j < n ==> a[i] != a[j]
  {
    var bs: seq<LegacyBody.Body> := [];
    while |bs| < n
      invariant |bs| <= n
      invariant forall i :: 0 <= i < |bs| ==> fresh(bs[i]) && bs[i].Value() == LegacyBody.NewBody
      invariant forall i, j :: 0 <= i < j < |bs| ==> bs[i] != bs[j]
    {
      var b := new LegacyBody.Body();
      bs := bs + [b];
    }
    a := new LegacyBody.Body[n](i requires 0 <= i < n => bs[i]);
  }

  /** Updates each body in place from the skeleton in the same slot. */
  method UpdatePlayers(players: array<LegacyBody.Body>, ss: seq<Skeleton>)
    requires players.Length == |ss|
    requires forall i, j :: 0 <= i < j < players.Length ==> players[i] != players[j]
    modifies players[..]
    ensures unchanged(players)
    ensures forall i :: 0 <= i < players.Length ==> players[i].Value() == LegacyBody.Updated(old(players[i].Value()), ss[i])
  {
    for i := 0 to players.Length
      invariant forall k :: 0 <= k < i ==> players[k].Value() == LegacyBody.Updated(old(players[k].Value()), ss[k])
      invariant forall k :: i <= k < players.Length ==> players[k].Value() == old(players[k].Value())
    {
      players[i].Update(ss[i]);
    }
  }

  /** The intensity pass of the legacy depth redraw, on the depth part (`raw >> 3`) of each word. */
  method ShadePackedDepth(render: array<Shade>, depth: array<short>, minDepth: int, depthRange: int, wrapped: bool)
    requires render.Length == depth.Length && 0 < depthRange
    modifies render
    ensures forall k :: 0 <= k < render.Length ==>
      render[k] == Gray(Intensity(PackedDepth(depth[k]), minDepth, depthRange, wrapped))
  {
    for i := 0 to render.Length
      invariant forall k :: 0 <= k < i ==>
        render[k] == Gray(Intensity(PackedDepth(depth[k]), minDepth, depthRange, wrapped))
    {
      var d := depth[i] / 8;
      var intensity: byte := 0;
      if minDepth <= d {
        var distance := if d - minDepth < depthRange then d - minDepth else depthRange;
        if wrapped {
          intensity := distance % 255;
        } else {
          LinearLevelBounds(distance, depthRange);
          intensity := 255 * distance / depthRange;
        }
      }
      render[i] := Gray(intensity);
    }
  }

  /** The tint pass of the legacy depth redraw: the player part (`raw & 7`) of each word, remapped. */
  method TintPackedPlayers(render: array<Shade>, depth: array<short>, active: byte, colors: seq<ColorBGRA>)
    requires render.Length == depth.Length
    requires forall k :: 0 <= k < depth.Length ==> LegacyPaletteCovers(depth[k], active, colors)
    modifies render
    ensures forall k :: 0 <= k < render.Length ==>
      render[k] == LegacyTint(old(render[k]), depth[k], active, colors)
  {
    for i := 0 to render.Length
      invariant forall k :: 0 <= k < i ==> render[k] == LegacyTint(old(render[k]), depth[k], active, colors)
      invariant forall k :: i <= k < render.Length ==> render[k] == old(render[k])
    {
      var playerIndex := depth[i] % 8;
      if active != NO_ACTIVE_PLAYER {
        if playerIndex == active as int + 1 {
          playerIndex := 1;
        } else if 0 < playerIndex && playerIndex < active as int {
          playerIndex := playerIndex + 1;
        }
      }
      if playerIndex != 0 {
        render[i] := Tinted(render[i], colors[playerIndex - 1]);
      }
    }
  }

  /** With player numbers 0..6 and six colours, every word has a palette colour. */
  lemma SixColoursCover(s: KinectState)
    requires s.PlayersValid() && |s.userColors| >= SKELETON_COUNT
    requires s.depthData != null ==> forall i :: 0 <= i < s.depthData.Length ==> PackedPlayer(s.depthData[i]) <= 6
    ensures s.PaletteCovers()
  {
    if s.depthData != null {
      forall i | 0 <= i < s.depthData.Length
        ensures LegacyPaletteCovers(s.depthData[i], s.activePlayerIndex, s.userColors)
      {
        LegacyRemapStaysInPalette(s.depthData[i], s.activePlayerIndex, s.userColors);
      }
    }
  }

  /**
   * The depth flag is never lowered: once a depth frame has arrived, every
   * render redraws the depth visualisation, with or without a new frame.
   */
  method RenderTwice(s: KinectState) returns (first: set<FrameSource>, second: set<FrameSource>)
    requires s.Valid() && s.depthNeedRender
    requires s.depthImageMode.userColor ==> s.PaletteCovers()
    modifies s`colorNeedRender, s`colorImage, s`depthImage, s`depthRender, s.depthRender
    ensures DepthSource in first && DepthSource in second
    ensures ColorSource !in second
  {
    first := s.Render();
    second := s.Render();
  }
}
