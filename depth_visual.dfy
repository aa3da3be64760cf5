// Per-pixel arithmetic of the depth visualisation: the grey level of a
// depth sample, the player-palette remaps of both engines, and the
// packed 16-bit depth words of the legacy sensor.

module DepthVisual {
  import opened KinectTypes

  /*
   * Intensity. A sample at or beyond the reliable minimum is measured from the
   * minimum and clamped to the reliable range; wrapped mode repeats a 255-step
   * ramp (`distance % byte.MaxValue`), linear mode scales the clamped distance
   * onto 0..255 with integer division. Samples nearer than the minimum are black.
   */

  /** The clamped distance from the reliable minimum: `Math.Min(depth - minDepth, depthRange)`. */
  function Distance(depth: int, minDepth: int, depthRange: int): (r: int)
    requires minDepth <= depth && 0 < depthRange
    ensures 0 <= r <= depthRange
    ensures depth - minDepth <= depthRange ==> r == depth - minDepth
    ensures depth - minDepth >= depthRange ==> r == depthRange
  {
    if depth - minDepth < depthRange then depth - minDepth else depthRange
  }

  function Intensity(depth: int, minDepth: int, depthRange: int, wrapped: bool): (r: byte)
    requires 0 < depthRange
    ensures depth < minDepth ==> r == 0
    ensures depth == minDepth ==> r == 0
    ensures wrapped ==> r < 255
    ensures !wrapped && depth >= minDepth + depthRange ==> r == 255
  {
    if minDepth <= depth then
      var distance := Distance(depth, minDepth, depthRange);
      if wrapped then distance % 255 else LinearLevel(distance, depthRange)
    else
      0
  }

  /** `byte.MaxValue * distance / depthRange`: 0 at the minimum, 255 at the maximum. */
  function LinearLevel(distance: int, depthRange: int): (r: byte)
    requires 0 <= distance <= depthRange && 0 < depthRange
    ensures distance == 0 ==> r == 0
    ensures distance == depthRange ==> r == 255
  {
    LinearLevelBounds(distance, depthRange);
    MulDivCancel(255, depthRange);
    255 * distance / depthRange
  }

  lemma LinearLevelBounds(distance: int, depthRange: int)
    requires 0 <= distance <= depthRange && 0 < depthRange
    ensures 0 <= 255 * distance / depthRange <= 255
  {
    DivMonotone(255 * distance, 255 * depthRange, depthRange);
    MulDivCancel(255, depthRange);
  }

  lemma MulDivCancel(k: int, d: int)
    requires 0 < d
    ensures k * d / d == k
  {
    var q, r := k * d / d, k * d % d;
    assert q * d + r == k * d;
    assert (q - k) * d == -r;
    if q > k { MulMono(1, q - k, d); }
    if q < k { MulMono(1, k - q, d); }
  }

  lemma MulMono(x: int, y: int, d: int)
    requires x <= y && 0 <= d
    ensures x * d <= y * d
  {
    assert y * d - x * d == (y - x) * d;
  }

  lemma DivMonotone(a: int, b: int, d: int)
    requires 0 <= a <= b && 0 < d
    ensures 0 <= a / d <= b / d
  {
    var qa, qb := a / d, b / d;
    assert qa * d + a % d == a && qb * d + b % d == b;
    if qa > qb {
      MulMono(qb + 1, qa, d);
    }
    if qa < 0 {
      MulMono(qa, -1, d);
    }
  }

  /** Linear mode is monotone: a farther sample is never darker. */
  lemma LinearIntensityMonotone(d1: int, d2: int, minDepth: int, depthRange: int)
    requires 0 < depthRange && d1 <= d2
    ensures Intensity(d1, minDepth, depthRange, false) <= Intensity(d2, minDepth, depthRange, false)
  {
    if minDepth <= d1 {
      var x1, x2 := Distance(d1, minDepth, depthRange), Distance(d2, minDepth, depthRange);
      DivMonotone(255 * x1, 255 * x2, depthRange);
    }
  }

  /** Inside the reliable range, wrapped mode repeats every 255 depth units. */
  lemma WrappedIntensityPeriodic(depth: int, minDepth: int, depthRange: int)
    requires 0 < depthRange && minDepth <= depth && depth + 255 <= minDepth + depthRange
    ensures Intensity(depth + 255, minDepth, depthRange, true) == Intensity(depth, minDepth, depthRange, true)
  {
    var x := depth - minDepth;
    assert (x + 255) % 255 == x % 255;
  }

  /** The worked values for the reliable range 500..4500. */
  lemma IntensityExamples()
    ensures Intensity(2500, 500, 4000, false) == 127
    ensures Intensity(2500, 500, 4000, true) == 215
    ensures Intensity(400, 500, 4000, false) == 0 && Intensity(400, 500, 4000, true) == 0
  {
  }

  /*
   * Modern palette remap. Body indices are 0..5 or 255 ("nobody"). When a player
   * is active, it takes palette slot 0 and every lower index moves up by one, so
   * the slots of the other players stay distinct; higher indices are unchanged.
   */

  function RemapBodyIndex(bodyIndex: byte, active: byte): (r: byte)
    ensures active == NO_ACTIVE_PLAYER ==> r == bodyIndex
    ensures active != NO_ACTIVE_PLAYER && bodyIndex == active ==> r == 0
    ensures active != NO_ACTIVE_PLAYER && bodyIndex < active ==> r == bodyIndex + 1
    ensures bodyIndex > active ==> r == bodyIndex
  {
    if active != NO_ACTIVE_PLAYER then
      if bodyIndex == active then 0
      else if bodyIndex < active then bodyIndex + 1
      else bodyIndex
    else
      bodyIndex
  }

  /** A "nobody" pixel stays "nobody", whatever the active index. */
  lemma RemapKeepsNoPlayer(active: byte)
    ensures RemapBodyIndex(NO_ACTIVE_PLAYER, active) == NO_ACTIVE_PLAYER
  {
  }

  /** The inverse of the remap for a given active player: slot 0 is the active player. */
  function UnmapSlot(slot: byte, active: byte): byte {
    if active == NO_ACTIVE_PLAYER || slot > active then slot
    else if slot == 0 then active
    else slot - 1
  }

  /** With a player active the remap permutes 0..active and fixes everything above. */
  lemma RemapIsBijection(b: byte, slot: byte, active: byte)
    ensures UnmapSlot(RemapBodyIndex(b, active), active) == b
    ensures RemapBodyIndex(UnmapSlot(slot, active), active) == slot
    ensures b <= active <==> RemapBodyIndex(b, active) <= active
  {
  }

  /** Remapped indices of real players stay inside a palette of `players` colours. */
  lemma RemapStaysInPalette(bodyIndex: byte, active: byte, players: nat)
    requires bodyIndex < players || bodyIndex == NO_ACTIVE_PLAYER
    requires active < players || active == NO_ACTIVE_PLAYER
    ensures var r := RemapBodyIndex(bodyIndex, active); r < players || r == NO_ACTIVE_PLAYER
  {
  }

  /** The shade of one modern pixel after the intensity pass and, if requested, the tint pass. */
  function ModernShade(depth: ushort, bodyIndex: byte, minDepth: int, depthRange: int,
                       mode: DepthImageMode, tint: bool, active: byte, colors: seq<ColorBGRA>): Shade
    requires 0 < depthRange
    requires tint ==> ModernPaletteCovers(bodyIndex, active, colors)
  {
    var gray := Gray(Intensity(depth, minDepth, depthRange, mode.wrapped));
    if tint then PlayerTint(gray, bodyIndex, active, colors) else gray
  }

  /** `shade` tinted with the colour of the pixel's remapped palette slot, if it has a player. */
  function PlayerTint(shade: Shade, bodyIndex: byte, active: byte, colors: seq<ColorBGRA>): Shade
    requires ModernPaletteCovers(bodyIndex, active, colors)
  {
    var slot := RemapBodyIndex(bodyIndex, active);
    if slot == NO_ACTIVE_PLAYER then shade else Tinted(shade, colors[slot])
  }

  /** The palette has a colour for every slot the remap can produce for this pixel. */
  predicate ModernPaletteCovers(bodyIndex: byte, active: byte, colors: seq<ColorBGRA>) {
    var slot := RemapBodyIndex(bodyIndex, active);
    slot == NO_ACTIVE_PLAYER || slot < |colors|
  }

  /** The active player always gets the first palette colour and "nobody" is never tinted. */
  lemma ModernShadeTints(depth: ushort, bodyIndex: byte, minDepth: int, depthRange: int,
                         mode: DepthImageMode, active: byte, colors: seq<ColorBGRA>)
    requires 0 < depthRange && ModernPaletteCovers(bodyIndex, active, colors)
    ensures var s := ModernShade(depth, bodyIndex, minDepth, depthRange, mode, true, active, colors);
            var g := Gray(Intensity(depth, minDepth, depthRange, mode.wrapped));
            && (bodyIndex == NO_ACTIVE_PLAYER ==> s == g)
            && (active != NO_ACTIVE_PLAYER && bodyIndex == active ==> s == Tinted(g, colors[0]))
  {
  }

  /*
   * Legacy packed depth words. The low three bits are the player number
   * (0 = nobody, n = player n - 1) and the rest, shifted right by three, is the
   * depth in millimetres. The words are C# `short`s, so `>>` is an arithmetic
   * shift (floor division by 8) and `& 7` the Euclidean remainder.
   */

  const INDEX_MASK := 7

  /** `depthData[i] >> 3`, as an `int`. */
  function PackedDepth(raw: short): (d: int)
    ensures raw >= 0 ==> 0 <= d < 4096
    ensures raw < 0 ==> -4096 <= d < 0
  {
    raw / 8
  }

  /** `depthData[i] & INDEX_MASK`. */
  function PackedPlayer(raw: short): (p: int)
    ensures 0 <= p <= INDEX_MASK
  {
    raw % 8
  }

  /** The legacy `GetDepth`: `(ushort)(raw >> 3)`. */
  function LegacyDepth(raw: short): (d: ushort)
    ensures raw >= 0 ==> d == PackedDepth(raw)
    ensures raw < 0 ==> d == PackedDepth(raw) + 0x1_0000
  {
    (raw / 8) % 0x1_0000
  }

  /** The legacy `GetPlayerIndex`: 255 for player number 0, else the number minus one. */
  function LegacyPlayerIndex(raw: short): (p: byte)
    ensures p == NO_ACTIVE_PLAYER || p <= 6
    ensures p == NO_ACTIVE_PLAYER <==> PackedPlayer(raw) == 0
  {
    var n := raw % 8;
    if n == 0 then NO_ACTIVE_PLAYER else n - 1
  }

  /** What the sensor writes: a depth below 4096 and a player number 0..7. */
  function Pack(depth: int, player: int): (raw: short)
    requires 0 <= depth < 4096 && 0 <= player <= INDEX_MASK
  {
    depth * 8 + player
  }

  /** Unpacking recovers what was packed; player number 0 reads back as "nobody". */
  lemma UnpackPack(depth: int, player: int)
    requires 0 <= depth < 4096 && 0 <= player <= INDEX_MASK
    ensures LegacyDepth(Pack(depth, player)) == depth
    ensures PackedPlayer(Pack(depth, player)) == player
    ensures LegacyPlayerIndex(Pack(depth, player)) == if player == 0 then NO_ACTIVE_PLAYER else player - 1
  {
    var raw := Pack(depth, player);
    assert raw / 8 == depth && raw % 8 == player;
  }

  /*
   * Legacy palette remap, as written: the comparison `0 < p && p < active`
   * uses the 0-based active index against the 1-based player number, and the
   * palette slot is `p - 1`.
   */

  function LegacyRemapPlayer(p: int, active: byte): (r: int)
    requires 0 <= p <= INDEX_MASK
    ensures 0 <= r <= INDEX_MASK + 1
    ensures p == 0 ==> r == 0
    ensures active != NO_ACTIVE_PLAYER && p == active + 1 ==> r == 1
    ensures active != NO_ACTIVE_PLAYER && 0 < p < active ==> r == p + 1
    ensures active == NO_ACTIVE_PLAYER || (p != active + 1 && !(0 < p < active)) ==> r == p
  {
    if active != NO_ACTIVE_PLAYER then
      if p == active + 1 then 1
      else if 0 < p && p < active then p + 1
      else p
    else
      p
  }

  /**
   * Because of that comparison, player numbers `active - 1` and `active` both
   * land on number `active` (palette slot `active - 1`) once two players below
   * the active one are present.
   */
  lemma LegacyRemapSharesSlot(active: byte)
    requires 2 <= active <= 6
    ensures LegacyRemapPlayer(active - 1, active) == LegacyRemapPlayer(active, active) == active
  {
  }

  /**
   * With active index 1 the shift test never fires: player 1 stays 1 and the
   * active player, number 2, also becomes 1, so both take the first colour.
   */
  lemma LegacyRemapActiveOneShares()
    ensures LegacyRemapPlayer(1, 1) == LegacyRemapPlayer(2, 1) == 1
  {
  }

  /** The slot the active player lands on is the first palette colour. */
  lemma LegacyActiveGetsFirstColor(active: byte)
    requires active <= 6
    ensures LegacyRemapPlayer(active + 1, active) - 1 == 0
  {
  }

  /**
   * The remap with the comparison made against the active player's 1-based
   * number `active + 1`, as the modern engine does with 0-based indices.
   */
  function LegacyRemapPlayerCorrected(p: int, active: byte): (r: int)
    requires 0 <= p <= INDEX_MASK
    ensures 0 <= r <= INDEX_MASK + 1
    ensures p == 0 ==> r == 0
  {
    if active != NO_ACTIVE_PLAYER then
      if p == active + 1 then 1
      else if 0 < p && p < active + 1 then p + 1
      else p
    else
      p
  }

  /**
   * With the corrected comparison the active player still gets the first
   * colour, and no two player numbers share a palette slot.
   */
  lemma LegacyRemapCorrectedInjective(p: int, q: int, active: byte)
    requires 0 <= p <= INDEX_MASK && 0 <= q <= INDEX_MASK
    ensures active != NO_ACTIVE_PLAYER && p == active + 1 ==> LegacyRemapPlayerCorrected(p, active) == 1
    ensures LegacyRemapPlayerCorrected(p, active) == LegacyRemapPlayerCorrected(q, active) ==> p == q
  {
  }

  /** The palette has a colour for every remapped player of this word. */
  predicate LegacyPaletteCovers(raw: short, active: byte, colors: seq<ColorBGRA>) {
    var r := LegacyRemapPlayer(PackedPlayer(raw), active);
    r == 0 || r - 1 < |colors|
  }

  /** Every legacy player number 0..6 has one of six palette colours after the remap. */
  lemma LegacyRemapStaysInPalette(raw: short, active: byte, colors: seq<ColorBGRA>)
    requires PackedPlayer(raw) <= 6 && (active < 6 || active == NO_ACTIVE_PLAYER) && 6 <= |colors|
    ensures LegacyPaletteCovers(raw, active, colors)
  {
  }

  /** The tint loop on one legacy pixel: remapped player number `r` takes palette slot `r - 1`. */
  function LegacyTint(shade: Shade, raw: short, active: byte, colors: seq<ColorBGRA>): Shade
    requires LegacyPaletteCovers(raw, active, colors)
  {
    var r := LegacyRemapPlayer(PackedPlayer(raw), active);
    if r == 0 then shade else Tinted(shade, colors[r - 1])
  }

  /** The shade of one legacy pixel: intensity of `raw >> 3`, then the tint of slot `p - 1`. */
  function LegacyShade(raw: short, minDepth: int, depthRange: int, mode: DepthImageMode,
                       active: byte, colors: seq<ColorBGRA>): Shade
    requires 0 < depthRange
    requires mode.userColor ==> LegacyPaletteCovers(raw, active, colors)
  {
    var gray := Gray(Intensity(PackedDepth(raw), minDepth, depthRange, mode.wrapped));
    if mode.userColor then LegacyTint(gray, raw, active, colors) else gray
  }
}
