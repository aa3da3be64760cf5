# Kinect frame-state engine, modelled in Dafny

This project models the core of KinectDXBootstrap. That core is the frame-state engine that fuses a depth camera's colour, depth, body-index and body (skeleton) streams into one per-frame state. It comes in two drop-in variants:

- the **modern** engine (`KinectState.cs`, second-generation sensor);
- the **legacy** engine (`Legacy/KinectState.cs`, first-generation sensor), with its adapters for coordinate mapping, enum and flag conversion, and the body record.

Modules, leaves first:

| module | file | models |
|---|---|---|
| `KinectTypes` | kinect_types.dfy | C# integer widths, the modern SDK's points, joints and bodies, the `FrameSourceTypes` bit set (as a set), `DepthImageMode` (three flags), the default palette |
| `LegacyTypes` | legacy_types.dfy | the legacy SDK's skeleton points, joints, skeletons, edge flags |
| `Extensions` | extensions.dfy | the joint comparison helpers and `Position(body)` |
| `Conversion` | conversion.dfy | `Conversions.Convert` for points, tracking states, frame edges, joint types |
| `DepthVisual` | depth_visual.dfy | depth-to-intensity arithmetic, both palette remaps, legacy packed depth words |
| `Selection` | selection.dfy | the active-subject rule: minimum of `abs(x) + abs(2 - z)` over tracked slots, first slot on ties |
| `LegacyBody` | legacy_body.dfy | class `Body`: in-place joint-map update, constant sentinel getters |
| `LegacyMapping` | legacy_mapping.dfy | class `CoordinateMapper`: single-point field copies, batch and frame-wide loops that stop at the shorter array |
| `ModernState` | kinect_state.dfy | class `KinectState` (modern): decoders, `modified` dirty set, availability edge, depth enumeration, `Render` |
| `LegacyState` | legacy_state.dfy | class `KinectState` (legacy): decoders, sticky three-way report gate, packed-depth enumeration, `Render` |

Modelling choices:

- Frames an SDK hands over are `Option` values: `None` is a null frame. Subset types state what the SDK guarantees about a frame: a pixel count of width × height, a reliable maximum above the reliable minimum, and six body or skeleton slots.
- `FrameSourceTypes` flags are a `set<FrameSource>`. `|=` is union and `(x & S) != 0` is membership.
- C# casts are written out: `(byte)`, `(ushort)(raw >> 3)`, `(short)` of a `ushort`, `(int)` of a float (truncation toward zero), `(ulong)` of an `int`.
- Scores and coordinates are `real`.
- `ColorBGRA` multiplication is left symbolic. A pixel is a `Shade`: `Gray(level)`, or `Tinted(shade, colour)`.
- The legacy SDK's mapper is a record of function values.
- Texture uploads are modelled as the snapshot of the buffer that was uploaded (`colorImage`, `depthImage`).
- The legacy remap's comparison against the 0-based active index, `IsRightOf` comparing Y, and the legacy `depthNeedRender` that is never cleared are all reproduced as written. The first two are listed under Findings, each with a corrected definition proved beside it; the legacy `Render` keeps the remap as written, since that is the image the code draws.
- Wrapped intensity for a distance of 2000 is `2000 % 255 = 215`, as the code computes (`DepthVisual.IntensityExamples`).
- "No player" in the body-index buffer is 255 (`NO_ACTIVE_PLAYER`), as in the code, not any small index.

## Model

| member | source | states |
|---|---|---|
| `Extensions.AboveIsMirroredBelow` | Extensions.cs:16-23 | `IsAbove(a,b)` holds iff `IsBelow(b,a)`, and `IsAbove(a,b)` and `IsBelow(a,b)` never both hold |
| `Extensions.StrictComparisons` | Extensions.cs:12-27 | `IsLeftOf` and `IsBehind` are irreflexive and asymmetric |
| `Extensions.RightOfIsBelow` | Extensions.cs:20-31 | `IsRightOf` as written equals `IsBelow` for every pair of joints |
| `Extensions.RightOfCorrectedMirrorsLeft` | Extensions.cs:24-31 | the corrected "right of", comparing X, holds iff the other joint is left of this one, and never together with `IsLeftOf` |
| `Extensions.RightOfIgnoresX` | Extensions.cs:24-31 | a concrete pair for which a joint is both left of and "right of" another |
| `Conversion.PointRoundTrip` | Legacy/Conversion.cs:17-25 | the skeleton-point conversion copies X, Y, Z; it and the mapper's inverse initialiser undo each other |
| `Conversion.ConvertTrackingState` | Legacy/Conversion.cs:26-38 | the result is Tracked iff the input is Tracked, Inferred iff Inferred, and NotTracked otherwise |
| `Conversion.ConvertEdges` | Legacy/Conversion.cs:39-59 | each of Bottom, Left, Right, Top is set in the output iff it is set in the input; no other bit is set |
| `Conversion.JointTypeRoundTrip` | Legacy/Conversion.cs:61-104 | every legacy joint maps to a modern joint that maps back to it; the five modern-only joints have no legacy origin |
| `Conversion.ConvertJointTypeInjective` | Legacy/Conversion.cs:61-109 | no two legacy joints map to the same modern joint, so the switch's default arm is unreachable |
| `Conversion.JointRoundTrip` | Legacy/Body.cs:37-43 | a converted joint's type maps back to the legacy type, its position converts back to the legacy point, and it is Tracked (Inferred) iff the legacy joint is |
| `Conversion.RenamedJoints` | Legacy/Conversion.cs:83-100 | HipCenter becomes SpineBase, ShoulderCenter becomes SpineShoulder, Spine becomes SpineMid |
| `DepthVisual.Distance` | KinectState.cs:165-167 | `min(depth - minDepth, depthRange)` lies in `[0, depthRange]`: the raw offset inside the range, `depthRange` beyond it |
| `DepthVisual.Intensity` | KinectState.cs:162-181 | below or at the minimum gives 0; wrapped mode is always at most 254; linear mode saturates at 255 at or beyond the maximum |
| `DepthVisual.LinearLevel` | KinectState.cs:172-175 | `255 * distance / depthRange` is a byte: 0 at distance 0, 255 at the full range |
| `DepthVisual.LinearLevelBounds` | KinectState.cs:174 | the linear level lies in `[0, 255]` for every distance in range |
| `DepthVisual.LinearIntensityMonotone` | KinectState.cs:165-175 | in linear mode a farther sample is never darker |
| `DepthVisual.WrappedIntensityPeriodic` | KinectState.cs:168-171 | inside the reliable range, wrapped intensity repeats every 255 depth units |
| `DepthVisual.IntensityExamples` | KinectState.cs:162-181 | range 500..4500: depth 2500 gives 127 (linear) and 215 (wrapped); depth 400 gives 0 in both modes |
| `DepthVisual.RemapBodyIndex` | KinectState.cs:186-200 | with an active player `a`, index `a` becomes 0, `b < a` becomes `b + 1`, `b > a` is unchanged; with no active player nothing changes |
| `DepthVisual.RemapKeepsNoPlayer` | KinectState.cs:189-204 | a "no player" (255) pixel stays 255, so it is never tinted |
| `DepthVisual.RemapIsBijection` | KinectState.cs:189-200 | the remap has an inverse for every active index, and it maps `[0..a]` onto `[0..a]` |
| `DepthVisual.RemapStaysInPalette` | KinectState.cs:186-207 | for body indices and an active index below the palette size, the remapped slot is in the palette or 255 |
| `DepthVisual.ModernShadeTints` | KinectState.cs:181-208 | a "no player" pixel stays grey; the active player's pixel gets the first palette colour |
| `DepthVisual.PackedDepth` | Legacy/KinectState.cs:135 | `raw >> 3` of a non-negative word is below 4096; of a negative word it is negative |
| `DepthVisual.PackedPlayer` | Legacy/KinectState.cs:159 | `raw & 7` lies in `[0, 7]` |
| `DepthVisual.LegacyDepth` | Legacy/KinectState.cs:73-76 | `(ushort)(raw >> 3)`: the shifted word, wrapped into 16 bits when the word is negative |
| `DepthVisual.LegacyPlayerIndex` | Legacy/KinectState.cs:77-81 | the result is 255 iff `raw & 7 == 0`, and otherwise lies in `[0, 6]` |
| `DepthVisual.UnpackPack` | Legacy/KinectState.cs:73-81 | unpacking a word packed from depth `d` and player `p` gives back `d` and `p`, and player 0 reads as 255 |
| `DepthVisual.LegacyRemapPlayer` | Legacy/KinectState.cs:157-171 | as written: `p == 0` stays 0, `p == active + 1` becomes 1, `0 < p < active` becomes `p + 1`, every other `p` is unchanged |
| `DepthVisual.LegacyRemapSharesSlot` | Legacy/KinectState.cs:163-170 | because of the comparison against the 0-based index, players `active - 1` and `active` land on the same palette slot |
| `DepthVisual.LegacyRemapActiveOneShares` | Legacy/KinectState.cs:160-170 | with active index 1, player 1 is not shifted and the active player (number 2) also becomes 1, so the two share the first palette slot |
| `DepthVisual.LegacyRemapPlayerCorrected` | Legacy/KinectState.cs:160-171 | the remap with the comparison against the 1-based number `active + 1`: player 0 stays 0, and the result stays within one past the player range |
| `DepthVisual.LegacyRemapCorrectedInjective` | Legacy/KinectState.cs:160-171 | with the corrected comparison the active player still lands on number 1 and no two player numbers share a palette slot |
| `DepthVisual.LegacyActiveGetsFirstColor` | Legacy/KinectState.cs:163-177 | the active player's word uses palette index `1 - 1 = 0` |
| `DepthVisual.LegacyRemapStaysInPalette` | Legacy/KinectState.cs:157-178 | player numbers 0..6 with six colours never index outside the palette |
| `Selection.Best` | KinectState.cs:341-355 | the chosen slot, when there is one, is one of the frame's slots |
| `Selection.BestSpec` | KinectState.cs:341-357 | the choice is empty iff no slot is tracked; otherwise it is the tracked slot of minimal score, lowest index among ties |
| `Selection.FirstBestUnique` | KinectState.cs:341-345 | at most one slot is first among the minimal scores, so the choice is deterministic |
| `Selection.BestIsFirstBest` | KinectState.cs:341-355 | any slot with the stable-sort-first property is exactly the one chosen |
| `Selection.TieGoesToLowestSlot` | KinectState.cs:341-355 | scores 3, 1, 1 choose slot 1, never slot 2 |
| `ModernState.Candidates` | Extensions.cs:32-35 | one candidate per body slot, placed at `Position(body)` (the SpineMid joint) and marked with the body's tracked flag |
| `ModernState.SelectionAfter` | KinectState.cs:340-357 | a body frame selects someone iff some body is tracked; the selected slot is first-best; otherwise 255; `HadPlayer` is the prior non-null status; no frame changes nothing |
| `ModernState.RedrawsDepthCorrected` | KinectState.cs:154-160 | the corrected redraw condition never redraws without depth data and agrees with the source once depth data exists |
| `ModernState.BodyFrameBeforeDepth` | KinectState.cs:154-160 | a reachable state (IncludeJoints, a body frame, no depth frame) where the source's condition redraws with no depth buffer |
| `ModernState.PixelTestsMatchShading` | KinectState.cs:53-67 | a pixel with `IsValidDepth` is shaded on the linear scale, one below the range black and one above it white; `HasPlayer` holds iff the tint pass tints the pixel |
| `ModernState.KinectState.constructor` | KinectState.cs:131-136 | a new engine has no buffers, nothing dirty, the default palette and Normal mode |
| `ModernState.KinectState.AvailabilityChanged` | KinectState.cs:134 | the availability notification sets `IsAvailable` |
| `ModernState.KinectState.GetDepthReadsFrame` | KinectState.cs:249-252 | after a depth frame, the sample at column `x`, row `y` lies in the buffer and is the frame's sample `y * width + x` |
| `ModernState.KinectState.GetPlayerIndexReadsFrame` | KinectState.cs:253-256 | after a body-index frame, the index at column `x`, row `y` of the depth image is the frame's entry `y * width + x` |
| `ModernState.KinectState.ActivePlayerAfterFrame` | KinectState.cs:346-357 | after a body frame, `ActivePlayer` is none iff no body is tracked, and otherwise is the frame's body in the slot `Best` chooses |
| `ModernState.KinectState.UpdateBody` | KinectState.cs:319-363 | a null frame returns false and changes nothing; otherwise slots are allocated once and refreshed, the selection is recomputed, and Body is added to `modified` |
| `ModernState.KinectState.UpdateBodyIndex` | KinectState.cs:364-380 | a null frame changes nothing; otherwise the buffer is allocated once, holds the frame, and BodyIndex is added to `modified` |
| `ModernState.KinectState.UpdateColor` | KinectState.cs:381-406 | a null frame changes nothing; otherwise the buffer is allocated once (size recorded then), holds the BGRA bytes, and Color is added |
| `ModernState.KinectState.UpdateDepth` | KinectState.cs:407-435 | the buffer is allocated once; a missing body-index buffer is created then at the same length, all 255; the reliable range is refreshed every frame; Depth is added |
| `ModernState.KinectState.UpdateInfrared` | KinectState.cs:436-452 | a null frame changes nothing; otherwise the buffer is allocated once, holds the frame, and Infrared is added |
| `ModernState.KinectState.UpdateLongExposure` | KinectState.cs:453-469 | as for infrared, with the LongExposureInfrared bit |
| `ModernState.KinectState.UpdateMulti` | KinectState.cs:303-317 | a null multi-source frame returns false and changes nothing: no dirty bit, same selection, every buffer with its contents, size and reliable range; otherwise the result is true, every referenced frame is decoded with its bit added, and every source without a frame keeps its buffer, contents, size and range (a first depth frame without a body-index buffer brings one filled with 255); availability is untouched |
| `ModernState.KinectState.Update` | KinectState.cs:282-301 | the result is true iff availability changed since the last call or a multi-source frame arrived; `wasAvailable` is then in sync; each frame the multi-source frame references is decoded with its bit added, and every source without a frame keeps its buffer and contents (except the no-player buffer a first depth frame brings); without a multi-source frame nothing is decoded and every buffer, its contents, the depth range and the selection stay |
| `ModernState.KinectState.RecordAvailability` | KinectState.cs:284-289 | reports true iff availability differs from the last recorded value, and records the current one |
| `ModernState.KinectState.UpdateTwiceWithoutFrames` | KinectState.cs:282-301 | with no frames, the availability edge is reported once and a second call returns false |
| `ModernState.KinectState.DepthData` | KinectState.cs:258-279 | empty without a depth buffer; otherwise row-major pixels with `Index == Y*W + X`, `MaxDepth == minDepth + depthRange`, depth and player as `GetDepth`/`GetPlayerIndex`, and `IsValidDepth`/`HasPlayer` as range and "not 255" tests |
| `ModernState.KinectState.Render` | KinectState.cs:138-247 | returns exactly the `modified` set held on entry and clears it; uploads colour iff Color is set; redraws depth iff Depth is set, or IncludeJoints and Body are set (given depth data); otherwise the depth image and buffer are untouched |
| `ModernState.KinectState.RedrawDepth` | KinectState.cs:156-211 | the render buffer is allocated once; every pixel is the intensity shade of its sample, tinted by its remapped player when UserColor is on |
| `ModernState.NoPlayerBuffer` | KinectState.cs:418-425 | the pre-filled body-index buffer has the requested length and holds 255 everywhere |
| `ModernState.ShadeByDepth` | KinectState.cs:162-182 | every pixel becomes `Gray(Intensity(depth[i]))` |
| `ModernState.TintPlayers` | KinectState.cs:183-210 | every pixel is tinted with the palette colour of its remapped body index, or left alone for 255 |
| `ModernState.SixColoursCover` | KinectState.cs:81-88 | with six colours and body indices 0..5 or 255, every remapped index has a palette colour |
| `LegacyState.SelectionAfter` | Legacy/KinectState.cs:326-342 | no skeleton frame changes nothing; with one, `HadPlayer` is the prior non-null status and nobody selected means index 255 |
| `LegacyState.SelectionAfterChoosesBest` | Legacy/KinectState.cs:326-342 | a player is selected iff some skeleton is Tracked, and the slot is the first with the minimal score |
| `LegacyState.Gate` | Legacy/KinectState.cs:248-262 | the flags accumulate with `or`; the round completes iff all three are set, and then all three are cleared |
| `LegacyState.NoColorNoCompletion` | Legacy/KinectState.cs:248-262 | without a colour frame no round ever reports a new frame |
| `LegacyState.CompletionStartsOver` | Legacy/KinectState.cs:251-258 | after a report, the next round reports only if all three sources deliver in it |
| `LegacyState.Candidates` | Legacy/KinectState.cs:326-331 | one candidate per skeleton slot, placed at the converted skeleton position and marked iff the skeleton is Tracked |
| `LegacyState.KinectState.constructor` | Legacy/KinectState.cs:64-71 | a new engine has no buffers, no bodies, no flags raised, and the default palette |
| `LegacyState.KinectState.ReadsPackedPixel` | Legacy/KinectState.cs:73-81 | a word packed from depth `d` and player number `p` reads back through `GetDepth` as `d` and through `GetPlayerIndex` as `p - 1`, or 255 for `p == 0` |
| `LegacyState.KinectState.ActivePlayerAfterFrame` | Legacy/KinectState.cs:332-342 | after a skeleton frame, `ActivePlayer` is none iff no skeleton is Tracked, and otherwise is the body in the slot `Best` chooses |
| `LegacyState.KinectState.UpdateColor` | Legacy/KinectState.cs:265-282 | a null frame returns false and changes nothing; otherwise the buffer and size are fixed on the first frame, the frame is copied in, and `colorNeedRender` is raised |
| `LegacyState.KinectState.UpdateDepth` | Legacy/KinectState.cs:284-303 | as for colour, and the reliable minimum and range are refreshed on every depth frame; a null frame keeps buffer, contents, size and range |
| `LegacyState.KinectState.UpdateSkeletons` | Legacy/KinectState.cs:305-348 | skeleton and body arrays are allocated once with six slots; each body is updated from its slot; the selection follows `SelectionAfter`; a null frame keeps the skeletons, every body and the selection |
| `LegacyState.KinectState.CopySkeletons` | Legacy/KinectState.cs:311-324 | the skeleton buffer holds the frame and each `players[i]` holds its previous value updated from `skeletons[i]` |
| `LegacyState.KinectState.SelectActivePlayer` | Legacy/KinectState.cs:326-342 | the selection fields become `SelectionAfter` of the frame |
| `LegacyState.KinectState.UpdateSensor` | Legacy/KinectState.cs:235-263 | the mapper is created once; availability follows `IsRunning`; the result is true iff the gate completes or availability changed; each arrived frame is copied in and raises its "needs render" flag, and the selection follows the skeleton frame |
| `LegacyState.KinectState.Attach` | Legacy/KinectState.cs:237-246 | the mapper is created from the first sensor and kept; the result says whether `IsRunning` differs from the old availability |
| `LegacyState.KinectState.RecordArrivals` | Legacy/KinectState.cs:248-262 | the three sticky flags and the result follow `Gate` |
| `LegacyState.KinectState.Update` | Legacy/KinectState.cs:222-234 | a chooser stands for its sensor, which is updated with everything `UpdateSensor` promises (mapper, availability, gate, decoded frames, render flags); anything else, or a chooser without a sensor, returns false and changes no field, buffer or body |
| `LegacyState.KinectState.DepthData` | Legacy/KinectState.cs:82-105 | empty without a depth buffer; otherwise row-major pixels unpacked as `GetDepth`/`GetPlayerIndex`, with "has player" iff `raw & 7 != 0` |
| `LegacyState.KinectState.Render` | Legacy/KinectState.cs:106-220 | Color iff `colorNeedRender` was set, which is then cleared; Depth whenever `depthNeedRender`, which is never cleared; BodyIndex only with UserColor; Body only with IncludeJoints and an active player |
| `LegacyState.KinectState.RedrawDepth` | Legacy/KinectState.cs:124-183 | every pixel is the intensity shade of `raw >> 3`, tinted with palette index `p - 1` of the remapped player when UserColor is on |
| `LegacyState.NewPlayers` | Legacy/KinectState.cs:314-318 | six fresh, distinct, freshly constructed bodies |
| `LegacyState.UpdatePlayers` | Legacy/KinectState.cs:321-324 | each body becomes its old value updated from the skeleton in the same slot |
| `LegacyState.ShadePackedDepth` | Legacy/KinectState.cs:131-153 | every pixel becomes the grey level of the depth part `raw >> 3` |
| `LegacyState.TintPackedPlayers` | Legacy/KinectState.cs:154-180 | every pixel is tinted with `colors[r - 1]` for the remapped player `r`, or left alone for `r == 0` |
| `LegacyState.SixColoursCover` | Legacy/KinectState.cs:172-178 | with six colours and player numbers 0..6, the tint never indexes outside the palette |
| `LegacyState.RenderTwice` | Legacy/KinectState.cs:106-130 | once a depth frame has arrived, two renders in a row both redraw depth, and the second does not re-upload colour |
| `LegacyBody.ToUlong` | Legacy/Body.cs:47 | `(ulong)` of a non-negative id is the id; a negative id wraps by 2^64 |
| `LegacyBody.ApplyJointsKeys` | Legacy/Body.cs:35-44 | after the update the joint map's keys are the old keys plus the converted types; the map never shrinks |
| `LegacyBody.ApplyJointsKeepsOthers` | Legacy/Body.cs:35-44 | keys no incoming joint converts to keep their previous entries |
| `LegacyBody.ApplyJointsWrites` | Legacy/Body.cs:35-44 | each incoming joint (the last of its type) ends up under its converted type with converted position and state |
| `LegacyBody.UpdatedFields` | Legacy/Body.cs:33-48 | `IsTracked` iff the skeleton is Tracked; `ClippedEdges` is the converted edges; the id is preserved when non-negative; the joint map grows and keeps untouched keys |
| `LegacyBody.Body.constructor` | Legacy/Body.cs:27 | a new body has an empty joint map, no edges, untracked, id 0 |
| `LegacyBody.Body.Update` | Legacy/Body.cs:33-48 | the body's new value is `Updated` of its old value and the skeleton |
| `LegacyBody.SentinelsAreConstant` | Legacy/Body.cs:18-30 | hand confidences are Low, hand states are Unknown, not restricted, lean (0,0) NotTracked, no joint orientations, for every body |
| `LegacyMapping.Truncate` | Legacy/CoordinateMapper.cs:137-138 | `(int)x` truncates toward zero |
| `LegacyMapping.ToShort` | Legacy/CoordinateMapper.cs:79 | `(short)` of a `ushort` keeps values below 32768 and wraps the rest to negatives |
| `LegacyMapping.TruncateIntegral` | Legacy/CoordinateMapper.cs:168-175 | whole-number coordinates survive the truncation |
| `LegacyMapping.TruncateTowardZero` | Legacy/CoordinateMapper.cs:137-138 | -0.5 becomes 0, -1.5 becomes -1, 1.5 becomes 1 |
| `LegacyMapping.CoordinateMapper.constructor` | Legacy/CoordinateMapper.cs:24-28 | the adapter keeps the SDK mapper it was built with |
| `LegacyMapping.CoordinateMapper.CameraMappingsPassThrough` | Legacy/CoordinateMapper.cs:48-75 | a camera point reaches the SDK field for field, and X and Y of its answer come back unchanged |
| `LegacyMapping.CoordinateMapper.DepthMappingsPassThrough` | Legacy/CoordinateMapper.cs:168-196 | a whole-pixel depth point reaches the SDK unchanged, and X, Y (and Z) of its answer come back unchanged |
| `LegacyMapping.CoordinateMapper.MapCameraPointsToColorSpace` | Legacy/CoordinateMapper.cs:31-38 | exactly the indices below `min(in, out)` hold the single-point mapping of the same input; later outputs are unchanged |
| `LegacyMapping.CoordinateMapper.MapCameraPointsToDepthSpace` | Legacy/CoordinateMapper.cs:39-46 | as above, into depth space |
| `LegacyMapping.CoordinateMapper.MapDepthPointsToCameraSpace` | Legacy/CoordinateMapper.cs:130-148 | indices below `min(points, out)` hold the single-point mapping with `depths[i]`; needs `depths` at least that long; later outputs unchanged |
| `LegacyMapping.CoordinateMapper.MapDepthPointsToColorSpace` | Legacy/CoordinateMapper.cs:149-166 | as above, into colour space |
| `LegacyMapping.CoordinateMapper.MapColorFrameToCameraSpace` | Legacy/CoordinateMapper.cs:77-87 | only the first `min(depth frame, out)` SDK results are copied out, converted; the rest of the output is unchanged |
| `LegacyMapping.CoordinateMapper.MapColorFrameToDepthSpace` | Legacy/CoordinateMapper.cs:88-102 | as above, copying X and Y of each depth point |
| `LegacyMapping.CoordinateMapper.MapDepthFrameToCameraSpace` | Legacy/CoordinateMapper.cs:103-113 | as above, from the depth-frame mapping |
| `LegacyMapping.CoordinateMapper.MapDepthFrameToColorSpace` | Legacy/CoordinateMapper.cs:114-128 | as above, copying X and Y of each colour point |

## Left out

- The host application (`Activation.cs`): game loop, window and display modes, keyboard, audio, screenshots.
- The modern `WrappedCoordinateMapper` and `WrappedBody`: they only delegate to the SDK. The modern `Players` list of wrappers is not modelled separately; `ActivePlayer` reads the active body slot.
- Face tracking (`Update(FaceFrame)`, `ActivePlayerFace`) and the static `UseLegacy` sensor enumeration.
- GPU work: texture and render-target creation, `SetData`, render-target swapping, and drawing the 4×4 joint markers. Uploads are modelled as a snapshot of the uploaded buffer. The marker pass is not modelled beyond the Body bit the legacy `Render` returns.
- The `OnProcessColor` hook that the modern `Render` calls before uploading colour: it is foreign code.
- SDK copy and convert calls (`CopyFrameDataToArray`, `CopyConvertedFrameDataToArray`, `GetAndRefreshBodyData`, `CopyPixelDataTo`, `CopySkeletonDataTo`): each frame carries the sequence they would copy. The colour-format conversion is the frame's given BGRA bytes.
- The SDK's own point and frame mappings: uninterpreted function values.
- `ColorBGRA` multiplication: kept symbolic as `Tinted`.
- The cross-thread availability handler: an ordinary method (`AvailabilityChanged`); no concurrency.
- IEEE float behaviour: scores and coordinates are `real`.
- `ModernState.KinectState.UpdateBodyIndex`: requires later frames to match the first frame's size. The same holds for every other decoder of both engines. The source does not defend against a size change; the SDK copy would throw.
- `ModernState.KinectState.Render`: requires the palette to cover every remapped body index when it redraws depth with UserColor on. The source would throw an index exception on a short palette. `LegacyState.KinectState.Render` has the same requirement whenever depth needs rendering.
- `ModernState.KinectState.Render`: redraws depth only once a depth buffer exists (see Findings). As written, the source dereferences the missing buffer.
- `ModernState.KinectState.UpdateDepth`: requires a depth frame to have the length of an existing body-index buffer. Through `Accepts`, `UpdateMulti` and `Update` also require the body-index and depth frames of one multi-source frame to have equal lengths. The SDK delivers both at the same resolution. The source does not check this; it would only fail later, when a UserColor `Render` indexes past a shorter body-index buffer.
- `ModernState.KinectState.GetDepth`: requires an allocated depth buffer and an in-range index, where the source throws a null-reference or index exception. The same holds for `ModernState.KinectState.GetPlayerIndex` and for both legacy getters (`LegacyState.KinectState.GetDepth`, `LegacyState.KinectState.GetPlayerIndex`).
- `LegacyState.KinectState.UpdateSensor`: states that each arrived frame is decoded, but not that a stream without a frame keeps its buffer, contents, size and reliable range. `UpdateColor`, `UpdateDepth` and `UpdateSkeletons` each state that for their own stream. Carrying those facts across the skeleton decoder, which updates the bodies in place, makes the proof too costly for the verifier.
- `LegacyState.KinectState.Update`: in the sensor case, the same gap as `UpdateSensor`.
- `LegacyMapping.CoordinateMapper.MapDepthPointsToCameraSpace`: requires `depths` to cover the written indices. The source would throw an index exception otherwise. `MapDepthPointsToColorSpace` has the same requirement.

## Findings

| source | as written | input that shows it | evidently intended | confidence | as-written member | corrected member |
|---|---|---|---|---|---|---|
| KinectState.cs:154-160 | the depth redraw runs when IncludeJoints is on and the Body bit is set, and then sizes its buffer from `depthData.Length` | IncludeJoints on, a body frame arrives before any depth frame, then `Render`: `depthData` is null | redraw only once a depth frame has allocated the depth buffer | medium, not executed | `ModernState.BodyFrameBeforeDepth` | `ModernState.RedrawsDepthCorrected` |
| Extensions.cs:28-31 | `IsRightOf` compares the Y coordinates, so it is `IsBelow` under another name | joint `a` at (0, 0, 1) and joint `b` at (1, 1, 1): `a` is left of `b`, yet `a.IsRightOf(b)` holds | compare X: `joint.X > other.X`, the mirror of `IsLeftOf` | high, not executed | `Extensions.RightOfIgnoresX` | `Extensions.RightOfCorrectedMirrorsLeft` |
| Legacy/KinectState.cs:163-170 | the shift test `0 < playerIndex && playerIndex < ActivePlayerIndex` compares the 1-based player number with the 0-based active index | active index 2: player 1 is shifted to 2 and player 2 stays 2, so both get palette slot 1; active index 1: player 1 is not shifted and the active player 2 becomes 1, so both get the first colour (`DepthVisual.LegacyRemapActiveOneShares`) | compare with the active player's number, `playerIndex < ActivePlayerIndex + 1`, as the modern engine does with 0-based indices | high, not executed | `DepthVisual.LegacyRemapSharesSlot` | `DepthVisual.LegacyRemapCorrectedInjective` |
