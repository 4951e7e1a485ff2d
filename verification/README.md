# Chroma-key matte: a Dafny model

This project models the image core of a browser background remover. An RGBA
raster is loaded, and a mask of one alpha byte per pixel is built in one of two
modes:

- **Global mode** removes every pixel whose RGB distance to a target colour is
  strictly below the tolerance.
- **Magic-wand mode** flood-fills, from each clicked seed, the 4-connected
  region of pixels within the tolerance of the colour captured at the click
  (inclusive comparison).

The mask is then refined on a copy:

- **Erosion** runs `erode` passes. Each pass takes the minimum over a pixel and
  its in-grid 4-neighbours; zero pixels are skipped.
- **Feathering** is a separable box blur of radius `feather`. Its window
  shrinks at the borders, and the result is floored.

Finally the output keeps every source colour and takes its alpha from the
refined mask. Around the pipeline sit the editing state:

- a bounded undo/redo history of settings snapshots;
- mode switching;
- canvas clicks;
- the colour picker and the sliders;
- image loading and reset;
- `#rrggbb` colour parsing and formatting.

Modules, one per file:

- `Image` (`image.dfy`): bytes, colours, rasters, and row-major grid geometry
  (flat index, column/row, 4-adjacency, Manhattan distance).
- `Distance` (`distance.dfy`): the squared RGB distance, shown equivalent to
  comparing the square root.
- `GlobalMask` (`global_mask.dfy`): the global-mode mask.
- `MagicWand` (`magic_wand.dfy`): regions as path-reachable sets, the
  stack-based fill, and several seeds.
- `Erode` (`erode.dfy`): erosion passes, characterised as a minimum over a
  Manhattan ball.
- `Feather` (`feather.dfy`): the two blur passes, shown equal to a 2-D box mean.
- `Pipeline` (`pipeline.dfy`): base mask, refinement, compositing.
- `HexColor` (`hex_color.dfy`): hex parsing and formatting.
- `Editor` (`editor.dfy`): the session state machine and its history.

Decisions that shape the model:

- **Square roots.** script.js compares `Math.sqrt` of the squared distance
  with an integer tolerance. The model compares squared distance with squared
  tolerance. `GlobalMask.RemovedMatchesSqrt` shows that this agrees with the
  exact square root.
- **Float32 intermediate.** Feathering keeps its horizontal averages in a
  `Float32Array`. The model uses exact reals and proves the two passes equal the
  integer box mean `floor(BoxSum / (count_x * count_y))`.
- **Tolerance 0 in global mode.** The strict test `dist < tol`
  (script.js:480) removes nothing at tolerance 0, and the model follows it;
  see `GlobalMask.ToleranceZeroKeepsAll`.
- **Source alpha.** The source image's alpha is never read: output alpha comes
  only from the mask.
- **Browser inputs.** Values the browser supplies are parameters of the model:
  the click coordinates, the colour sampled from the displayed canvas, the
  picker's string, and the slider values.

## Model

| member | source | states |
|---|---|---|
| Distance.SqrtComparison | script.js:478-480 | for an exact square root s of the squared distance, `s < tol` iff `d² < tol²`, and `s <= tol` iff `d² <= tol²` |
| Distance.SqDistZero | script.js:478 | the squared distance is zero exactly for identical colours |
| GlobalMask.ProcessGlobalMask | script.js:467-486 | every entry is overwritten, whatever the mask held before: 0 exactly when the pixel's squared distance to the target is strictly below tol², else 255 |
| GlobalMask.RemovedMatchesSqrt | script.js:478-480 | the integer test removes a pixel exactly when the square-root test of script.js does |
| GlobalMask.ToleranceZeroKeepsAll | script.js:480 | at tolerance 0 global mode keeps every pixel, including pixels of exactly the target colour |
| GlobalMask.ToleranceOneIsExactColour | script.js:478-480 | at tolerance 1 a pixel is removed iff its colour equals the target |
| GlobalMask.RemovedMonotone | script.js:480 | raising the tolerance never brings back a removed pixel |
| MagicWand.SeedInRegion | script.js:495-518 | an in-grid seed whose pixel matches its captured colour lies in its own region |
| MagicWand.ExtendRegion | script.js:517-523 | a matching 4-neighbour of a region pixel is in the region |
| MagicWand.RegionMatches | script.js:500-518 | every region pixel is in range and within the tolerance (inclusive) of the seed colour |
| MagicWand.RegionConfined | script.js:509-525 | the region lies inside every set that contains the matching seed and is closed under matching 4-neighbours (the region is the least such set) |
| MagicWand.PushNeighbours | script.js:520-523 | the old stack is kept underneath; every pushed entry is an in-grid, unvisited 4-neighbour of the pixel; every unvisited in-grid 4-neighbour is pushed; the pushes come in the order left, right, up, down |
| MagicWand.PendingCovers | script.js:514-523 | every 4-neighbour of the popped pixel is afterwards either visited or on the stack |
| MagicWand.ClosedIsRegion | script.js:509-525 | when the stack is empty, a pixel is in the region iff it was visited and matches |
| MagicWand.CountFalseMark | script.js:514-515 | marking an unvisited pixel lowers the unvisited count by one, which bounds the loop: each pixel is processed at most once |
| MagicWand.MagicWandFill | script.js:488-526 | an out-of-grid seed leaves the mask unchanged; otherwise exactly the seed's region is set to 0, whatever the mask held, and every other entry is unchanged |
| MagicWand.ApplySeeds | script.js:430-434 | running the seeds in order, on one accumulating mask, equals applying the fills one after another |
| MagicWand.FillAllUnion | script.js:430-434 | after all seeds a pixel is 0 exactly when some seed's region claims it; otherwise it keeps its value |
| MagicWand.SeedOrderIrrelevant | script.js:430-434 | two seed lists holding the same seeds, in any order or with repeats, give the same mask |
| MagicWand.ClearedIndependentOfMask | script.js:430-434 | whether a nonzero entry is cleared does not depend on the mask's prior contents |
| Erode.ErodeAtBounds | script.js:536-542 | the eroded value is at most the pixel and each in-grid 4-neighbour, and equals one of them |
| Erode.NeighbourhoodMin | script.js:536-541 | the computed value is at most the pixel and each of its in-grid 4-neighbours in the snapshot, and equals one of them |
| Erode.LocalMinUnique | script.js:536-542 | only one value is such a neighbourhood minimum, so the value written for a nonzero pixel is that pixel's one-pass erosion |
| Erode.ErodeOnePass | script.js:532-544 | one pass over all rows and columns, reading only the snapshot, yields the pointwise erosion of the snapshot |
| Erode.ErodeBall | script.js:531-545 | after n passes each pixel holds the minimum of the input over the Manhattan ball of radius n: a lower bound of it, and attained by it |
| Erode.ApplyErode | script.js:528-546 | radius passes compose the single pass radius times (radius 0 is the identity); each output is the minimum over its radius-ball |
| Erode.ErodeZeroIff | script.js:528-546 | an output pixel is 0 iff some input pixel within Manhattan distance n is 0 |
| Erode.ErodeLowers | script.js:537-542 | erosion never raises a value, and one more pass never raises it either |
| Erode.ErodeKeepsBinary | script.js:537-542 | a 0/255 mask stays 0/255 |
| Erode.ErodeUniformFixed | script.js:537-542 | a constant mask is unchanged by any number of passes |
| Feather.HorizontalWindow | script.js:554-562 | the row window sums exactly the in-range columns of [x-r, x+r] and counts between 1 and 2r+1 of them |
| Feather.VerticalWindow | script.js:568-576 | the column window sums the intermediate values of the in-range rows of [y-r, y+r] and counts between 1 and 2r+1 of them |
| Feather.HorizontalPass | script.js:552-565 | every intermediate value is the mean of its in-range row window |
| Feather.VerticalPass | script.js:566-579 | every output is the floored mean of its column window of row means, which is the 2-D box mean |
| Feather.TwoPassIsBoxMean | script.js:548-580 | the floored mean of column windows of row means equals floor(box sum / (count_x * count_y)) |
| Feather.ApplyFeather | script.js:548-580 | every output is the floored mean of the input over its clipped (2r+1)x(2r+1) box; radius 0 returns the input |
| Feather.FeatherBounds | script.js:563-577 | the box mean lies between the least and the greatest input value in its box |
| Feather.FeatherIsByte | script.js:577 | every feathered value fits in a byte |
| Feather.FeatherUniform | script.js:548-580 | a constant mask is unchanged |
| Feather.FeatherRadiusZero | script.js:549 | at radius 0 the box mean is the pixel itself |
| Pipeline.ComputeBase | script.js:421-435 | starting from all 255, the base mask is the global mask in global mode and the union of the seed regions in magic mode |
| Pipeline.Refine | script.js:438-450 | the refined mask is the base mask eroded and then feathered; skipping a zero-size step gives the same result |
| Pipeline.Composite | script.js:453-462 | every output pixel keeps the source R, G, B and takes its alpha from the mask |
| Pipeline.ProcessImage | script.js:410-465 | no image gives no output; otherwise the stored base mask is the unrefined mask, and the canvas shows source colours with eroded-then-feathered alpha |
| Pipeline.NoRefinementShowsBase | script.js:438-450 | with neither erosion nor feathering the canvas alpha is the base mask |
| Pipeline.MagicWithoutSeedsIsOpaque | script.js:421-435 | magic mode with no seeds shows every pixel fully opaque, for any erosion and feathering |
| Pipeline.GlobalZeroToleranceIsOpaque | script.js:480 | global mode at tolerance 0 shows every pixel fully opaque |
| Pipeline.UniformTargetVanishes | script.js:427-462 | an image entirely of the target colour becomes fully transparent in global mode at any positive tolerance |
| HexColor.HexToRgb | script.js:604-607 | a string that is not an optional '#' followed by six hex digits parses to (0, 255, 0) |
| HexColor.RgbToHexDigits | script.js:609-611 | formatting 2^24 + packed channels in base 16 and dropping the leading digit gives '#' and two lowercase digits per channel |
| HexColor.RgbToHexShape | script.js:609-611 | the formatted string is '#' followed by six lowercase hex digits |
| HexColor.ParseFormat | script.js:604-611 | parsing the formatted string of any colour gives the colour back |
| HexColor.FormatParse | script.js:604-611 | formatting the parse of a well-formed string gives '#' and its six digits in lowercase |
| Editor.Initial | script.js:2-18 | the start state is valid, with an empty history and no image |
| Editor.SaveState | script.js:54-73 | the redo branch is dropped; the history becomes the newest at most 20 entries of the kept prefix plus the live settings; the index points at the last entry; nothing is left to redo; undo steps back to the snapshot that was current before, even when the oldest snapshot was forgotten |
| Editor.Undo | script.js:75-123 | with an earlier snapshot, the index moves back by exactly one and that snapshot is restored; otherwise nothing changes |
| Editor.Redo | script.js:83-123 | with a later snapshot, the index moves forward by exactly one and that snapshot is restored; otherwise nothing changes |
| Editor.RedoUndo | script.js:75-89 | on a synced session, undo then redo returns the same session |
| Editor.UndoRedo | script.js:75-89 | on a synced session, redo then undo returns the same session |
| Editor.SaveTwice | script.js:54-73 | a second save appends another copy of the live settings while the history is not full |
| Editor.SetMode | script.js:164-172 | choosing the current mode changes nothing; otherwise the mode changes, global mode discards the seeds, and the new settings are committed on top of the current snapshot: the older history is kept (newest 20), nothing is left to redo, and undo steps back to the previous snapshot |
| Editor.UndoSetMode | script.js:164-172 | undoing a mode change restores the previous settings |
| Editor.Click | script.js:264-287 | without an image nothing happens; otherwise the sampled colour becomes the target, magic mode appends one seed at the click with that colour, and the new settings are committed on top of the current snapshot (older history kept, nothing to redo, undo steps back to it) |
| Editor.UndoClick | script.js:264-287 | a magic-mode click adds exactly one seed, and undo removes it |
| Editor.PickColorInput | script.js:255-262 | outside magic mode, dragging the picker sets the target to the parsed colour without saving; in magic mode it is ignored |
| Editor.PickColorChange | script.js:247-253 | in magic mode nothing changes; otherwise the target becomes the parsed colour and the new settings are committed on top of the current snapshot (older history kept, nothing to redo, undo steps back to it) |
| Editor.Slide | script.js:290-328 | moving a slider sets exactly the matching setting and leaves the history alone (releasing it commits with `Editor.SaveState`) |
| Editor.Load | script.js:367-403 | a non-image file changes nothing; an image becomes current, with the top-left pixel's colour as target, no seeds, magic mode, and a history holding only that state |
| Editor.Reset | script.js:589-602 | the image, seeds and history are discarded, so there is nothing to undo or redo; the other settings remain |

## Left out

- Rendering to the page is not modelled: DOM updates, CSS classes, helper texts, the undo/redo button styling, theme switching, drag-and-drop wiring and `setModeUIOnly`. They have no effect on the modelled state.
- Zoom (`setZoom`, `resetZoom`, the zoom buttons) is not modelled. It is display scaling in floating point and does not touch the mask.
- Browser calls are not modelled: `FileReader`, image decoding, `getImageData`/`putImageData`, `toDataURL` and the download link.
  - A loaded image is a given `Raster`.
  - A non-image file is `None`, and the alert is omitted.
  - The colour a click samples from the displayed canvas is a parameter of `Editor.Click`. It is not derived from the rendered output.
- The click coordinates are a parameter of `Editor.Click`: the conversion from mouse position through the canvas's on-screen scale (script.js:266-270) is floating-point layout.
- Scheduling is not modelled (`requestAnimationFrame`, `setTimeout`, the keyboard shortcut listener). It only defers or dispatches calls to `undo`, `redo` and `processImage`.
  - Rendering is modelled as `Pipeline.ProcessImage` applied to a session's image and settings.
- The reuse of one allocated `alphaBuffer` between renders (script.js:417-422) is not modelled. Every render refills it with 255 before use, so reuse has no observable effect; the model builds a fresh mask.
- Feather.ApplyFeather: idealises the `Float32Array` intermediate and the floating-point divisions (script.js:551, 563, 577) as exact real arithmetic. Single-precision rounding could, in principle, move a value that is exactly an integer just below it before `Math.floor`; the model does not reproduce that rounding.
- GlobalMask.ProcessGlobalMask and MagicWand.Matches: `Math.sqrt` is replaced by the squared comparison. That replacement is proved exact for exact square roots (`Distance.SqrtComparison`); floating-point rounding of the square root is not modelled.
- MagicWand.MagicWandFill: the property that each pixel is processed at most once is carried by the termination measure (the unvisited count, `MagicWand.CountFalseMark`). It is not stated as a separate count of iterations.
- MagicWand.MagicWandFill: script.js keeps x and y as two separate stack entries (push x, y; pop y, x). The model keeps one (x, y) pair per entry, in the same order.
- Editor.Slide: the slider's `parseInt` of its own value is taken as a natural number. Range inputs only produce numeric strings within their bounds. The mobile sliders and their mirroring into the desktop sliders (script.js:298-305, 322-328) are the same assignments and are not repeated.
- Editor.Load: the zoom reset and the loading indicator in the image's `onload` handler are left out, as above.
- Editor.Undo and Editor.Redo: syncing the picker, the sliders and the mode buttons from the restored snapshot (script.js:99-115) is display only. The re-render it triggers is `Pipeline.ProcessImage` on the restored settings.
