# canvas-play: colour-ID hit testing, in Dafny

This project models the core of `src/App.js` in canvas-play, a React canvas sandbox. The component draws a few
thousand random discs and finds the disc under a click through an offscreen "hit" canvas. On that canvas
item `i` is painted in the flat colour `'#' + padHex(i, 6)`. A click reads one pixel there and turns its red,
green and blue bytes back into `i`.

The model has five modules:

- `Basics` (`basics.dfy`): `Option`, integer `Point`, `Pow` (the radix and zoom powers), and the count coercion `Max0`.
- `HexCodec` (`hex_codec.dfy`): `Number.prototype.toString(16)` (`ToHex`), the `padHex` loop (`PadHex`, specified
  by `Padded`), `parseInt(_, 16)` (`ParseInt16`), the canvas's reading of a `#rrggbb` fill colour
  (`ParseHexColour`), and the pixel decode of `onClickCanvas` (`DecodeAsWritten`, plus the background-aware `Pick`).
- `Scene` (`scene.dfy`): the item record, the palette, `getRandomUpTo`/`getRandomColor` with each `Math.random()`
  result as an oracle real in [0, 1), `generateItem`, and the scene that `initialItems` and `drawRandom` build.
- `Raster` (`raster.dfy`): the render effect on two `array2` rasters updated in place. `ClearAll` stands for
  `clearRect`, `PaintDisc` for `arc` + `fill`, and `Render` for the whole loop. It also holds the pure description
  of each pixel (`HitAt`, `VisibleAt`, `Topmost`) and the O(1) `HitTest`.
- `Canvas` (`canvas.dfy`): the component's state as one `Session` record and its handlers as functions:
  `OnMouseDown`, `OnMouseMove`, `OnMouseUp`, `OnPlus`, `OnMinus`, `OnWheel`, and `OnClick` / `OnClickAsWritten`
  with `Highlight`. `drawRandom` is a method with its `for` loop.

Modelling choices:

- `scaleCanvas` is kept as an integer zoom exponent. The real scale is `ScaleCanvas(zoom)` = 0.8^(-zoom).
  `ScaleModel` proves that the integer fraction used for coverage equals this real scale, and that one zoom step
  multiplies or divides it by exactly 0.8.
- "Pixel (x, y) is covered by an item" is an exact integer test: the pixel centre lies strictly inside the disc,
  after `translate(translatePos)` and then `scale(s, s)`. `CoversIsScaledDisc` proves that the integer test and
  the same test on reals at scale `ScaleCanvas(zoom)` agree.
- The hit context's fill starts at the default `#000000` on every render, because the effect brackets its drawing
  with `save`/`restore`. A `fillStyle` string that is not a colour is ignored. So an item whose id is not
  `#rrggbb` is painted in the previous fill; ids of items 16^6 and above are such ids.
- `getImageData` outside the canvas reads transparent black. A cleared pixel is also transparent black, (0, 0, 0, 0).

The code keeps several behaviours, and lemmas record them:

- Clicking item k twice and then item j leaves both k and j red, because the second click stores the red copy
  as `lastClicked.found` (`RepeatClickLeavesTwoRed`).
- `drawRandom` does not reset `lastClicked`. The first click after a redraw therefore puts the previous scene's
  stored item back at its index (`ClickAfterRedrawRestoresStaleItem`).
- Zoom is anchored at the origin, not at the pointer. This is modelled as is.

## Model

| member | source | states |
|---|---|---|
| `HexCodec.ToHex` | src/App.js:36 | `num.toString(16)` is a non-empty string of hex digits; `ToHexRoundTrip` and `ToHexWidth` give its value and width |
| `HexCodec.Padded` | src/App.js:35-39 | the string `padHex(num, size)` returns; `PaddedForm`, `PaddedWidth` and `PaddedInjective` state its form, width and injectivity |
| `HexCodec.PadHex` | src/App.js:35-39 | the `while` loop that prepends '0' returns exactly `Padded(num, size)`: `toString(16)` left-padded to `size` |
| `HexCodec.PaddedForm` | src/App.js:35-39 | padHex never truncates: the result is all hex digits, has length max(size, digits of num), ends with `toString(16)`, and `parseInt(_, 16)` maps it back to `num` |
| `HexCodec.PaddedWidth` | src/App.js:35-39 | for size >= 1, `padHex(num, size)` has exactly `size` digits iff num < 16^size (six digits for every index below 16^6) |
| `HexCodec.PaddedInjective` | src/App.js:46 | distinct indices get distinct `padHex` strings, at any width |
| `HexCodec.ToHexRoundTrip` | src/App.js:36 | reading `num.toString(16)` in base 16 gives `num` |
| `HexCodec.ToHexWidth` | src/App.js:36-37 | `toString(16)` has at most k digits iff num < 16^k, which decides whether the loop pads |
| `HexCodec.ParseInt16` | src/App.js:108 | `parseInt(_, 16)` is NaN (None) exactly when the string does not start with a hex digit |
| `HexCodec.ParseAllHex` | src/App.js:108 | on a non-empty all-hex string `parseInt(_, 16)` is that string's base-16 value |
| `HexCodec.ParseHexColour` | src/App.js:260 | `'#' + id` is taken as a fill colour exactly when it is `#` and six hex digits, and the three bytes it sets spell the base-16 value of those digits |
| `HexCodec.DecodeAsWritten` | src/App.js:99-108 | the decode of `onClickCanvas`: three `padHex(_, 2)` strings read with `parseInt(_, 16)`; `DecodeNeverNaN` gives its value |
| `HexCodec.Pick` | src/App.js:99-109 | the background-aware decode (corrected half of "## Findings" row 1): an alpha-0 pixel is no match; any other pixel gives r*65536 + g*256 + b |
| `HexCodec.DecodeNeverNaN` | src/App.js:99-109 | every pixel decodes to r*65536 + g*256 + b, so the `isNaN` branch is never taken |
| `HexCodec.ClearedDecodesToZero` | src/App.js:99-109 | a cleared pixel decodes to index 0 as written; the background-aware decode gives no match |
| `HexCodec.EncodePaintDecode` | src/App.js:46 | `'#' + padHex(i, 6)` is a `#rrggbb` colour iff i < 16^6, and the painted bytes decode back to `i` |
| `Scene.RandomUpTo` | src/App.js:31-33 | `Math.floor(Math.random() * to)` lies in [0, to), and is 0 when `to` is 0 |
| `Scene.RandomColour` | src/App.js:27-29 | `getRandomColor` returns a palette entry |
| `Scene.GenerateItem` | src/App.js:41-48 | the item has a palette colour, `fn = 'arc'`, centre in [0, width) x [0, height), radius in [0, 20), angles 0 and 2*pi, and id `padHex(index, 6)` |
| `Scene.GenerateScene` | src/App.js:50 | `initialItems` has `count` items (none if negative), item k has id `padHex(k, 6)`, and every item is well formed |
| `Scene.DenseIdsUnique` | src/App.js:82 | in a scene where item k has id `padHex(k, 6)`, no two items share a hit colour, and up to 16^6 items every id has exactly 6 digits |
| `Raster.ScaleModel` | src/App.js:169-181 | the integer scale fraction equals 0.8^(-zoom); `onMinus` multiplies the scale by 0.8 and `onPlus` divides it by 0.8 |
| `Raster.Covers` | src/App.js:245-262 | whether the item's arc, drawn under the translate and scale, covers a pixel; `CoversIsScaledDisc` gives its meaning |
| `Raster.CoversIsScaledDisc` | src/App.js:245-262 | the integer test holds exactly when the pixel centre lies strictly inside the disc of radius s*r around t + s*c, with s = `scaleCanvas` as a real |
| `Raster.FillAfter` | src/App.js:243-269 | the hit context's fill colour after the `fillStyle` assignments of a prefix of the items; `FillIsOwnId` states what it is in a generated scene |
| `Raster.FillIsOwnId` | src/App.js:258-262 | with dense ids and at most 16^6 items, the fill in force when item k is painted has bytes spelling k |
| `Raster.HitAt` | src/App.js:242-263 | a hit-buffer pixel stays transparent black exactly when no item covers it |
| `Raster.VisibleAt` | src/App.js:239-256 | a visible pixel stays cleared exactly when no item covers it |
| `Raster.Topmost` | src/App.js:251-263 | the item painted last over a pixel is an index into the item list |
| `Raster.TopmostIsHighest` | src/App.js:251-263 | `Topmost` is the highest index whose disc covers the pixel, and is None exactly when no disc covers it (both directions) |
| `Raster.PixelsFollowTopmost` | src/App.js:239-263 | both rasters are decided by the topmost covering item: the visible pixel shows its display colour, the hit pixel the fill in force for it; uncovered pixels stay cleared in both |
| `Raster.RenderedPixelDecodes` | src/App.js:242-262 | in a dense scene of at most 16^6 items, a rendered hit pixel decodes to the topmost item's index; as written an uncovered pixel decodes to 0, the background-aware decode gives None |
| `Raster.PickMatchesVisible` | src/App.js:245-263 | where the hit test finds item k the visible canvas shows item k's colour, and where it finds nothing the visible pixel is cleared |
| `Raster.ClearAll` | src/App.js:239-242 | `clearRect` sets every pixel of the canvas to the cleared value |
| `Raster.PaintDisc` | src/App.js:253-262 | filling one arc writes the fill into every covered pixel and leaves every other pixel unchanged |
| `Raster.Render` | src/App.js:236-269 | after the effect every visible pixel equals `VisibleAt(items, view, x, y)` and every hit pixel equals `HitAt(items, view, x, y)`: same geometry and same transform in both, items painted in order |
| `Raster.PixelAt` | src/App.js:99 | `getImageData(x, y, 1, 1)`: the hit pixel, or transparent black outside the canvas; `ClickTargetsTopmost` and `HitTest` use it |
| `Raster.HitTest` | src/App.js:99-109 | background-aware decode, the corrected half of "## Findings" row 1: on a rendered dense scene one pixel read returns the topmost item under the pixel, and None on the background or outside the canvas (the code as written gives 0 there) |
| `Canvas.EffectiveSize` | src/App.js:76-77 | the canvas size is used when non-zero, otherwise the default 500 |
| `Canvas.Initial` | src/App.js:50-72 | the first state holds the generated scene of 2500 well-formed items with dense ids, scale 1, translate (0, 0), no drag anchor (`{}`), no current coordinates, button up and no last click |
| `Canvas.Redraw` | src/App.js:85-91 | the new state holds the given items with scale 1, translate (0, 0) and no anchor; pointer, button and last click are kept |
| `Canvas.DrawRandom` | src/App.js:79-92 | the loop yields exactly max(0, elementsToDraw) well-formed items with ids `padHex(i, 6)`; scale is reset to 1, translate to (0, 0) and the anchor to `{}`, and every other field is kept |
| `Canvas.Select` | src/App.js:109-129 | an index with no item changes nothing; otherwise only `items` and `lastClicked` change, ids are kept, and `lastClicked.found` is the item before the update |
| `Canvas.OnClickAsWritten` | src/App.js:94-129 | the click handler as written; `DecodeNeverNaN` and `BackgroundClickSelectsItemZero` state what it selects |
| `Canvas.OnClick` | src/App.js:94-129 | the click handler with the background-aware decode: an alpha-0 pixel changes nothing, any other pixel selects the index its bytes spell |
| `Canvas.Highlight` | src/App.js:114-125 | the mapped list has the same length and the same colour id at every position |
| `Canvas.FirstClickHighlightsOne` | src/App.js:111-125 | with no earlier click, or a stored item whose id no current item carries, the new list is the old one with only position k replaced by a red copy |
| `Canvas.ClickAfterShrinkHighlightsOne` | src/App.js:79-125 | in a dense scene, a stored item with id `padHex(j, 6)` for j past the end (a redraw to fewer items) matches nothing, so the click paints only item k red |
| `Canvas.LaterClickRestoresPrevious` | src/App.js:114-125 | with a previous click on j in a dense scene, the new list is the old one with j restored to the stored item and k made red; the restore wins when k = j |
| `Canvas.RepeatClickLeavesTwoRed` | src/App.js:114-128 | clicking k, then k again, then j leaves both k and j red |
| `Canvas.ClickAfterRedrawRestoresStaleItem` | src/App.js:79-128 | after a redraw the first click writes the previous scene's stored item back over the new item at its index |
| `Canvas.HandlersKeepDenseIds` | src/App.js:109-185 | every click, mouse and wheel handler keeps item k's id `padHex(k, 6)`, so hit colours stay unique |
| `Canvas.ClickTargetsTopmost` | src/App.js:94-129 | after the render, a background-aware click highlights the topmost item under the pixel; on the background or outside the canvas it changes nothing |
| `Canvas.BackgroundClickSelectsItemZero` | src/App.js:99-128 | as written, a click on the cleared background of a non-empty scene turns item 0 red and records it as the last click |
| `Canvas.OnMouseDown` | src/App.js:154-163 | the button is down and the anchor is set so that a move to the press point keeps the translate; nothing else changes |
| `Canvas.OnMouseUp` | src/App.js:165-167 | the button is up and nothing else changes |
| `Canvas.DragTranslate` | src/App.js:143-146 | the drag translate plus the anchor is the pointer, a missing anchor counting as 0 (the corrected reading of "## Findings" row 2) |
| `Canvas.OnMouseMove` | src/App.js:133-152 | the pointer's device pixel is recorded; the translate follows the drag while the button is down and stays otherwise; nothing else changes |
| `Canvas.OnPlus` | src/App.js:169-174 | the scale is divided by 0.8 and nothing else changes |
| `Canvas.OnMinus` | src/App.js:176-181 | the scale is multiplied by 0.8 and nothing else changes |
| `Canvas.OnWheel` | src/App.js:183-185 | deltaY > 0 multiplies the scale by 0.8, any other deltaY divides it by 0.8; nothing else changes |
| `Canvas.DragIsAbsolute` | src/App.js:138-163 | after pressing at p, a move to q sets translate = old translate + (q - p) whatever moves came before, so returning to p restores the translate |
| `Canvas.MoveWithoutButton` | src/App.js:138-167 | with the button up a move changes only `currentCoords`; after `onMouseUp` moves no longer pan |
| `Canvas.ZoomSteps` | src/App.js:169-185 | `onMinus` scales by 0.8 and `onPlus` by 1/0.8; each undoes the other; the wheel zooms out iff deltaY > 0; only the zoom changes |
| `Canvas.DragTranslateAsWritten` | src/App.js:143-146 | the as-written expression `(e.clientX - startDragOffset?.x) ?? 0`; `StaleDragYieldsNaN` states when it is NaN |
| `Canvas.OnMouseMoveAsWritten` | src/App.js:133-152 | the translate the move sets as written is NaN exactly when the button is down with no anchor, and otherwise equals the corrected `OnMouseMove` translate |
| `Canvas.StaleDragYieldsNaN` | src/App.js:143-146 | as written, the move is `client - anchor` whenever an anchor exists; after press, redraw and move with the button still down, the translate the move sets is NaN |
| `Canvas.StaleDragFollowsPointer` | src/App.js:143-146 | with the anchor defaulting to 0, that same sequence moves the translate to the pointer, and later drags work from there |

## Left out

- React wiring (`useState`, `useCallback`, `useEffect` dependencies, refs) and the JSX markup (src/App.js:52-77,
  272-330). These are UI plumbing. The handlers are functions on an explicit `Session`, applied one at a time.
- The element-count input (src/App.js:274). It stores the input's string, which the loop compares as a number.
  `DrawRandom` takes the count as an integer, so fractional and non-numeric input are not modelled.
- Canvas rasterisation. Antialiasing and partial pixel coverage are replaced by the exact `Covers` test and a
  flat colour write. `Covers` treats every item as a full disc; every generated item is one.
- CSS colours. Display colour names are stored unparsed. Of the hex forms, only `#rrggbb` is parsed. The
  `#rrggbbaa` form, reached by ids of 8 digits (indices from 16^7), is treated as no colour.
- The conversion from client to device coordinates through `getBoundingClientRect` (src/App.js:95-97, 134-136).
  The device pixel and the client position are inputs.
- The resize handler (src/App.js:187-231): `ResizeObserver`, `debounce`, `toDataURL` and the async image restore.
  These are I/O, an image codec and timers. The handler refills the visible context twice and never the hit
  context (src/App.js:206-207). That is outside this model.
- `performance.now` timings, draws per second and the memory readout. They are diagnostics.
- Floating point. `Math.random()` results are exact reals. `Math.floor(u * to)` is taken without rounding.
  Repeated `* 0.8` and `/ 0.8` are exact in the model; in doubles they can drift.
- `ToHex` covers non-negative integers only. `padHex` is only called with indices and bytes.
- `ParseInt16` does not model leading whitespace, a sign or a `0x` prefix. The strings it is given are hex digits only.

## Findings

| source | as written | input that shows it | evidently intended | confidence | as-written member | corrected member |
|---|---|---|---|---|---|---|
| src/App.js:99-111 | the decode ignores alpha, so a cleared pixel (0,0,0,0) decodes to index 0 and `items[0]` counts as found | click the empty background of any non-empty scene: item 0 turns red and becomes "last clicked" | a click on the background finds nothing | not executed; high | `Canvas.BackgroundClickSelectsItemZero` | `Canvas.ClickTargetsTopmost` |
| src/App.js:143-146 | `e.clientX - startDragOffset?.x ?? 0` parses as `(e.clientX - startDragOffset?.x) ?? 0`, so a missing anchor gives NaN rather than 0 | press on the canvas, release outside it, press "Draw random items", then move over the canvas: translate becomes NaN | a missing anchor counts as offset 0 | not executed; medium | `Canvas.StaleDragYieldsNaN` | `Canvas.StaleDragFollowsPointer` |

In both rows the rest of the model uses the corrected half. `OnClick` and `HitTest` decode with `Pick`, which
treats an alpha-0 pixel as no match. `OnMouseMove` uses `DragTranslate`, which reads a missing anchor as 0.
`OnClickAsWritten`, `DragTranslateAsWritten` and `OnMouseMoveAsWritten` keep the code as written.
