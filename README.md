# Zenith X frame-sequence scroller, modelled in Dafny

The landing page for the Zenith X sunglasses plays a 40-frame image sequence on a
full-screen canvas as the visitor scrolls. The component `SunglassesScroll`:

- preloads the frames from `/images/ezgif-frame-001.jpg` … `/images/ezgif-frame-040.jpg`;
- counts completed loads into a percentage for the loading overlay;
- stores each decoded image in its own slot;
- publishes the sequence only when every load has succeeded.

The smoothed scroll progress `p` in [0, 1] is mapped linearly onto the frame
position range [1, 40] and floored to a frame index. The component draws
`images[index - 1]` with "object-cover" placement: the image is scaled, keeping
its aspect ratio, until it covers the canvas, and it is centred. When the window
is resized, the canvas takes the window's size and the current frame is redrawn.

The model has six modules:

- `Wrappers`: the `Option` type.
- `FrameAssets`: the frame constants and `FramePath`, with a parser that inverts it.
- `LoadProgress`: the percentage, and the slot array with the order in which loads complete.
- `ScrollMapping`: progress to frame index.
- `CoverFit`: the draw rectangle.
- `Scroller`: the class `SunglassesScroll`. It holds the component's state and has one
  method per event handler. The browser runs one handler at a time, so the
  callbacks are sequential method calls. `renderCanvas` returns the rectangle
  that `drawImage` would receive, or `None` when it draws nothing.

Arithmetic is over mathematical integers and reals, not IEEE doubles.

Some behaviours of the code are worth stating plainly:

- The code has no device-pixel-ratio handling. The canvas backing store is set to
  `window.innerWidth` x `window.innerHeight`.
- The canvas is redrawn on every change of the real-valued frame position, not
  only when the floored index changes.
- The frame index is not clamped by the component itself. The model takes the
  progress in [0, 1] as a precondition.
- When loading completes, the resize effect (declared first) redraws the frame the
  progress selects, and then the initial-render effect draws frame 1. So after
  loading, frame 1 is on screen whatever the scroll position, until the frame
  position next changes.
- The mount-time call of `handleResize` runs before any image has loaded, so it
  draws nothing.

## Model

| member | source | states |
|---|---|---|
| FrameAssets.DecimalString | src/components/SunglassesScroll.tsx:41 | `n.toString()` is a digit string whose value is `n`; it has one digit below 10, at most two below 100 and at most three below 1000 |
| FrameAssets.PadStart | src/components/SunglassesScroll.tsx:41 | `padStart` gives length `max(width, \|s\|)`; the result ends with `s` and everything before `s` is the pad character |
| FrameAssets.FrameNumber | src/components/SunglassesScroll.tsx:41 | `(i + 1).toString().padStart(3, '0')` is exactly three characters for each of the 40 frame positions |
| FrameAssets.FrameNumberValue | src/components/SunglassesScroll.tsx:41 | the padded frame number is all digits and denotes the 1-based frame number `i + 1` |
| FrameAssets.FramePath | src/components/SunglassesScroll.tsx:41-42 | all 40 frame URLs have the same length: the path head, three digits and the extension |
| FrameAssets.FramePathLayout | src/components/SunglassesScroll.tsx:38-42 | each frame URL is `/images/ezgif-frame-`, then the 3-digit number, then `.jpg` |
| FrameAssets.FirstFrameNumber | src/components/SunglassesScroll.tsx:41 | frame position 0 is numbered `001` |
| FrameAssets.LastFrameNumber | src/components/SunglassesScroll.tsx:41 | frame position 39 is numbered `040` |
| FrameAssets.FirstFramePath | src/components/SunglassesScroll.tsx:6-9 | the first frame is fetched from `/images/ezgif-frame-001.jpg` |
| FrameAssets.LastFramePath | src/components/SunglassesScroll.tsx:6-9 | the 40th frame is fetched from `/images/ezgif-frame-040.jpg` |
| FrameAssets.ParseFramePathRoundTrip | src/components/SunglassesScroll.tsx:38-42 | parsing the URL of frame position `i` gives back `i` |
| FrameAssets.ParseFramePathSound | src/components/SunglassesScroll.tsx:38-42 | every URL that parses is exactly the URL of the position it parses to |
| FrameAssets.FramePathsDistinct | src/components/SunglassesScroll.tsx:38-42 | no two of the 40 frames share a URL |
| LoadProgress.LoadPercent | src/components/SunglassesScroll.tsx:45 | `floor(count / 40 * 100)` over the reals equals the integer quotient `count * 100 / 40` |
| LoadProgress.LoadPercentBounds | src/components/SunglassesScroll.tsx:43-45 | the percentage lies in 0..100 while at most 40 frames have loaded |
| LoadProgress.LoadPercentMonotone | src/components/SunglassesScroll.tsx:43-45 | the percentage never decreases as the counter grows |
| LoadProgress.LoadPercentFull | src/components/SunglassesScroll.tsx:43-45 | the percentage is 100 exactly when all 40 frames have loaded |
| LoadProgress.EmptySlots | src/components/SunglassesScroll.tsx:35 | 40 empty slots stand for the empty preload array `[]` |
| LoadProgress.Filled | src/components/SunglassesScroll.tsx:44 | the number of filled slots is at most the number of slots; it equals it exactly when every slot is filled, and it is 0 exactly when none is |
| LoadProgress.Store | src/components/SunglassesScroll.tsx:46 | `loadedImages[i] = img` puts the image fetched from frame `i`'s own URL, with its decoded size, into slot `i` and leaves every other slot as it was |
| LoadProgress.StoreFillsOne | src/components/SunglassesScroll.tsx:44-46 | storing a decoded image into an empty slot raises the filled count by exactly one, matching `loadedCount++` |
| LoadProgress.StoreKeepsPlaced | src/components/SunglassesScroll.tsx:46 | after `loadedImages[i] = img`, every filled slot still holds the image of its own frame URL |
| LoadProgress.Replay | src/components/SunglassesScroll.tsx:38-46 | running the `onload` callbacks of a sequence of loads keeps the number of slots, and a filled slot stays filled |
| LoadProgress.ReplayMiss | src/components/SunglassesScroll.tsx:38-46 | a slot that no completed load addresses keeps its content |
| LoadProgress.ReplayHit | src/components/SunglassesScroll.tsx:38-46 | after any sequence of loads, the slot of a load that no other load addresses holds that load's image, whatever order they completed in |
| LoadProgress.ReplayOrderIndependent | src/components/SunglassesScroll.tsx:38-46 | two completion orders of the same set of loads give the same slot array |
| LoadProgress.ReplayAllPlaced | src/components/SunglassesScroll.tsx:38-46 | once every frame has loaded once, in any order, every slot is filled and slot `k` holds frame `k + 1` |
| LoadProgress.Values | src/components/SunglassesScroll.tsx:55 | the published sequence has one image per slot, in slot order |
| ScrollMapping.FramePosition | src/components/SunglassesScroll.tsx:30 | progress in [0, 1] maps into the frame position range [1, 40] |
| ScrollMapping.FrameIndex | src/components/SunglassesScroll.tsx:66-69 | the floored position is an integer in 1..40, and it is the greatest integer not above the position |
| ScrollMapping.FrameIndexEnds | src/components/SunglassesScroll.tsx:30 | progress 0 selects frame 1 and progress 1 selects frame 40 |
| ScrollMapping.FrameIndexLastOnlyAtEnd | src/components/SunglassesScroll.tsx:66-69 | frame 40 is selected exactly at progress 1 |
| ScrollMapping.FrameIndexMonotone | src/components/SunglassesScroll.tsx:66-69 | more progress never selects an earlier frame |
| ScrollMapping.FrameIndexReachesEvery | src/components/SunglassesScroll.tsx:66-69 | over the reals, every frame `k` in 1..40 is selected, at progress `(k - 1) / 39` |
| CoverFit.Cover | src/components/SunglassesScroll.tsx:81-96 | when the canvas ratio is below the image ratio, the height equals the canvas height and `offsetY` is 0; otherwise the width equals the canvas width and `offsetX` is 0. In both cases the rectangle covers the canvas, keeps the image's aspect ratio, and is centred (`2 * offset + size` equals the canvas size on each axis) |
| CoverFit.CoverIsMaxScale | src/components/SunglassesScroll.tsx:81-96 | the rectangle is the image scaled by `max(cw / iw, ch / ih)` |
| CoverFit.CoverIsSmallest | src/components/SunglassesScroll.tsx:81-96 | no smaller rectangle with the image's aspect ratio covers the canvas |
| CoverFit.TightCoverUnique | src/components/SunglassesScroll.tsx:81-96 | a rectangle that covers the canvas, keeps the image's ratio, is centred and has one side equal to the canvas side is exactly the rectangle the code computes |
| CoverFit.CoverSameRatio | src/components/SunglassesScroll.tsx:81-96 | an 800 x 600 canvas with a 400 x 300 image draws at (0, 0) with size 800 x 600 |
| CoverFit.CoverSquareOnLandscape | src/components/SunglassesScroll.tsx:81-96 | an 800 x 600 canvas with a 300 x 300 image draws at (0, -100) with size 800 x 800 |
| Scroller.SunglassesScroll.DrawRect | src/components/SunglassesScroll.tsx:71-100 | a rectangle is drawn exactly when `images[index - 1]` exists, and never while loading. The image drawn is frame `index`'s own URL, and the rectangle covers the canvas, keeps the ratio, is centred and has one side equal to the canvas side, which together fix it as the cover rectangle |
| Scroller.SunglassesScroll.FrameIndexInBounds | src/components/SunglassesScroll.tsx:66-74 | once loading has completed, `index - 1` for the floored frame index is a valid position in the published images |
| Scroller.SunglassesScroll.constructor | src/components/SunglassesScroll.tsx:14-16 | the initial state: nothing loaded, 0%, loading, no images, and a canvas of the default 300 x 150 size |
| Scroller.SunglassesScroll.OnLoad | src/components/SunglassesScroll.tsx:43-48 | the counter rises by one; the percentage follows it, does not decrease and stays at most 100; the image goes into slot `i`; nothing else changes |
| Scroller.SunglassesScroll.OnError | src/components/SunglassesScroll.tsx:49 | a rejected load is recorded; the component stays loading with no images; counters and slots are unchanged |
| Scroller.SunglassesScroll.OnAllLoaded | src/components/SunglassesScroll.tsx:53-59 | loading clears exactly when every slot is filled, and then the published images are the slots in order. After any rejection, loading stays on and images stay empty |
| Scroller.SunglassesScroll.Render | src/components/SunglassesScroll.tsx:71-100 | returns what DrawRect specifies and changes no state |
| Scroller.SunglassesScroll.OnFrameChange | src/components/SunglassesScroll.tsx:66-69 | draws the floored frame index; a frame is drawn exactly when loading has completed |
| Scroller.SunglassesScroll.RunEffects | src/components/SunglassesScroll.tsx:103-124 | the two effects in declaration order: the canvas takes the window size and the frame the progress selects is redrawn, then frame 1 is drawn once loading has completed; both draws happen exactly when loading has completed, and the load state is unchanged |
| Scroller.SunglassesScroll.Resize | src/components/SunglassesScroll.tsx:104-111 | the canvas takes the new size; the loaded images and load state are unchanged; the frame selected by the current progress is redrawn, and it is drawn exactly when loading has completed |

## Left out

- The payment order route (`src/app/api/razorpay/route.ts`) and the page's purchase
  handler (`src/app/page.tsx`) are not part of this model. They are a remote SDK
  call, `fetch`, a checkout widget and `alert` dialogs.
- Scroll tracking and spring smoothing happen inside the animation library. The
  smoothed progress is an input, and `FrameIndex`, `OnFrameChange`, `Resize` and `RunEffects`
  require it to lie in [0, 1]. What the library does with values outside that
  range is not modelled.
- The text overlays (`Section`: opacity and vertical offset interpolated by the
  animation library), the loading overlay markup and all styling are not modelled.
- Image decoding and the concurrency of `Promise.all` become sequential events:
  `OnLoad`, `OnError` and `OnAllLoaded` (the code after `await`).
- OnLoad: requires that frame `i` has neither loaded nor failed before. The browser
  fires exactly one of `onload` and `onerror` per image, once.
- OnError: the same requirement as OnLoad. The `console.error` logging is not modelled.
- `clearRect` and `drawImage` are not modelled. A draw is the rectangle handed to `drawImage`.
- The null checks on the canvas and its 2D context are not modelled. The canvas
  is taken to be mounted and to have a context.
- Floating-point rounding in the percentage and the ratios is not modelled:
  arithmetic is exact over integers and reals.
- FrameIndexReachesEvery: holds over the reals. With IEEE doubles, `(k - 1) / 39` is
  rounded, and whether `1 + 39 * p` then floors back to `k` is not modelled.
- Zero-sized canvases and images, where the code divides by zero, are excluded.
  Canvas and image sizes are positive preconditions and invariants.
- Effect registration and cleanup are not modelled: the resize listener being
  added and removed. `RunEffects` is the re-run of both effects after `images` and
  `isLoading` change; a caller calls it after `OnAllLoaded`.
- React state batching and closures that capture an older `images` value are not modelled.
- The preload array is a sparse JavaScript array. It is modelled as 40 optional slots.
