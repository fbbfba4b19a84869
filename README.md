# KineticJS animation scheduler and Image shape, in Dafny

This project models two pieces of the KineticJS 2D canvas toolkit and proves
properties of the model.

**The animation frame scheduler** (`src/Animation.js`) is a process-wide
state machine. It holds:

- a registry mapping animation ids to animations;
- an id counter;
- an `animRunning` flag;
- a shared `frame` record `{time, timeDiff, lastTime}`, updated in place on
  every tick.

One tick advances the clock by `now - lastTime` and calls every registered
animation's `func` with the frame, in key order. It then draws each distinct
target node exactly once, deduplicated by the node's `_id`. On an empty
registry the loop stops and resets `lastTime` to 0.

The model is the `Animation.Scheduler` class. Its tick is specified by the
function `TickEffects`, a log of the `func` and `draw()` calls one tick makes.
`for (key in obj)` over integer-like keys visits keys in ascending order; the
`Keys` module models this order as `SortedKeys`.

**The Image shape** (`src/shapes/Image.js`) draws a bitmap. The bitmap can be
cropped, and it can be passed through a caller-supplied pixel filter into a
cached off-screen buffer. The shape can also build a colour-keyed hit region
from its own pixels. The model covers these parts:

- size and crop resolution (`Image.Extent`, `Crop.Resolve`);
- the choice of `drawImage` arguments (`Image.ImageDraw`, `Image.HitPass`);
- the filter-buffer state machine (`Image.ImageShape`);
- the in-place recolouring loop on the RGBA byte array
  (`HitRegion.RecolorOpaque`, specified by `HitRegion.Recolored`).

Canvases are abstract: a `Canvas.Surface` has a fixed width and height and a
log of the calls issued on it. Width, height and crop fields are integers,
with 0 meaning "unset". The source reads all of them with `||`, so 0 and unset
behave the same.

Places where the code behaves differently from what one might expect, and the
model follows the code:

- **Crop defaults in `applyFilter`.** The defaults come from the shape's
  `getWidth()`/`getHeight()`, not the image's natural size
  (`Image.FilterCropUsesShapeSize`). `drawFunc`'s direct crop uses the
  image's size.
- **The crop is written back.** `applyFilter` assigns the resolved `x`, `y`,
  `width` and `height` into the declared crop object itself. For a crop held
  as an object with those fields, later draws therefore see the resolved
  values. When no crop is declared, the resolved crop is a temporary and is
  not stored.
- **`lastTime` reset while running.** `_handleAnimation` on a running
  scheduler sets `lastTime` to 0. The next tick's `timeDiff` is then the whole
  wall-clock reading `now`, not a small delta (`Animation.TicksAccumulate`
  with a start at `lastTime == 0`).
- **A stale buffer can stay on screen.** `drawFunc` draws `filterCanvas`
  whenever it exists. Setting the filter to none marks it dirty but does not
  drop the buffer, so the last filtered picture is still drawn until
  `clearFilter` runs.
- **A throwing callback stops the animations for good.** When an animation's
  `func` or a node's `draw()` throws, the exception leaves `_runFrames` before
  the next frame is requested. The scheduler stays marked as running with no
  tick pending. From then on `_handleAnimation` takes its "already running"
  branch, which only resets `lastTime`, so ticking never resumes
  (`Animation.Scheduler.FrameCallback`, `Animation.Scheduler.HandleAnimation`).
- **`createImageHitRegion` can throw to its caller.** Drawing the image sits
  outside the `try` block, so a missing image throws to the caller instead of
  producing a warning.

## Model

| member | source | states |
|---|---|---|
| Keys.SortedKeysSpec | src/Animation.js:36 | for-in order over the registry: the enumeration is strictly increasing and holds exactly the registry's keys |
| Keys.OccursOnce | src/Animation.js:47-49 | a strictly increasing key list holds each key at most once, so a loop over it visits each key once |
| Animation.TicksAccumulate | src/Animation.js:51-56 | over any run of ticks, `time` grows by exactly the last tick's `now` minus the starting `lastTime`, and `lastTime` is that last `now` |
| Animation.EachNodeDrawnOnce | src/Animation.js:36-49 | one tick calls `draw()` on node `_id` n exactly once if some registered animation targets a node with that `_id`, and never otherwise (no node or undefined `_id` means no draw) |
| Animation.EachFuncInvokedOnce | src/Animation.js:42-44 | one tick invokes each registered animation's `func` exactly once, with the current frame, and invokes nothing for animations without `func` or not registered |
| Animation.CallFuncs | src/Animation.js:36-45 | the first loop, visiting keys in ascending order, builds the node hash `NodesOf` and makes the `func` calls `Invocations` of the whole registry |
| Animation.DrawNodes | src/Animation.js:47-49 | the second loop draws the collected nodes once each, in ascending `_id` order |
| Animation.FrameRecord.constructor | src/Animation.js:16-20 | the frame starts with `time` and `timeDiff` 0 and `lastTime` at the load-time clock |
| Animation.Scheduler.constructor | src/Animation.js:13-20 | an empty registry, counter 0, not running, a fresh frame |
| Animation.Scheduler.NewAnimation | src/Animation.js:11 | the new animation's id is the counter's old value, the counter grows by one, and the id was never issued before |
| Animation.Scheduler.AddAnimation | src/Animation.js:21-23 | the registry maps `a.id` to `a`, every other entry unchanged |
| Animation.Scheduler.RemoveAnimation | src/Animation.js:24-26 | only the entry under `a.id` is removed |
| Animation.Scheduler.HasAnimations | src/Animation.js:71-76 | true iff the registry has some key |
| Animation.Scheduler.UpdateFrameObject | src/Animation.js:51-56 | `timeDiff == now - old lastTime`, `lastTime == now`, `time` grows by exactly `timeDiff` |
| Animation.Performed | src/Animation.js:36-49 | the calls a tick makes when one of them throws are a prefix of the full tick, ending with the throwing call; with no throw they are the whole tick |
| Animation.Scheduler.RunFrames | src/Animation.js:27-50 | the calls made are exactly `TickEffects` of the registry and frame (every `func` in key order, then each distinct node once), cut after the call that throws, if any; it throws iff such a call exists |
| Animation.Scheduler.AnimationLoop | src/Animation.js:57-70 | an empty registry stops the loop with `lastTime` 0 and `time`, `timeDiff` untouched; otherwise the clock advances, one tick's calls are logged, and the next tick is requested exactly when no callback threw, the scheduler staying marked as running either way |
| Animation.Scheduler.FrameCallback | src/Animation.js:62-64 | the requested frame callback fires and runs one `_animationLoop`: on an empty registry it stops with `time` and `timeDiff` untouched; otherwise a tick is pending afterwards iff no callback threw |
| Animation.Scheduler.HandleAnimation | src/Animation.js:77-85 | when idle, it starts running and ticks at once, with the same outcomes as the frame callback; when running, only `lastTime` becomes 0, and `time`, `timeDiff`, `animRunning` and the pending tick are unchanged, so a running scheduler with no tick pending is never restarted |
| HitRegion.Recolored | src/shapes/Image.js:196-202 | the recoloured buffer has the length of the original |
| HitRegion.RecoloredPixel | src/shapes/Image.js:196-202 | each alpha byte is kept; a pixel with alpha above 0 has the key's R, G, B; every byte of any other pixel is unchanged |
| HitRegion.RecolorIdempotent | src/shapes/Image.js:196-202 | running the recolouring on its own output changes nothing |
| HitRegion.RecolorOpaque | src/shapes/Image.js:196-202 | the loop stepping by 4 over the array leaves exactly `Recolored` of its old contents |
| Crop.Resolve | src/shapes/Image.js:118-121 | offsets are kept, a non-zero width or height is kept, and an unset one reaches from the offset to the base's edge |
| Crop.ResolveIdempotent | src/shapes/Image.js:118-121 | resolving the written-back crop against the same base changes nothing |
| Image.Extent | src/shapes/Image.js:223-230 | the declared size when non-zero, else the image's natural size, else 0; the result is 0 exactly when both are 0 or absent |
| Image.FilterCropUsesShapeSize | src/shapes/Image.js:110-121 | when no size is declared, the filter crop equals the crop resolved against the image's size; with a declared width, its default width is that width minus the offset |
| Image.ImageDraw | src/shapes/Image.js:60-79 | no `drawImage` iff neither a buffer nor an image; the destination is always `(0, 0, width, height)`; the buffer wins and is drawn with 5 arguments; without a crop the image is drawn with 5 arguments; with a crop it is drawn with 9, from the crop resolved against the image's size |
| Image.HitPass | src/shapes/Image.js:95-107 | with a hit region, the region is drawn first and the outline is only stroked; without one, the same fill-and-stroke pass as the visible draw |
| Image.IssueFillPass | src/shapes/Image.js:81-84 | the outline of `(0, 0, width, height)` followed by fill and stroke is appended to the context's calls |
| Image.FirstFault | src/shapes/Image.js:140-147 | a missing image fails at the draw step; a crop with no area fails at the read-back, since `getImageData` of an empty region throws; a missing filter fails at the filter step; the pipeline succeeds iff the image and filter are present, the crop has area and the environment rejects no step |
| Image.CompletedCalls | src/shapes/Image.js:140-147 | the buffer calls made before a fault are a prefix of the full pipeline, and are all of it exactly when nothing fails |
| Image.RunPipeline | src/shapes/Image.js:140-147 | the buffer's calls grow by exactly the completed prefix of the pipeline |
| Image.ImageShape.constructor | src/shapes/Image.js:30-39 | the shape starts with its declared size, image and crop, no filter, buffer or hit region, and no pending decode |
| Image.ImageShape.SetFilter | src/shapes/Image.js:249-252 | the filter is stored and marked for reapplication |
| Image.ImageShape.ClearFilter | src/shapes/Image.js:158-161 | the buffer is dropped and the dirty flag cleared |
| Image.ImageShape.PrepareBuffer | src/shapes/Image.js:123-136 | the existing buffer is reused and cleared iff its size equals the crop's; otherwise a fresh buffer of exactly the crop's size replaces it, and the old one is untouched |
| Image.ImageShape.ApplyFilter | src/shapes/Image.js:109-152 | a declared crop is overwritten with its resolution against the shape's size; a reused buffer's calls grow by a clear and the completed pipeline, a replaced buffer is untouched, and on success a fresh buffer holds the full pipeline at the crop's size; on any fault the buffer is dropped, the flag cleared and one warning emitted, with nothing thrown |
| Image.ImageShape.DrawFunc | src/shapes/Image.js:43-89 | with a clean filter, the shape and its buffer are unchanged; with a dirty one, the filter is applied (the buffer outcomes of `ApplyFilter`) and the flag ends false; the fill pass comes before the `drawImage` that `ImageDraw` selects from the resulting state |
| Image.ImageShape.DrawHitFunc | src/shapes/Image.js:90-108 | the context receives exactly `HitPass` of the current hit region |
| Image.ImageShape.CreateImageHitRegion | src/shapes/Image.js:174-214 | throws iff there is no image; a refused read-back, or a shape with zero width or height, gives one warning; otherwise a decode of the recoloured pixels at the shape's size is started, and the hit region is left as it was |
| Image.ImageShape.CompleteDecode | src/shapes/Image.js:204-209 | the decoded image becomes the hit region, the decode leaves the pending list, and the callback, if given, runs after it and sees the new region |
| Image.ImageShape.ClearImageHitRegion | src/shapes/Image.js:220-222 | the hit region is removed |

## Left out

- `requestAnimFrame` and its `setTimeout` fallback (src/Animation.js:87-92) are platform scheduling. A "next tick pending" flag stands for them, and `FrameCallback` is the callback firing.
- `new Date().getTime()` is wall-clock I/O. Every operation that reads it takes `now` as a parameter.
- The bodies of `anim.func`, `node.draw()` and the filter function are not modelled. The scheduler logs that they were called. The callbacks are assumed not to change the registry or the frame during a tick.
- The filter's outcome comes from the environment as the first step it rejects, if any. A missing image, a missing filter and a read-back of a region with no area fail deterministically. Whether `drawImage` with an empty source rectangle throws depends on the browser, so it is left to the environment.
- Real canvas work is not modelled: `Kinetic.SceneCanvas`, pixel contents of `drawImage`, `getImageData`/`putImageData`, and `fillStrokeShape`/`strokeShape`. A surface is its size and a log of calls.
- `createImageHitRegion`'s scratch canvas is not modelled. The pixels it reads back are a parameter: absent when the read is refused, for example for a cross-origin image.
- `Kinetic.Util._getImage` (the asynchronous decode) and `Kinetic.Util._hexToRgb` are not part of this model. The key colour is an `(r, g, b)` triple. A decode is a pending entry, completed by `CompleteDecode`. A decode that never completes stays pending.
- `Kinetic.Util.warn` is modelled only as a counter of diagnostics.
- `_useBufferCanvas` is not modelled. It depends on shadow state and floating-point opacity from the `Shape` class, which is not part of this model.
- The `Kinetic.Factory` getter and setter generation is not modelled, apart from the filter setter's dirty flag. Setters for image, size and crop are plain field updates.
- `destroy` and the `Kinetic.Shape` superclass plumbing are not modelled.
- Node identity is the node's `_id`. When two animations share an `_id`, the node recorded last is drawn, and the model records only that id.
- Registry keys and node `_id`s are modelled as non-negative integers. JavaScript visits such keys in ascending order. Other key shapes, and the 2^32 array-index bound, are not modelled.
- Crops are modelled as objects with `x`, `y`, `width` and `height` fields, the form `applyFilter` reads and writes (src/shapes/Image.js:118-121). The array form `[x, y, width, height]` shown in the `setCrop` documentation, and the `Kinetic.Factory` component accessors `getCropX` and the like, are not part of this model. For an array crop, `applyFilter` would read its fields as unset and its write-back would not reach those accessors.
- A callback that throws is given as the index of the throwing call among the tick's calls. Which callback throws, and why, is left to the environment.
- Animation.Scheduler.NewAnimation: copying the config object's own properties onto the animation is reduced to its `node` and whether it has a `func`.
