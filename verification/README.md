# Scroll-scrubbed frame player: a Dafny model

This project models the arithmetic and bookkeeping of `script.js`, the
scroll-scrubbed image-sequence player of a marketing page. The page shows 209
still frames on a canvas, and the user's scroll position picks the frame, so
scrolling plays the sequence like a video. The model covers five pieces:

- **Frame locator** (`FrameLocator`, `frame_locator.dfy`). `currentFrame(i)`
  is `/Frames/frame_NNN.jpg`, where NNN is `i + 1` zero-padded to three
  characters. `ToDecimal` models `toString` and `PadStart` models `padStart`.
  `FrameIndexOf` is the inverse: it parses a locator back to an index.
- **Load counter** (`LoadCounter`, `load_counter.dfy`). All 209 requests are
  issued at once. `onload` and `onerror` both run `onLoad`, which decrements
  `imagesToLoad`, publishes `Math.round(loaded / total * 100)` when the
  counter element exists, and calls `startAnimation` when the count reaches
  zero. `Counter` is exactly the state the closure captures, and `startCalls`
  counts the calls to `startAnimation`. `LoadState` adds one slot per image
  (Pending, then Done with the outcome), so that the browser's promise that
  each image settles once can be stated.
- **Scroll-to-frame mapping and overlays** (`ScrollMapping`,
  `scroll_mapping.dfy`). The frame shown is
  `Math.round(Math.min(p / 0.9, 1) * (frameCount - 1))`. Navigation, header
  and hero-image styles are piecewise-linear functions of the progress `p`.
- **Renderer** (`Renderer`, `renderer.dfy`). `render` clears the canvas and
  draws the current image only if it is complete with `naturalWidth > 0`. It
  draws the cover-fit rectangle: the image scaled to cover the canvas,
  keeping its aspect ratio and centred. The canvas calls are returned as a
  list of `DrawOp`s.
- **Player** (`Player`, `player.dfy`). This module joins the pieces. Slots
  become image elements. `startAnimation` paints frame 0, and every scroll
  update picks, paints and restyles.

`Numeric` (`numeric.dfy`) holds `Math.round` and `Math.min`, plus a few facts
about exact real arithmetic.

JavaScript doubles are modelled as Dafny `real`s, so the arithmetic is exact.
`Math.round(x)` rounds halves toward +infinity and is modelled as
`(x + 1/2).Floor`.

`script.js` requests all 209 frames in one loop and starts the animation only
when every request has settled, by `onload` or `onerror`. There is no separate
batch that gates the first paint.

`Wrappers` (`wrappers.dfy`) holds the `Option` type the other modules share.

## Model

| member | source | states |
|---|---|---|
| FrameLocator.ToDecimal | script.js:51 | `(n).toString()` is non-empty, made only of digits, has no leading zero, and is at most three characters below 1000 |
| FrameLocator.PadStart | script.js:51 | `padStart(width, "0")` keeps a string that is already long enough; otherwise it prepends fill characters up to exactly `width`, and the original string is the suffix |
| FrameLocator.CurrentFrame | script.js:50-51 | every locator starts with `/Frames/frame_` and ends with `.jpg`; for indices below 999 it is exactly 21 characters long |
| FrameLocator.ParseToDecimal | script.js:51 | parsing the decimal text of `n` gives back `n` |
| FrameLocator.PadStartParse | script.js:51 | zero padding does not change the number the digits denote |
| FrameLocator.FirstFrame | script.js:50-51 | frame 0 is `/Frames/frame_001.jpg` |
| FrameLocator.LastFrame | script.js:49-51 | frame 208, the last of 209, is `/Frames/frame_209.jpg` |
| FrameLocator.PaddedIsThreeDigits | script.js:51 | for 1 <= n < 1000, the padded text is the three decimal digits of n written out one by one |
| FrameLocator.CurrentFrameShape | script.js:49-51 | each of the 209 locators is the prefix, three zero-padded digits of `i + 1`, and `.jpg` |
| FrameLocator.CurrentFrameRoundTrip | script.js:50-51 | the index can be read back from its locator; over exact integers this holds for every index, and JavaScript's number formatting agrees for the indices 0-208 the player uses |
| FrameLocator.CurrentFrameInjective | script.js:50-51 | distinct indices give distinct locators |
| LoadCounter.Start | script.js:53-78 | after the request loop, one slot per request and every slot pending; `imagesToLoad` and `totalImages` both equal the number of requests; nothing is published and `startAnimation` has not run |
| LoadCounter.OnLoad | script.js:58-70 | one call lowers `imagesToLoad` by exactly one, publishes the rounded percentage settled only when the counter element exists, and calls `startAnimation` exactly when the new count is zero |
| LoadCounter.Complete | script.js:72-75 | a settling image marks its own slot done, leaves every other slot alone, and lowers the count by one |
| LoadCounter.FailureCountsAsSuccess | script.js:74-75 | `onerror` changes the counter exactly as `onload` does |
| LoadCounter.PercentExact | script.js:62-63 | `Math.round(loaded / total * 100)` equals the integer `(200 * loaded + total) / (2 * total)` |
| LoadCounter.PercentBounds | script.js:61-64 | the published percentage lies in [0, 100]; it is 0 with nothing settled and 100 with everything settled |
| LoadCounter.PercentMonotonic | script.js:62-63 | more settled images never give a smaller percentage |
| LoadCounter.CompletePreserves | script.js:58-69 | settling a pending image keeps `imagesToLoad` equal to the number of pending slots; `startAnimation` runs on this completion if and only if it settled the last pending image |
| LoadCounter.StartConsistent | script.js:55-56 | the count starts equal to the number of pending slots |
| LoadCounter.StartedMeansAllSettled | script.js:67-69 | once `startAnimation` has run, every image has settled |
| LoadCounter.RunSettles | script.js:72-78 | after a run, a slot is settled if and only if it was settled before or some completion named it |
| LoadCounter.RunFromStart | script.js:58-78 | after k distinct completions: `imagesToLoad == total - k`, k <= total, `startAnimation` has run once if k == total and never before, exactly the named slots are settled, and the counter shows `Percent(k, total)` |
| LoadCounter.ProgressNeverDecreases | script.js:61-64 | the percentages published along a run stay in [0, 100], never decrease, and the final completion publishes 100 |
| LoadCounter.StartedRunSettledAll | script.js:58-78 | if `startAnimation` has run after a run from the start, the run held exactly one completion per image and every slot has settled |
| LoadCounter.StartFiresOnLastCompletion | script.js:67-69 | the call count is 0 after every prefix shorter than the total and 1 right after the completion that settles the last image |
| Numeric.Round | script.js:164 | `Math.round(x)` is the integer within one half of x, with halves rounded up |
| Numeric.RoundScaled | script.js:163-164 | `Math.round(a * m)` for a in [0, 1] and a natural m lies in [0, m] |
| Numeric.Min | script.js:163 | `Math.min(a, b)` is one of its arguments and no larger than either |
| ScrollMapping.TargetFrame | script.js:162-164 | for p >= 0 the frame lies in [0, frameCount - 1]; it is 0 at p = 0 and the last frame for every p >= 0.9 |
| ScrollMapping.TargetFrameMonotonic | script.js:163-164 | scrolling forward never selects an earlier frame |
| ScrollMapping.EveryFrameShown | script.js:163-164 | every frame k is the target at progress `0.9 * k / (frameCount - 1)`, so no frame is skipped |
| ScrollMapping.NavOpacity | script.js:168-173 | the navigation bar's opacity lies in [0, 1] for p in [0, 1]; it is 1 at the top and 0 from p = 0.1 on |
| ScrollMapping.NavFadesMonotonically | script.js:168-173 | the navigation opacity never increases as p grows |
| ScrollMapping.Header | script.js:175-189 | the header's opacity lies in [0, 1]; it is 1 before 0.2 and 0 from 0.25 on; its depth is set only up to 0.25, within [-500, 0] |
| ScrollMapping.HeaderRecedes | script.js:175-189 | moving forward, the header only fades and only recedes |
| ScrollMapping.Hero | script.js:191-200 | the hero image's opacity lies in [0, 1] and its depth in [0, 1000]; it is hidden at depth 1000 before 0.6 and fully shown at depth 0 from 0.9 on |
| ScrollMapping.HeroApproaches | script.js:191-200 | moving forward, the hero image only brightens and only comes closer |
| Renderer.CoverFit | script.js:87-101 | the wider-image branch matches the canvas height, the other branch matches the width; on any canvas, including a zero-sized one, the rectangle contains the whole canvas and is centred on it; unless both canvas sides are zero it has positive size and keeps the image's aspect ratio, and with both zero it is the empty rectangle at the origin |
| Renderer.CoverFitSmallest | script.js:91-101 | no aspect-preserving scale that covers the canvas gives a smaller rectangle |
| Renderer.CoverFitIsLargerRatio | script.js:87-101 | cover-fit is the image scaled by the larger of the two canvas-to-image ratios, then centred, for every canvas size including zero |
| Renderer.PortraitExample | script.js:87-101 | a 1920x1080 image on an 800x1000 canvas is drawn 16000/9 wide and 1000 high, at x = -4400/9 |
| Renderer.Render | script.js:80-104 | for any whole-pixel viewport, the canvas is always cleared first; the frame is drawn if and only if its image is complete with positive natural width, into the cover-fit rectangle of that image, which covers the canvas and is centred on it; an index outside the list draws nothing |
| Player.ImageOf | script.js:72-77 | the element for frame i requested `currentFrame(i)`; a pending image is incomplete; an image after `onerror` is complete with zero size; an image after `onload` is complete with positive size |
| Player.Images | script.js:72-78 | the `images` array has one element per slot, in frame order |
| Player.ImagesNameTheirFrames | script.js:72-77 | each element's locator reads back as its own position, so no two elements request the same file |
| Player.FirstPaint | script.js:106-107 | the first paint of `startAnimation` clears the canvas and draws frame 0 if and only if its image loaded |
| Player.OnScrollUpdate | script.js:161-200 | a scroll update selects a frame in [0, 208], the last frame from 0.9 on; it always clears, and draws that same frame if and only if its image loaded; the navigation, header and hero opacities stay in [0, 1] |
| Player.AllLoadedAlwaysPaints | script.js:161-166 | with every image loaded, every progress in [0, 1] paints a frame, and a later progress paints a later-or-equal frame |
| Player.FailedFrameOnlyClears | script.js:85-86 | scrolling onto a frame whose request failed clears the canvas and draws nothing |
| Player.StartSeesSettledImages | script.js:67-69 | when `startAnimation` runs at the end of a load run, all 209 requests have completed and every image element is complete |

## Left out

- DOM text splitting of the `.h1` heading (script.js:27-36): DOM plumbing with no computation to state.
- `setCanvasSize` and device-pixel-ratio scaling (script.js:39-46): canvas mutation only. The model works in CSS pixels, as the draw calls do once the context is scaled.
- The GSAP entrance timeline (script.js:106-151) beyond its first `render()`: cosmetic tweens run by a foreign library.
- Lenis, ScrollTrigger setup, the ticker and the resize listener (script.js:8-15, 153-160, 205-209). The scroll progress `p` and the viewport size are parameters. A resize is a `Render` with new dimensions.
- The string form of the header and hero `transform` values (script.js:184, 197). Only the numeric depth and opacity are modelled.
- Asynchronous image loading. Completions are a sequence of atomic events, as the single-threaded event loop delivers them.
- IEEE-754 rounding and NaN/Infinity: all arithmetic is exact over `real`.
- Renderer.CoverFit: requires positive image sizes. `render` only calls it for a ready image, and a decoded image has positive natural sizes. A zero-sized canvas is modelled, with the branch test evaluated as JavaScript does it.
- Renderer.Render: requires a ready image to have positive natural height, which decoded browser images always have; `script.js` checks only the natural width. With a zero height the image aspect would be Infinity, which exact reals cannot express.
- FrameLocator.ToDecimal: models `toString` of an exact natural number. JavaScript switches to exponent notation from 1e21 on, and `index + 1` is inexact above 2^53; neither matters for the indices 0-208 the player uses.
- compress.js: a one-shot batch script over `fs` and `sharp`, with no logic beyond an extension filter.
