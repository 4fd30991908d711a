/**
 The glue that ties the pieces together: the image list `render` reads is the
 load state's slots seen as image elements; `startAnimation` paints frame 0;
 every scroll update picks the target frame, paints it, and restyles the
 overlays.
 */
module Player {
  import FrameLocator
  import LoadCounter
  import Renderer
  import ScrollMapping
  import Wrappers

  /**
   The image element for frame `index`: it requested `currentFrame(index)`;
   pending ones are incomplete, failed ones complete but empty.
   */
  function ImageOf(slot: LoadCounter.Slot, index: nat): (img: Renderer.Image)
    ensures img.src == FrameLocator.CurrentFrame(index)
    ensures img.complete <==> slot.Done?
    ensures img.naturalWidth > 0 <==> slot.Done? && slot.outcome.Loaded?
    ensures img.naturalWidth > 0 <==> img.naturalHeight > 0
  {
    var src := FrameLocator.CurrentFrame(index);
    match slot
    case Pending => Renderer.Image(src, false, 0, 0)
    case Done(Loaded(w, h)) => Renderer.Image(src, true, w, h)
    case Done(Errored) => Renderer.Image(src, true, 0, 0)
  }

  /** The `images` array: one element per slot, in frame order. */
  function Images(s: LoadCounter.LoadState): (images: seq<Renderer.Image>)
    ensures |images| == |s.slots|
    ensures forall i :: 0 <= i < |images| ==> images[i] == ImageOf(s.slots[i], i)
  {
    seq(|s.slots|, i requires 0 <= i < |s.slots| => ImageOf(s.slots[i], i))
  }

  /**
   Each element of `images` names its own frame: its locator reads back as its
   position, so no two elements request the same file.
   */
  lemma ImagesNameTheirFrames(s: LoadCounter.LoadState, i: nat, j: nat)
    requires i < |s.slots| && j < |s.slots|
    ensures FrameLocator.FrameIndexOf(Images(s)[i].src) == Wrappers.Some(i)
    ensures i != j ==> Images(s)[i].src != Images(s)[j].src
  {
    FrameLocator.CurrentFrameRoundTrip(i);
    if i != j {
      FrameLocator.CurrentFrameInjective(i, j);
    }
  }

  /** The request for frame `i` ended in `onload`. */
  predicate LoadedAt(s: LoadCounter.LoadState, i: int) {
    0 <= i < |s.slots| && s.slots[i].Done? && s.slots[i].outcome.Loaded?
  }

  /** The paint `startAnimation` makes first: frame 0, the initial `videoFrames.frame`. */
  function FirstPaint(s: LoadCounter.LoadState, cw: nat, ch: nat): (ops: seq<Renderer.DrawOp>)
    ensures 1 <= |ops| && ops[0] == Renderer.ClearRect(Renderer.Rect(0.0, 0.0, cw as real, ch as real))
    ensures |ops| == 2 <==> LoadedAt(s, 0)
    ensures |ops| == 2 ==> ops[1].DrawImage? && ops[1].frame == 0
  {
    Renderer.Render(Images(s), 0, cw, ch)
  }

  /** Everything one scroll update sets. */
  datatype Update = Update(
    frame: int,
    ops: seq<Renderer.DrawOp>,
    navOpacity: real,
    header: ScrollMapping.HeaderStyle,
    hero: ScrollMapping.HeroStyle)

  /** The ScrollTrigger `onUpdate` callback at progress `p` on a `cw` x `ch` viewport. */
  function OnScrollUpdate(s: LoadCounter.LoadState, p: real, cw: nat, ch: nat): (u: Update)
    ensures 0.0 <= p ==> 0 <= u.frame < FrameLocator.FrameCount
    ensures ScrollMapping.Reveal <= p ==> u.frame == FrameLocator.FrameCount - 1
    ensures 1 <= |u.ops| && u.ops[0] == Renderer.ClearRect(Renderer.Rect(0.0, 0.0, cw as real, ch as real))
    ensures |u.ops| == 2 <==> LoadedAt(s, u.frame)
    ensures |u.ops| == 2 ==> u.ops[1].DrawImage? && u.ops[1].frame == u.frame
    ensures 0.0 <= p <= 1.0 ==> 0.0 <= u.navOpacity <= 1.0 && 0.0 <= u.header.opacity <= 1.0
    ensures 0.0 <= u.hero.opacity <= 1.0
  {
    var frame := ScrollMapping.TargetFrame(p, FrameLocator.FrameCount);
    Update(
      frame,
      Renderer.Render(Images(s), frame, cw, ch),
      ScrollMapping.NavOpacity(p),
      ScrollMapping.Header(p),
      ScrollMapping.Hero(p))
  }

  /**
   Once every image of the sequence has loaded, every scroll position in
   [0, 1] paints a frame, and later positions paint later-or-equal frames.
   */
  lemma AllLoadedAlwaysPaints(s: LoadCounter.LoadState, p1: real, p2: real, cw: nat, ch: nat)
    requires |s.slots| == FrameLocator.FrameCount
    requires forall i :: 0 <= i < |s.slots| ==> LoadedAt(s, i)
    requires 0.0 <= p1 <= p2 <= 1.0
    ensures |OnScrollUpdate(s, p1, cw, ch).ops| == 2 && |OnScrollUpdate(s, p2, cw, ch).ops| == 2
    ensures OnScrollUpdate(s, p1, cw, ch).ops[1].frame <= OnScrollUpdate(s, p2, cw, ch).ops[1].frame
  {
    ScrollMapping.TargetFrameMonotonic(p1, p2, FrameLocator.FrameCount);
  }

  /** Scrolling onto a frame whose request failed clears the canvas and draws nothing. */
  lemma FailedFrameOnlyClears(s: LoadCounter.LoadState, p: real, cw: nat, ch: nat)
    requires |s.slots| == FrameLocator.FrameCount && 0.0 <= p
    requires s.slots[ScrollMapping.TargetFrame(p, FrameLocator.FrameCount)] == LoadCounter.Done(LoadCounter.Errored)
    ensures OnScrollUpdate(s, p, cw, ch).ops == [Renderer.ClearRect(Renderer.Rect(0.0, 0.0, cw as real, ch as real))]
  {
  }

  /**
   When `startAnimation` runs at the end of a load run, every image has
   settled, and the first paint draws frame 0 exactly when it loaded.
   */
  lemma StartSeesSettledImages(hasCounterElement: bool, events: seq<LoadCounter.Completion>, cw: nat, ch: nat)
    requires LoadCounter.InRange(events, FrameLocator.FrameCount) && LoadCounter.EachOnce(events)
    requires LoadCounter.Run(LoadCounter.Start(FrameLocator.FrameCount, hasCounterElement), events).counter.startCalls == 1
    ensures var s := LoadCounter.Run(LoadCounter.Start(FrameLocator.FrameCount, hasCounterElement), events);
      && |events| == FrameLocator.FrameCount
      && (forall i :: 0 <= i < |s.slots| ==> Images(s)[i].complete)
      && (|FirstPaint(s, cw, ch)| == 2 <==> LoadedAt(s, 0))
  {
    LoadCounter.StartedRunSettledAll(FrameLocator.FrameCount, hasCounterElement, events);
  }
}
