/**
 The `render` step: clear the canvas, then, if the current frame's image has
 decoded, draw it "cover-fit" — scaled to fill the whole canvas, keeping its
 aspect ratio, centred, with the overflow cropped.
 */
module Renderer {
  import Numeric

  /** A destination rectangle in CSS pixels. */
  datatype Rect = Rect(x: real, y: real, width: real, height: real)

  /** What an `HTMLImageElement` exposes: the locator it requested, and what `render` reads. */
  datatype Image = Image(src: string, complete: bool, naturalWidth: nat, naturalHeight: nat)

  /** The canvas calls `render` makes, in order. */
  datatype DrawOp =
    | ClearRect(area: Rect)
    | DrawImage(frame: nat, dest: Rect)

  /** The rectangle contains the whole `width` x `height` canvas. */
  predicate Covers(r: Rect, width: real, height: real) {
    r.x <= 0.0 && r.y <= 0.0 && r.x + r.width >= width && r.y + r.height >= height
  }

  /** The rectangle's centre is the canvas's centre. */
  predicate Centred(r: Rect, width: real, height: real) {
    r.x + r.width / 2.0 == width / 2.0 && r.y + r.height / 2.0 == height / 2.0
  }

  /**
   `imageAspect > canvasAspect` as JavaScript evaluates it. With a zero canvas
   height the canvas aspect is Infinity (or NaN when the width is zero too), and
   the comparison is false.
   */
  predicate WiderThanCanvas(iw: real, ih: real, cw: real, ch: real)
    requires ih > 0.0
  {
    ch > 0.0 && iw / ih > cw / ch
  }

  /**
   The cover-fit rectangle of an `iw` x `ih` image on a `cw` x `ch` canvas.
   A relatively wider image is scaled to the canvas height and centred
   horizontally; any other is scaled to the canvas width and centred vertically.
   A zero-sized canvas is allowed: the rectangle still covers it and is centred,
   and it degenerates to a point only when both sides are zero.
   */
  function CoverFit(iw: real, ih: real, cw: real, ch: real): (r: Rect)
    requires iw > 0.0 && ih > 0.0 && cw >= 0.0 && ch >= 0.0
    ensures WiderThanCanvas(iw, ih, cw, ch) ==> r.height == ch && r.y == 0.0
    ensures !WiderThanCanvas(iw, ih, cw, ch) ==> r.width == cw && r.x == 0.0
    ensures cw > 0.0 || ch > 0.0 ==> r.width > 0.0 && r.height > 0.0 && r.width / r.height == iw / ih
    ensures cw == 0.0 && ch == 0.0 ==> r == Rect(0.0, 0.0, 0.0, 0.0)
    ensures Covers(r, cw, ch)
    ensures Centred(r, cw, ch)
  {
    var imageAspect := iw / ih;
    if WiderThanCanvas(iw, ih, cw, ch) then
      var drawHeight := ch;
      var drawWidth := drawHeight * imageAspect;
      WideImageCovers(imageAspect, cw / ch, cw, ch);
      Rect((cw - drawWidth) / 2.0, 0.0, drawWidth, drawHeight)
    else
      var drawWidth := cw;
      var drawHeight := drawWidth / imageAspect;
      TallImageCovers(imageAspect, cw, ch);
      Rect(0.0, (ch - drawHeight) / 2.0, drawWidth, drawHeight)
  }

  lemma WideImageCovers(ia: real, ca: real, cw: real, ch: real)
    requires ia > ca && ch > 0.0 && cw >= 0.0 && ca == cw / ch
    ensures ch * ia > cw
    ensures (ch * ia) / ch == ia
  {
    assert ca * ch == cw;
    assert (ia - ca) * ch > 0.0;
    assert (ch * ia) / ch * ch == ch * ia;
    Numeric.Cancel((ch * ia) / ch, ia, ch);
  }

  lemma TallImageCovers(ia: real, cw: real, ch: real)
    requires 0.0 < ia && cw >= 0.0 && ch >= 0.0
    requires ch > 0.0 ==> ia <= cw / ch
    ensures cw / ia >= ch
    ensures cw > 0.0 ==> cw / ia > 0.0 && cw / (cw / ia) == ia
  {
    var h := cw / ia;
    assert h * ia == cw;
    if ch > 0.0 {
      var ca := cw / ch;
      assert ca * ch == cw;
      assert ch * ia <= ch * ca;
      Numeric.CancelLe(ch, h, ia);
    }
    if cw > 0.0 {
      assert h > 0.0;
      assert cw / h * h == cw;
      Numeric.Cancel(cw / h, ia, h);
    }
  }

  /**
   No aspect-preserving scale that covers the canvas gives a smaller
   rectangle: cover-fit crops as little as possible.
   */
  lemma CoverFitSmallest(iw: real, ih: real, cw: real, ch: real, s: real)
    requires iw > 0.0 && ih > 0.0 && cw >= 0.0 && ch >= 0.0
    requires iw * s >= cw && ih * s >= ch
    ensures CoverFit(iw, ih, cw, ch).width <= iw * s
    ensures CoverFit(iw, ih, cw, ch).height <= ih * s
  {
    var ia := iw / ih;
    CoverFitSides(iw, ih, cw, ch);
    if cw == 0.0 && ch == 0.0 {
    } else if WiderThanCanvas(iw, ih, cw, ch) {
      HeightFitSmallest(iw, ih, ia, ch, s);
    } else {
      WidthFitSmallest(iw, ih, ia, cw, CoverFit(iw, ih, cw, ch).height, s);
    }
  }

  /** The side cover-fit does not pin to the canvas, in terms of the image aspect. */
  lemma CoverFitSides(iw: real, ih: real, cw: real, ch: real)
    requires iw > 0.0 && ih > 0.0 && cw >= 0.0 && ch >= 0.0
    ensures iw / ih > 0.0 && iw / ih * ih == iw
    ensures WiderThanCanvas(iw, ih, cw, ch) ==> CoverFit(iw, ih, cw, ch).width == ch * (iw / ih)
    ensures !WiderThanCanvas(iw, ih, cw, ch) ==> CoverFit(iw, ih, cw, ch).height * (iw / ih) == cw
  {
    var ia := iw / ih;
    assert ia * ih == iw;
    if !WiderThanCanvas(iw, ih, cw, ch) {
      assert cw / ia * ia == cw;
    }
  }

  lemma HeightFitSmallest(iw: real, ih: real, ia: real, ch: real, s: real)
    requires ia > 0.0 && ia * ih == iw && ih * s >= ch
    ensures ch * ia <= iw * s
  {
    assert ch * ia <= ih * s * ia;
  }

  lemma WidthFitSmallest(iw: real, ih: real, ia: real, cw: real, h: real, s: real)
    requires ia > 0.0 && ia * ih == iw && h * ia == cw && iw * s >= cw
    ensures h <= ih * s
  {
    assert (ih * s) * ia == (ia * ih) * s;
    assert h * ia <= (ih * s) * ia;
    Numeric.CancelLe(h, ih * s, ia);
  }

  /** The image scaled by `s` and centred on the canvas. */
  function ScaledCentred(iw: real, ih: real, cw: real, ch: real, s: real): Rect {
    Rect((cw - iw * s) / 2.0, (ch - ih * s) / 2.0, iw * s, ih * s)
  }

  /**
   Cover-fit is the image scaled by the larger of the two canvas-to-image
   ratios, and centred.
   */
  lemma CoverFitIsLargerRatio(iw: real, ih: real, cw: real, ch: real)
    requires iw > 0.0 && ih > 0.0 && cw >= 0.0 && ch >= 0.0
    ensures CoverFit(iw, ih, cw, ch)
         == ScaledCentred(iw, ih, cw, ch, Numeric.Max(cw / iw, ch / ih))
  {
    if WiderThanCanvas(iw, ih, cw, ch) {
      WideIsHeightRatio(iw, ih, cw, ch);
    } else {
      TallIsWidthRatio(iw, ih, cw, ch);
    }
  }

  lemma WideIsHeightRatio(iw: real, ih: real, cw: real, ch: real)
    requires iw > 0.0 && ih > 0.0 && cw >= 0.0 && ch >= 0.0
    requires WiderThanCanvas(iw, ih, cw, ch)
    ensures CoverFit(iw, ih, cw, ch)
         == ScaledCentred(iw, ih, cw, ch, Numeric.Max(cw / iw, ch / ih))
  {
    HeightRatioLarger(iw, ih, cw, ch);
    HeightScale(iw, ih, ch);
  }

  lemma TallIsWidthRatio(iw: real, ih: real, cw: real, ch: real)
    requires iw > 0.0 && ih > 0.0 && cw >= 0.0 && ch >= 0.0
    requires !WiderThanCanvas(iw, ih, cw, ch)
    ensures CoverFit(iw, ih, cw, ch)
         == ScaledCentred(iw, ih, cw, ch, Numeric.Max(cw / iw, ch / ih))
  {
    WidthRatioLarger(iw, ih, cw, ch);
    WidthScale(iw, ih, cw);
  }

  lemma HeightRatioLarger(iw: real, ih: real, cw: real, ch: real)
    requires iw > 0.0 && ih > 0.0 && cw >= 0.0 && ch >= 0.0
    requires WiderThanCanvas(iw, ih, cw, ch)
    ensures Numeric.Max(cw / iw, ch / ih) == ch / ih
  {
    Numeric.CrossLt(cw, ch, iw, ih);
    Numeric.CrossLt(cw, iw, ch, ih);
    assert cw * ih == ih * cw && iw * ch == ch * iw;
  }

  lemma WidthRatioLarger(iw: real, ih: real, cw: real, ch: real)
    requires iw > 0.0 && ih > 0.0 && cw >= 0.0 && ch >= 0.0
    requires !WiderThanCanvas(iw, ih, cw, ch)
    ensures Numeric.Max(cw / iw, ch / ih) == cw / iw
  {
    if ch > 0.0 {
      Numeric.CrossLt(cw, ch, iw, ih);
      Numeric.CrossLt(cw, iw, ch, ih);
      assert cw * ih == ih * cw && iw * ch == ch * iw;
    } else {
      assert ch / ih == 0.0;
    }
  }

  lemma HeightScale(iw: real, ih: real, ch: real)
    requires iw > 0.0 && ih > 0.0 && ch > 0.0
    ensures iw * (ch / ih) == ch * (iw / ih)
    ensures ih * (ch / ih) == ch
  {
    var sh := ch / ih;
    var ia := iw / ih;
    assert sh * ih == ch && ia * ih == iw;
    assert iw * sh * ih == ch * ia * ih;
    Numeric.Cancel(iw * sh, ch * ia, ih);
  }

  lemma WidthScale(iw: real, ih: real, cw: real)
    requires iw > 0.0 && ih > 0.0 && cw >= 0.0
    ensures iw * (cw / iw) == cw
    ensures ih * (cw / iw) == cw / (iw / ih)
  {
    var sw := cw / iw;
    var ia := iw / ih;
    assert sw * iw == cw && ia * ih == iw;
    assert ih * sw * ia == cw;
    assert cw / ia * ia == cw;
    Numeric.Cancel(ih * sw, cw / ia, ia);
  }

  /** A landscape 1920 x 1080 frame on an 800 x 1000 portrait canvas. */
  lemma PortraitExample()
    ensures CoverFit(1920.0, 1080.0, 800.0, 1000.0) == Rect(-4400.0 / 9.0, 0.0, 16000.0 / 9.0, 1000.0)
  {
    assert 1920.0 / 1080.0 == 16.0 / 9.0;
    assert 16.0 / 9.0 > 800.0 / 1000.0;
  }

  /** `img && img.complete && img.naturalWidth > 0` for `images[frame]`. */
  predicate Ready(images: seq<Image>, frame: int) {
    0 <= frame < |images| && images[frame].complete && images[frame].naturalWidth > 0
  }

  /**
   `render()`: always clears the `cw` x `ch` canvas (`innerWidth` x
   `innerHeight`, whole CSS pixels); draws the current frame, cover-fit, only
   when its image is ready. An index outside the image list reads `undefined`
   and draws nothing.
   */
  function Render(images: seq<Image>, frame: int, cw: nat, ch: nat): (ops: seq<DrawOp>)
    requires Ready(images, frame) ==> images[frame].naturalHeight > 0
    ensures 1 <= |ops| <= 2
    ensures ops[0] == ClearRect(Rect(0.0, 0.0, cw as real, ch as real))
    ensures |ops| == 2 <==> Ready(images, frame)
    ensures |ops| == 2 ==>
      && ops[1].DrawImage?
      && ops[1].frame == frame
      && ops[1].dest == CoverFit(images[frame].naturalWidth as real, images[frame].naturalHeight as real,
                                 cw as real, ch as real)
      && Covers(ops[1].dest, cw as real, ch as real)
      && Centred(ops[1].dest, cw as real, ch as real)
      && (cw > 0 || ch > 0 ==>
            ops[1].dest.width / ops[1].dest.height
            == images[frame].naturalWidth as real / images[frame].naturalHeight as real)
  {
    var clear := ClearRect(Rect(0.0, 0.0, cw as real, ch as real));
    if Ready(images, frame) then
      var img := images[frame];
      [clear, DrawImage(frame, CoverFit(img.naturalWidth as real, img.naturalHeight as real, cw as real, ch as real))]
    else
      [clear]
  }
}
