/**
  The poster geometry of `make_tiktok_cover` in bot.py. Images are modelled by
  their dimensions only: resizing yields the requested size, blurring and
  pasting keep the size of the image they act on, and the pixels a paste
  overwrites are described by a rectangle of the canvas.
 */
module Composer {

  /** A raster image, by its dimensions. */
  datatype Image = Image(width: nat, height: nat)

  /** A half-open rectangle `[left, right) x [top, bottom)` of canvas pixels. */
  datatype Rect = Rect(left: int, top: int, right: int, bottom: int)

  /** Where and how large the sharp foreground is placed. */
  datatype Layout = Layout(newW: nat, newH: nat, x: int, y: int)

  const TargetW: nat := 1080
  const TargetH: nat := 1920
  const BlurRadius: nat := 45

  /** `int(TARGET_H * 0.75)`: the float product is exactly 1440.0. */
  const ForegroundH: nat := TargetH * 3 / 4

  // ---------------------------------------------------------------------------
  // The image primitives, by their effect on dimensions
  // ---------------------------------------------------------------------------

  /** `img.resize((w, h))`: a stretch to exactly the requested size. PIL
      refuses a width or height below 1 with a `ValueError`. */
  function Resize(img: Image, w: nat, h: nat): (r: Image)
    requires w >= 1 && h >= 1
    ensures r.width == w && r.height == h
  {
    Image(w, h)
  }

  /** `img.filter(GaussianBlur(radius))`: the pixels change, the size does not. */
  function Blur(img: Image, radius: nat): (r: Image)
    ensures r.width == img.width && r.height == img.height
  {
    img
  }

  /** `bg.paste(fg, (x, y))`: the background keeps its size; the foreground is
      clipped against it (see `PasteRegion`). */
  function Paste(bg: Image, fg: Image, x: int, y: int): (r: Image)
    ensures r.width == bg.width && r.height == bg.height
  {
    bg
  }

  function Max(a: int, b: int): (m: int) { if a < b then b else a }
  function Min(a: int, b: int): (m: int) { if a < b then a else b }

  predicate InRect(r: Rect, i: int, j: int)
  {
    r.left <= i < r.right && r.top <= j < r.bottom
  }

  /** The background pixels `bg.paste(fg, (x, y))` overwrites: those that lie
      both inside the background and under the shifted foreground. */
  function PasteRegion(bg: Image, fg: Image, x: int, y: int): (r: Rect)
    ensures 0 <= r.left && r.right <= bg.width && 0 <= r.top && r.bottom <= bg.height
    ensures forall i, j :: InRect(r, i, j) <==>
      (0 <= i < bg.width && 0 <= j < bg.height && x <= i < x + fg.width && y <= j < y + fg.height)
  {
    Rect(Max(0, x), Max(0, y), Min(bg.width, x + fg.width), Min(bg.height, y + fg.height))
  }

  // ---------------------------------------------------------------------------
  // The layout and the poster
  // ---------------------------------------------------------------------------

  /** Lines 89-96 of bot.py. The width `int(new_h * (w / h))` is taken with
      exact integers as `(new_h * w) / h`; `(TARGET_W - new_w) // 2` floors,
      which for the divisor 2 is Dafny's `/`. */
  function CoverLayout(src: Image): (l: Layout)
    requires src.width >= 1 && src.height >= 1
    ensures l.newH == 1440 && l.y == 240
    ensures l.newW * src.height <= 1440 * src.width < (l.newW + 1) * src.height
    ensures 2 * l.x <= TargetW - l.newW < 2 * l.x + 2
  {
    var newW := (ForegroundH * src.width) / src.height;
    Layout(newW, ForegroundH, (TargetW - newW) / 2, (TargetH - ForegroundH) / 2)
  }

  /** The sources `make_tiktok_cover` completes on: one whose foreground width
      is 0 makes the second resize raise (see `EmptyForegroundIffVeryTall`). */
  predicate Composable(src: Image)
  {
    src.width >= 1 && src.height >= 1 && 1440 * src.width >= src.height
  }

  /** `make_tiktok_cover(img)`: a stretched, blurred copy of the source as the
      background, with the aspect-preserving foreground pasted at its offset. */
  function MakeTiktokCover(src: Image): (poster: Image)
    requires Composable(src)
    ensures poster.width == TargetW && poster.height == TargetH
  {
    var bg := Blur(Resize(src, TargetW, TargetH), BlurRadius);
    var l := CoverLayout(src);
    EmptyForegroundIffVeryTall(src);
    var cover := Resize(src, l.newW, l.newH);
    Paste(bg, cover, l.x, l.y)
  }

  /** The canvas pixels of the poster that show the sharp foreground. */
  function ForegroundRegion(src: Image): (r: Rect)
    requires Composable(src)
    ensures r.top == 240 && r.bottom == 1680
    ensures r.left == if CoverLayout(src).x < 0 then 0 else CoverLayout(src).x
    ensures r.right == if CoverLayout(src).newW > TargetW then TargetW
                       else CoverLayout(src).x + CoverLayout(src).newW
  {
    var l := CoverLayout(src);
    EmptyForegroundIffVeryTall(src);
    PasteRegion(Resize(src, TargetW, TargetH), Resize(src, l.newW, l.newH), l.x, l.y)
  }

  // ---------------------------------------------------------------------------
  // Properties of the layout
  // ---------------------------------------------------------------------------

  /** A source that is at least as wide relative to its height gets an
      at least as wide foreground. */
  lemma WidthMonotoneInAspect(a: Image, b: Image)
    requires a.width >= 1 && a.height >= 1 && b.width >= 1 && b.height >= 1
    requires a.width * b.height <= b.width * a.height
    ensures CoverLayout(a).newW <= CoverLayout(b).newW
  {
    var na, nb := CoverLayout(a).newW, CoverLayout(b).newW;
    calc {
      na * a.height * b.height;
    <= { MulLeMono(na * a.height, 1440 * a.width, b.height); }
      1440 * a.width * b.height;
    <= { MulLeMono(a.width * b.height, b.width * a.height, 1440); }
      1440 * b.width * a.height;
    < { MulLtMono(1440 * b.width, (nb + 1) * b.height, a.height); }
      (nb + 1) * b.height * a.height;
    }
    assert (na * b.height) * a.height < ((nb + 1) * b.height) * a.height;
    MulLtCancel(na * b.height, (nb + 1) * b.height, a.height);
    MulLtCancel(na, nb + 1, b.height);
  }

  lemma MulLeMono(p: int, q: int, c: nat)
    requires p <= q
    ensures p * c <= q * c
  {
  }

  lemma MulLtMono(p: int, q: int, c: nat)
    requires p < q && c >= 1
    ensures p * c < q * c
  {
  }

  lemma MulLtCancel(p: int, q: int, c: nat)
    requires c >= 1 && p * c < q * c
    ensures p < q
  {
    if q <= p { MulLeMono(q, p, c); }
  }

  /** The right margin `TARGET_W - new_w - x` equals the left margin `x`, or
      exceeds it by one pixel when the foreground width is odd. */
  lemma MarginsBalanced(src: Image)
    requires src.width >= 1 && src.height >= 1
    ensures var l := CoverLayout(src);
      var right := TargetW - l.newW - l.x;
      0 <= right - l.x <= 1 && (right == l.x <==> l.newW % 2 == 0)
  {
  }

  /** The horizontal offset is negative exactly when the foreground is wider
      than the canvas, that is when `1440 * w >= 1081 * h`. */
  lemma NegativeOffsetIffWide(src: Image)
    requires src.width >= 1 && src.height >= 1
    ensures CoverLayout(src).x < 0 <==> CoverLayout(src).newW > TargetW
    ensures CoverLayout(src).newW > TargetW <==> 1440 * src.width >= 1081 * src.height
  {
    var l := CoverLayout(src);
    if 1440 * src.width >= 1081 * src.height {
      assert 1081 * src.height < (l.newW + 1) * src.height;
      MulLtCancel(1081, l.newW + 1, src.height);
    }
    if l.newW > TargetW {
      MulLeMono(1081, l.newW, src.height);
    }
  }

  /** A square source: a 1440-pixel square foreground, 180 pixels cut on each side. */
  lemma SquareSource(n: nat)
    requires n >= 1
    ensures CoverLayout(Image(n, n)) == Layout(1440, 1440, -180, 240)
  {
    var l := CoverLayout(Image(n, n));
    MulLtCancel(l.newW, 1441, n);
    MulLtCancel(1439, l.newW, n);
  }

  /** A foreground that fits the canvas width is shown whole. */
  lemma NarrowForegroundShownWhole(src: Image)
    requires Composable(src)
    requires CoverLayout(src).newW <= TargetW
    ensures var l := CoverLayout(src);
      ForegroundRegion(src) == Rect(l.x, l.y, l.x + l.newW, l.y + l.newH)
  {
  }

  /** A foreground wider than the canvas spans its full width, and the columns
      it loses on the left and on the right differ by at most one. */
  lemma WideForegroundSpansWidth(src: Image)
    requires Composable(src)
    requires CoverLayout(src).newW > TargetW
    ensures ForegroundRegion(src) == Rect(0, 240, TargetW, 1680)
    ensures var l := CoverLayout(src);
      var cutLeft := -l.x;
      var cutRight := l.newW - TargetW - cutLeft;
      0 < cutLeft && 0 <= cutLeft - cutRight <= 1
  {
    NegativeOffsetIffWide(src);
  }

  /** The foreground has no columns at all for a source taller than 1440
      times its width: exactly the sources that are not `Composable`. */
  lemma EmptyForegroundIffVeryTall(src: Image)
    requires src.width >= 1 && src.height >= 1
    ensures CoverLayout(src).newW == 0 <==> 1440 * src.width < src.height
    ensures CoverLayout(src).newW == 0 <==> !Composable(src)
  {
    var l := CoverLayout(src);
    if l.newW >= 1 { MulLeMono(1, l.newW, src.height); }
  }
}
