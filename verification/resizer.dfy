/**
 The letterbox fit of `image_resizer_for_esn_activities.py`: one uniform scale factor,
 the smaller of the two ratios that would make the image as high or as wide as the banner,
 Python `round` for the content size and for the centring offsets, and the resampled
 content pasted into a white 1920 by 460 canvas.
 */
module Resizer {
  import opened PyNum
  import opened Canvas
  import opened Optional

  /** `min(desired_height / H, desired_width / W)` for an image `w` wide and `h` high. */
  function ScaleFactor(w: int, h: int): (s: real)
    requires 0 < w && 0 < h
    ensures 0.0 < s
    ensures s <= (DesiredHeight as real) / (h as real) && s <= (DesiredWidth as real) / (w as real)
    ensures s == (DesiredHeight as real) / (h as real) || s == (DesiredWidth as real) / (w as real)
  {
    PyMin((DesiredHeight as real) / (h as real), (DesiredWidth as real) / (w as real))
  }

  /** Content size from `round(W * scale)` and `round(H * scale)`, offsets from
      `round((desired - content) / 2)`. */
  function Geometry(w: int, h: int): (l: Layout)
    requires 0 < w && 0 < h
  {
    var s := ScaleFactor(w, h);
    var cw := PyRound((w as real) * s);
    var ch := PyRound((h as real) * s);
    Layout(cw, ch,
           PyRound(((DesiredWidth - cw) as real) / 2.0),
           PyRound(((DesiredHeight - ch) as real) / 2.0))
  }

  /** The height ratio is the smaller one exactly when the image is no wider, relative to its
      height, than the banner; the scaled image then is exactly as high as the banner and no
      wider, and otherwise exactly as wide and strictly less high. */
  lemma ScaleFactorChoice(w: int, h: int)
    requires 0 < w && 0 < h
    ensures var s := ScaleFactor(w, h);
      460 * w <= 1920 * h ==> s == 460.0 / (h as real) && (h as real) * s == 460.0
                              && (w as real) * s == ((460 * w) as real) / (h as real)
    ensures var s := ScaleFactor(w, h);
      1920 * h < 460 * w ==> s == 1920.0 / (w as real) && (w as real) * s == 1920.0
                              && (h as real) * s == ((1920 * h) as real) / (w as real)
  {
    var a := 460.0 / (h as real);
    var b := 1920.0 / (w as real);
    CompareRatios(1920, w, 460, h);
    assert (w as real) * a == ((460 * w) as real) / (h as real);
    assert (h as real) * b == ((1920 * h) as real) / (w as real);
  }

  /** The `min` of the two ratios is a case split on the aspect ratio: an image no wider than
      the banner, relatively, gets the full 460 rows and `round(460*W/H)` columns, any other
      the full 1920 columns and `round(1920*H/W)` rows. */
  lemma GeometrySizes(w: int, h: int)
    requires 0 < w && 0 < h
    ensures var l := Geometry(w, h);
      460 * w <= 1920 * h ==>
        && l.contentWidth == PyRound(((460 * w) as real) / (h as real))
        && l.contentHeight == DesiredHeight
    ensures var l := Geometry(w, h);
      1920 * h < 460 * w ==>
        && l.contentWidth == DesiredWidth
        && l.contentHeight == PyRound(((1920 * h) as real) / (w as real))
  {
    ScaleFactorChoice(w, h);
    PyRoundOfInt(460);
    PyRoundOfInt(1920);
  }

  /** The content fits the banner and fills it in at least one direction (line 56-58). */
  lemma ContentFitsCanvas(w: int, h: int)
    requires 0 < w && 0 < h
    ensures var l := Geometry(w, h);
      && 0 <= l.contentWidth <= DesiredWidth
      && 0 <= l.contentHeight <= DesiredHeight
      && (l.contentWidth == DesiredWidth || l.contentHeight == DesiredHeight)
  {
    ContentKeepsAspect(w, h);
  }

  /** The content keeps the image's aspect ratio up to the rounding of one side: when the image
      is relatively higher than the banner, the content is 460 high and `round(460*W/H)` wide,
      so `|cw*H - 460*W| <= H/2`; otherwise it is 1920 wide and `|ch*W - 1920*H| <= W/2`. */
  lemma ContentKeepsAspect(w: int, h: int)
    requires 0 < w && 0 < h
    ensures var l := Geometry(w, h);
      460 * w <= 1920 * h ==>
        && l.contentHeight == DesiredHeight
        && 0 <= l.contentWidth <= DesiredWidth
        && -h <= 2 * (l.contentWidth * h - 460 * w) <= h
    ensures var l := Geometry(w, h);
      1920 * h < 460 * w ==>
        && l.contentWidth == DesiredWidth
        && 0 <= l.contentHeight <= DesiredHeight
        && -w <= 2 * (l.contentHeight * w - 1920 * h) <= w
  {
    GeometrySizes(w, h);
    if 460 * w <= 1920 * h {
      RoundedRatioBounds(460 * w, h, 1920);
    } else {
      RoundedRatioBounds(1920 * h, w, 460);
    }
  }

  /** The offsets put the content rectangle inside the canvas, so the slice assignment of
      line 68 never reaches past an edge. */
  lemma OffsetsInRange(w: int, h: int)
    requires 0 < w && 0 < h
    ensures InsideCanvas(Geometry(w, h))
  {
    var l := Geometry(w, h);
    ContentFitsCanvas(w, h);
    PyRoundHalf(DesiredWidth - l.contentWidth);
    PyRoundHalf(DesiredHeight - l.contentHeight);
  }

  /** Centring: the white bars on the left and on the right differ by at most one pixel, and
      so do the bars above and below. */
  lemma OffsetsCentered(w: int, h: int)
    requires 0 < w && 0 < h
    ensures var l := Geometry(w, h);
      var right := DesiredWidth - l.xStart - l.contentWidth;
      -1 <= l.xStart - right <= 1
    ensures var l := Geometry(w, h);
      var bottom := DesiredHeight - l.yStart - l.contentHeight;
      -1 <= l.yStart - bottom <= 1
  {
    var l := Geometry(w, h);
    ContentFitsCanvas(w, h);
    PyRoundHalf(DesiredWidth - l.contentWidth);
    PyRoundHalf(DesiredHeight - l.contentHeight);
  }

  /** `calc_resized_image`: the white canvas with the resampled content pasted at the computed
      offsets. A content side that rounds to zero makes `cv.resize` raise; that is `None`. */
  function CalcResizedImage(input: Image, resize: Resampler): (out: Option<Image>)
    requires IsImage(input)
    ensures var l := Geometry(Width(input), Height(input));
      out.Some? <==> 0 < l.contentWidth && 0 < l.contentHeight
    ensures out.Some? ==> IsGrid(out.value, DesiredHeight, DesiredWidth)
    ensures var l := Geometry(Width(input), Height(input));
      out.Some? ==>
        forall i, j :: 0 <= i < DesiredHeight && 0 <= j < DesiredWidth ==>
          out.value[i][j] ==
            if InRect(i, j, l.yStart, l.xStart, l.contentHeight, l.contentWidth)
            then resize(input, l.contentWidth, l.contentHeight)[i - l.yStart][j - l.xStart]
            else White
  {
    var l := Geometry(Width(input), Height(input));
    if l.contentWidth <= 0 || l.contentHeight <= 0 then None
    else
      OffsetsInRange(Width(input), Height(input));
      var blank := Filled(DesiredHeight, DesiredWidth, White);
      var scaled := resize(input, l.contentWidth, l.contentHeight);
      Some(Paste(blank, scaled, l.yStart, l.xStart))
  }
}
