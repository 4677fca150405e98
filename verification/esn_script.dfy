/**
 The letterbox fit of `esn_image_script.py`: the image's aspect ratio is compared with the
 banner's, the image is scaled either to the banner's height or to its width, the free side
 is sized with Python `round`, and the offset on that side with `int()` truncation.
 The lemmas at the end relate this version to the `min`-based one of module `Resizer`.
 */
module EsnScript {
  import opened PyNum
  import opened Canvas
  import opened Optional
  import Resizer

  /** `W / H < desired_width / desired_height`: the image is relatively higher than the banner. */
  predicate NarrowerThanBanner(w: int, h: int)
    requires 0 < w && 0 < h
  {
    (w as real) / (h as real) < (DesiredWidth as real) / (DesiredHeight as real)
  }

  /** `scale_to_match_height`'s sizes: the content is 460 high and `round(W * (460 / H))` wide,
      at column `int(1920/2 - content_width/2)` of row 0. */
  function HeightMatchLayout(w: int, h: int): (l: Layout)
    requires 0 < w && 0 < h
  {
    var cw := PyRound((w as real) * ((DesiredHeight as real) / (h as real)));
    Layout(cw, DesiredHeight, Trunc((DesiredWidth as real) / 2.0 - (cw as real) / 2.0), 0)
  }

  /** `scale_to_match_width`'s sizes: the content is 1920 wide and `round(H * (1920 / W))` high,
      at row `int(460/2 - content_height/2)` of column 0. */
  function WidthMatchLayout(w: int, h: int): (l: Layout)
    requires 0 < w && 0 < h
  {
    var ch := PyRound((h as real) * ((DesiredWidth as real) / (w as real)));
    Layout(DesiredWidth, ch, 0, Trunc((DesiredHeight as real) / 2.0 - (ch as real) / 2.0))
  }

  /** The layout `calc_resized_image` ends up using. */
  function BranchGeometry(w: int, h: int): (l: Layout)
    requires 0 < w && 0 < h
  {
    if NarrowerThanBanner(w, h) then HeightMatchLayout(w, h) else WidthMatchLayout(w, h)
  }

  /** The aspect-ratio test is the integer comparison `460*W < 1920*H`; the height path makes
      the content exactly as high as the banner, the width path exactly as wide. */
  lemma BranchChoice(w: int, h: int)
    requires 0 < w && 0 < h
    ensures NarrowerThanBanner(w, h) <==> 460 * w < 1920 * h
    ensures NarrowerThanBanner(w, h) ==> BranchGeometry(w, h).contentHeight == DesiredHeight
    ensures !NarrowerThanBanner(w, h) ==> BranchGeometry(w, h).contentWidth == DesiredWidth
  {
    CompareRatios(w, h, 1920, 460);
  }

  /** `round(W * (460 / H))` is the rounded quotient `round(460*W / H)`. */
  lemma HeightMatchWidthIsRatio(w: int, h: int)
    requires 0 < w && 0 < h
    ensures HeightMatchLayout(w, h).contentWidth == PyRound(((460 * w) as real) / (h as real))
  {
    assert DesiredHeight as real == 460 as real;
    MulRatio(w, 460, h);
    assert (w as real) * ((DesiredHeight as real) / (h as real)) == ((460 * w) as real) / (h as real);
  }

  /** `round(H * (1920 / W))` is the rounded quotient `round(1920*H / W)`. */
  lemma WidthMatchHeightIsRatio(w: int, h: int)
    requires 0 < w && 0 < h
    ensures WidthMatchLayout(w, h).contentHeight == PyRound(((1920 * h) as real) / (w as real))
  {
    assert DesiredWidth as real == 1920 as real;
    MulRatio(h, 1920, w);
    assert (h as real) * ((DesiredWidth as real) / (w as real)) == ((1920 * h) as real) / (w as real);
  }

  /** On the height path the content width is `round(460*W/H)`, within half a pixel of the
      exact aspect-preserving width, and never wider than the banner. */
  lemma HeightPathFits(w: int, h: int)
    requires 0 < w && 0 < h
    requires NarrowerThanBanner(w, h)
    ensures var l := HeightMatchLayout(w, h);
      && 0 <= l.contentWidth <= DesiredWidth
      && -h <= 2 * (l.contentWidth * h - 460 * w) <= h
  {
    BranchChoice(w, h);
    HeightMatchWidthIsRatio(w, h);
    RoundedRatioBounds(460 * w, h, 1920);
  }

  /** On the width path the content height is `round(1920*H/W)`, within half a pixel of the
      exact aspect-preserving height, and never higher than the banner. */
  lemma WidthPathFits(w: int, h: int)
    requires 0 < w && 0 < h
    requires !NarrowerThanBanner(w, h)
    ensures var l := WidthMatchLayout(w, h);
      && 0 <= l.contentHeight <= DesiredHeight
      && -w <= 2 * (l.contentHeight * w - 1920 * h) <= w
  {
    BranchChoice(w, h);
    WidthMatchHeightIsRatio(w, h);
    RoundedRatioBounds(1920 * h, w, 460);
  }

  /** On the height path the truncated offset keeps the content inside the banner, it covers
      every row, and the odd pixel of padding, if any, goes to the right-hand bar. */
  lemma HeightPathOffsets(w: int, h: int)
    requires 0 < w && 0 < h
    requires NarrowerThanBanner(w, h)
    ensures var l := HeightMatchLayout(w, h);
      && InsideCanvas(l)
      && l.yStart == 0 && l.contentHeight == DesiredHeight
      && var right := DesiredWidth - l.xStart - l.contentWidth;
         l.xStart == right || l.xStart == right - 1
  {
    HeightPathFits(w, h);
    TruncHalfDifference(DesiredWidth, HeightMatchLayout(w, h).contentWidth);
  }

  /** On the width path the truncated offset keeps the content inside the banner, it covers
      every column, and the odd pixel of padding, if any, goes to the bottom bar. */
  lemma WidthPathOffsets(w: int, h: int)
    requires 0 < w && 0 < h
    requires !NarrowerThanBanner(w, h)
    ensures var l := WidthMatchLayout(w, h);
      && InsideCanvas(l)
      && l.xStart == 0 && l.contentWidth == DesiredWidth
      && var bottom := DesiredHeight - l.yStart - l.contentHeight;
         l.yStart == bottom || l.yStart == bottom - 1
  {
    WidthPathFits(w, h);
    TruncHalfDifference(DesiredHeight, WidthMatchLayout(w, h).contentHeight);
  }

  /** `scale_to_match_height(in_img, out_img)`: every row of `canvas` gets the resampled content
      in the columns of the computed rectangle and keeps its own pixels elsewhere. */
  function ScaleToMatchHeight(input: Image, resize: Resampler, canvas: Image): (out: Option<Image>)
    requires IsImage(input) && IsGrid(canvas, DesiredHeight, DesiredWidth)
    requires NarrowerThanBanner(Width(input), Height(input))
    ensures out.Some? <==> 0 < HeightMatchLayout(Width(input), Height(input)).contentWidth
    ensures out.Some? ==> IsGrid(out.value, DesiredHeight, DesiredWidth)
    ensures var l := HeightMatchLayout(Width(input), Height(input));
      out.Some? ==>
        forall i, j :: 0 <= i < DesiredHeight && 0 <= j < DesiredWidth ==>
          out.value[i][j] ==
            if l.xStart <= j < l.xStart + l.contentWidth
            then resize(input, l.contentWidth, DesiredHeight)[i][j - l.xStart]
            else canvas[i][j]
  {
    var l := HeightMatchLayout(Width(input), Height(input));
    if l.contentWidth <= 0 then None
    else
      HeightPathOffsets(Width(input), Height(input));
      var scaled := resize(input, l.contentWidth, l.contentHeight);
      Some(Paste(canvas, scaled, 0, l.xStart))
  }

  /** `scale_to_match_width(in_img, out_img)`: every column of `canvas` gets the resampled content
      in the rows of the computed rectangle and keeps its own pixels elsewhere. */
  function ScaleToMatchWidth(input: Image, resize: Resampler, canvas: Image): (out: Option<Image>)
    requires IsImage(input) && IsGrid(canvas, DesiredHeight, DesiredWidth)
    requires !NarrowerThanBanner(Width(input), Height(input))
    ensures out.Some? <==> 0 < WidthMatchLayout(Width(input), Height(input)).contentHeight
    ensures out.Some? ==> IsGrid(out.value, DesiredHeight, DesiredWidth)
    ensures var l := WidthMatchLayout(Width(input), Height(input));
      out.Some? ==>
        forall i, j :: 0 <= i < DesiredHeight && 0 <= j < DesiredWidth ==>
          out.value[i][j] ==
            if l.yStart <= i < l.yStart + l.contentHeight
            then resize(input, DesiredWidth, l.contentHeight)[i - l.yStart][j]
            else canvas[i][j]
  {
    var l := WidthMatchLayout(Width(input), Height(input));
    if l.contentHeight <= 0 then None
    else
      WidthPathOffsets(Width(input), Height(input));
      var scaled := resize(input, l.contentWidth, l.contentHeight);
      Some(Paste(canvas, scaled, l.yStart, 0))
  }

  /** `calc_resized_image`: a white 1920 by 460 canvas, filled by whichever path the aspect
      ratio selects; outside the content rectangle every pixel stays white. */
  function CalcResizedImage(input: Image, resize: Resampler): (out: Option<Image>)
    requires IsImage(input)
    ensures var l := BranchGeometry(Width(input), Height(input));
      out.Some? <==> 0 < l.contentWidth && 0 < l.contentHeight
    ensures out.Some? ==> IsGrid(out.value, DesiredHeight, DesiredWidth)
    ensures var l := BranchGeometry(Width(input), Height(input));
      out.Some? ==>
        forall i, j :: 0 <= i < DesiredHeight && 0 <= j < DesiredWidth ==>
          out.value[i][j] ==
            if InRect(i, j, l.yStart, l.xStart, l.contentHeight, l.contentWidth)
            then resize(input, l.contentWidth, l.contentHeight)[i - l.yStart][j - l.xStart]
            else White
  {
    var blank := Filled(DesiredHeight, DesiredWidth, White);
    if NarrowerThanBanner(Width(input), Height(input)) then
      ScaleToMatchHeight(input, resize, blank)
    else
      ScaleToMatchWidth(input, resize, blank)
  }

  /** Both scripts compute the same content size for every image, including the boundary case
      of an image with exactly the banner's aspect ratio, where they take different branches. */
  lemma SameContentSize(w: int, h: int)
    requires 0 < w && 0 < h
    ensures BranchGeometry(w, h).contentWidth == Resizer.Geometry(w, h).contentWidth
    ensures BranchGeometry(w, h).contentHeight == Resizer.Geometry(w, h).contentHeight
  {
    BranchChoice(w, h);
    Resizer.GeometrySizes(w, h);
    HeightMatchWidthIsRatio(w, h);
    WidthMatchHeightIsRatio(w, h);
    if 460 * w == 1920 * h {
      // The image has the banner's aspect ratio: the two scripts take different branches,
      // but both quotients are whole numbers.
      assert 460 * w == 1920 * h && 1920 * h == 460 * w;
      RatioOfMultiple(1920, h);
      RatioOfMultiple(460, w);
      assert (1920 * h) as real == (460 * w) as real;
      PyRoundOfInt(1920);
      PyRoundOfInt(460);
    }
  }

  /** The offsets differ only through rounding versus truncation of the same half-padding:
      the `min`-based script's offset is this script's or one more, and the two agree exactly
      unless the padding `p` has `p % 4 == 3`, whose half `2k + 1.5` Python rounds up to the
      even `2k + 2` where truncation gives `2k + 1`. */
  lemma OffsetsDifferByRounding(w: int, h: int)
    requires 0 < w && 0 < h
    ensures var a := Resizer.Geometry(w, h);
      var b := BranchGeometry(w, h);
      && 0 <= a.xStart - b.xStart <= 1 && 0 <= a.yStart - b.yStart <= 1
      && (a.xStart == b.xStart <==> (DesiredWidth - a.contentWidth) % 4 != 3)
      && (a.yStart == b.yStart <==> (DesiredHeight - a.contentHeight) % 4 != 3)
  {
    var a := Resizer.Geometry(w, h);
    var b := BranchGeometry(w, h);
    SameContentSize(w, h);
    Resizer.ContentFitsCanvas(w, h);
    RoundVersusTruncHalf(DesiredWidth, a.contentWidth);
    RoundVersusTruncHalf(DesiredHeight, a.contentHeight);
    BranchChoice(w, h);
    if NarrowerThanBanner(w, h) {
      assert b.xStart == Trunc((DesiredWidth as real) / 2.0 - (a.contentWidth as real) / 2.0);
      assert a.yStart == 0 && b.yStart == 0;
    } else {
      assert b.yStart == Trunc((DesiredHeight as real) / 2.0 - (a.contentHeight as real) / 2.0);
      assert a.xStart == 0 && b.xStart == 0;
    }
  }

  /** Both scripts fail on the same images: those for which a content side rounds to zero. */
  lemma SameFailures(input: Image, resize: Resampler)
    requires IsImage(input)
    ensures Resizer.CalcResizedImage(input, resize).Some? <==> CalcResizedImage(input, resize).Some?
  {
    SameContentSize(Width(input), Height(input));
  }

  /** When the offsets agree the two scripts produce the very same canvas, pixel for pixel,
      given the same resampler. */
  lemma SameCanvasWhenOffsetsAgree(input: Image, resize: Resampler)
    requires IsImage(input)
    requires var a := Resizer.Geometry(Width(input), Height(input));
      var b := BranchGeometry(Width(input), Height(input));
      a.xStart == b.xStart && a.yStart == b.yStart
    ensures Resizer.CalcResizedImage(input, resize) == CalcResizedImage(input, resize)
  {
    var w, h := Width(input), Height(input);
    SameContentSize(w, h);
    var x := Resizer.CalcResizedImage(input, resize);
    var y := CalcResizedImage(input, resize);
    if x.Some? {
      var p, q := x.value, y.value;
      assert |p| == |q|;
      forall i | 0 <= i < |p|
        ensures p[i] == q[i]
      {
        assert |p[i]| == |q[i]|;
      }
    }
  }

  /** An 800 by 600 photograph: 613 by 460 content in both scripts; the padding 1307 has
      `1307 % 4 == 3`, so one script starts it at column 654 and the other at 653. */
  lemma Example800x600()
    ensures Resizer.Geometry(800, 600) == Layout(613, 460, 654, 0)
    ensures BranchGeometry(800, 600) == Layout(613, 460, 653, 0)
  {
    Resizer.GeometrySizes(800, 600);
    HeightMatchWidthIsRatio(800, 600);
    BranchChoice(800, 600);
    assert PyRound(368000.0 / 600.0) == 613;
    assert PyRound(1307.0 / 2.0) == 654;
  }

  /** A 4000 by 400 panorama: 1920 by 192 content at row 134 in both scripts. */
  lemma Example4000x400()
    ensures Resizer.Geometry(4000, 400) == Layout(1920, 192, 0, 134)
    ensures BranchGeometry(4000, 400) == Layout(1920, 192, 0, 134)
  {
    Resizer.GeometrySizes(4000, 400);
    WidthMatchHeightIsRatio(4000, 400);
    BranchChoice(4000, 400);
    assert PyRound(768000.0 / 4000.0) == 192;
    PyRoundOfInt(0);
    PyRoundOfInt(134);
  }
}
