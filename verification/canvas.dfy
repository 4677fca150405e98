/**
 Pixel grids as the scripts handle them through numpy: an image is a sequence of rows,
 each row a sequence of 3-channel 8-bit pixels (OpenCV's blue, green, red order).
 `shape[0]` is the number of rows (the height) and `shape[1]` the length of a row (the width).
 */
module Canvas {

  /** The activities.esn.org banner format: 1920 pixels wide, 460 pixels high. */
  const DesiredWidth: int := 1920
  const DesiredHeight: int := 460

  /** Where the resampled content goes on the canvas: its size and its top-left corner. */
  datatype Layout = Layout(contentWidth: int, contentHeight: int, xStart: int, yStart: int)

  /** The content rectangle of `l` lies inside the canvas, so the slice assignment is in bounds. */
  predicate InsideCanvas(l: Layout)
  {
    && 0 <= l.xStart && l.xStart + l.contentWidth <= DesiredWidth
    && 0 <= l.yStart && l.yStart + l.contentHeight <= DesiredHeight
  }

  /** numpy's `uint8`. */
  newtype byte = x: int | 0 <= x < 256

  datatype Pixel = Pixel(blue: byte, green: byte, red: byte)

  /** The background colour of the output canvas: every channel at 255. */
  const White: Pixel := Pixel(255, 255, 255)

  type Image = seq<seq<Pixel>>

  /** `img` is a rectangle of `rows` rows of `cols` pixels each. */
  ghost predicate IsGrid(img: Image, rows: int, cols: int)
  {
    && |img| == rows
    && forall i :: 0 <= i < |img| ==> |img[i]| == cols
  }

  /** The numpy shape `(height, width)` of an image. */
  function Height(img: Image): (n: nat)
  {
    |img|
  }

  function Width(img: Image): (n: nat)
  {
    if |img| == 0 then 0 else |img[0]|
  }

  /** A decoded image: a non-empty rectangle of pixels. */
  ghost predicate IsImage(img: Image)
  {
    && 0 < Height(img)
    && 0 < Width(img)
    && IsGrid(img, Height(img), Width(img))
  }

  /** A `rows` by `cols` grid filled with one pixel: `p * np.ones((rows, cols, 3))`. */
  function Filled(rows: nat, cols: nat, p: Pixel): (img: Image)
    ensures IsGrid(img, rows, cols)
    ensures forall i, j :: 0 <= i < rows && 0 <= j < cols ==> img[i][j] == p
  {
    seq(rows, _ => seq(cols, _ => p))
  }

  /** Pixel `(i, j)` lies in the `height` by `width` rectangle whose top-left corner is `(top, left)`. */
  predicate InRect(i: int, j: int, top: int, left: int, height: int, width: int)
  {
    top <= i < top + height && left <= j < left + width
  }

  /** The numpy slice assignment `canvas[top:top+h, left:left+w] = content`, on one row. */
  function PasteRow(row: seq<Pixel>, content: seq<Pixel>, left: nat): (r: seq<Pixel>)
    requires left + |content| <= |row|
    ensures |r| == |row|
    ensures forall j :: 0 <= j < |row| ==>
      r[j] == if left <= j < left + |content| then content[j - left] else row[j]
  {
    row[..left] + content + row[left + |content|..]
  }

  /** The numpy slice assignment `canvas[top:top+h, left:left+w] = content` for an `h` by `w`
      content grid; numpy demands that the slice lies inside the canvas, or the shapes differ. */
  function Paste(canvas: Image, content: Image, top: nat, left: nat): (out: Image)
    requires IsGrid(canvas, Height(canvas), Width(canvas))
    requires IsGrid(content, Height(content), Width(content))
    requires top + Height(content) <= Height(canvas)
    requires left + Width(content) <= Width(canvas)
    ensures IsGrid(out, Height(canvas), Width(canvas))
    ensures forall i, j :: 0 <= i < Height(canvas) && 0 <= j < Width(canvas) ==>
      out[i][j] == if InRect(i, j, top, left, Height(content), Width(content))
                   then content[i - top][j - left]
                   else canvas[i][j]
  {
    seq(|canvas|, i requires 0 <= i < |canvas| =>
      if top <= i < top + |content| then PasteRow(canvas[i], content[i - top], left)
      else canvas[i])
  }

  /** OpenCV's `cv.resize(img, (width, height))`: the pixel values it computes are not modelled,
      only that the result has exactly the requested size whenever both sides are positive. */
  ghost predicate ResizesExactly(f: (Image, int, int) -> Image)
  {
    forall img, width, height :: 0 < width && 0 < height ==> IsGrid(f(img, width, height), height, width)
  }

  /** The functions that can stand for `cv.resize` with `INTER_AREA`: any content, exact size. */
  type Resampler = f: (Image, int, int) -> Image | ResizesExactly(f)
    witness (img: Image, width: int, height: int) =>
      if 0 < width && 0 < height then Filled(height, width, White) else []
}
