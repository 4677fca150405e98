# ESN banner resizer — a Dafny model

The repository is a small desktop tool, in two versions. The user picks a folder and an image.
The tool fits the image into the 1920 by 460 banner format of activities.esn.org. The aspect
ratio is kept and the free space is padded with white. The result is saved next to the source
as `<stem>_ESN_OK<ext>`.

Both scripts share the same three pieces of pure logic:

- **Letterbox fit.** The content size and offsets are computed for an image `W` wide and `H` high. The resampled content is then pasted into a white 460-row, 1920-column, 3-channel canvas.
  - `image_resizer_for_esn_activities.py` scales by `min(460/H, 1920/W)`. It uses Python `round` for the sizes and for the centring offsets. This is module `Resizer`.
  - `esn_image_script.py` branches on `W/H < 1920/460`. It scales to the banner's height or width, uses `round` for the free side and `int()` for the offset. This is module `EsnScript`.
- **Folder filter.** The script keeps the listed names that are regular files and whose lower-cased form ends with one of 14 image extensions. This is module `FileFilter`.
- **Output name.** The name is `os.path.splitext(path)[0] + "_ESN_OK"`, then `".jpg"` ("Save jpg") or the original extension ("Save"). This is module `PathName`.

Support modules:

- `PyNum` holds Python's `round` (ties to even), `int()` (truncation toward zero) and `min`. They work on exact reals, and the module has the ratio lemmas the geometry needs.
- `Canvas` holds pixels, grids, the numpy slice assignment (`Paste`) and the constants 1920 and 460. It also holds `Resampler`, the type of functions that return a grid of exactly the requested size. This is how `cv.resize` is modelled.
- `Optional` holds `Option`. `None` stands for the exception that `cv.resize` raises when a content side rounds to 0. Both scripts swallow that exception.

The main results:

- Whenever no content side rounds to 0, both versions produce a 460 by 1920 canvas. (For `W = 1`, `H = 920` the width is `round(0.5) == 0`, `cv.resize` raises, and the model gives `None`.) The content fits and fills the banner in at least one direction, and keeps the aspect ratio to within half a pixel on the rounded side.
- The offsets stay in range, and opposite white bars differ by at most one pixel. Every pixel outside the pasted rectangle is white, and every pixel inside is the resampled content.
- The two versions compute the same content size for every image. This includes an image with exactly the banner's aspect ratio, where they take different branches.
- Their offsets differ by at most one. They agree exactly unless the padding `p` has `p % 4 == 3`. When they agree, the two canvases are identical (`EsnScript.SameCanvasWhenOffsetsAgree`).
- The filter keeps a name iff `os.path.isfile` holds for it and its lower-cased form ends with a listed extension. It distributes over concatenation, so it keeps listing order.
- The output name never equals the source name. It lies in the same folder. `splitext` of the output gives back the stem plus `_ESN_OK` and the chosen extension.

A behaviour worth knowing: a file named only by an extension, such as `.png`, passes the filter
(`FileFilter.ExampleExtensionOnly`). But `splitext` gives it no extension, so "Save" names the
output `.png_ESN_OK`, which `splitext` says has no extension (`PathName.DotOnlyNameLosesExtension`).
In `image_resizer_for_esn_activities.py` the encoder then gets the empty extension:
`cv.imencode("")` (line 194) finds no encoder and raises. The bare `except` swallows the error, so
nothing is written. `esn_image_script.py` passes the whole name to `cv.imwrite` (line 186) instead.
OpenCV picks the format from the characters after the last dot of the whole name, not by
`splitext`'s rule, so that script most likely writes a PNG named `.png_ESN_OK`. Encoding is outside
the model, so these last steps are stated here, not proved.

Two more facts about the code:

- The bars are not always equal. For an 800×600 image the `min`-based script leaves 654 white columns on the left and 653 on the right (`round(653.5) == 654`). The branching script leaves 653 and 654 (`EsnScript.Example800x600`).
- Both scripts swallow every error silently, and the model keeps that. A folder that cannot be listed gives an empty listing. A resize that cannot happen gives `None`.

## Model

| member | source | states |
|---|---|---|
| PyNum.PyRound | image_resizer_for_esn_activities.py:57-58 | Python 3 `round`: the result is within one half of the argument, and an exact half goes to the even neighbour |
| PyNum.PyRoundUnique | image_resizer_for_esn_activities.py:64-65 | the two clauses of `PyRound`'s contract determine the rounded value uniquely |
| PyNum.Trunc | esn_image_script.py:50 | `int()` on a number: truncation toward zero, within one unit of the argument on its side of zero |
| PyNum.PyMin | image_resizer_for_esn_activities.py:56 | `min` returns one of its two arguments and is at most both |
| PyNum.PyRoundHalf | image_resizer_for_esn_activities.py:64-65 | `round(p/2)` for a padding `p >= 0` lies in `0..p` and splits `p` into two parts differing by at most one; it rounds down exactly when `p % 4 == 1` and up exactly when `p % 4 == 3` |
| PyNum.TruncHalfDifference | esn_image_script.py:50 | `int(a/2 - b/2)` for `0 <= b <= a` is the floor of `(a-b)/2` |
| PyNum.RoundVersusTruncHalf | esn_image_script.py:65 | rounding the half-padding gives the truncated value or one more, and the same value exactly when `p % 4 != 3` |
| PyNum.RoundedRatioBounds | image_resizer_for_esn_activities.py:57 | `round(a/c)` for `0 <= a <= m*c` lies in `0..m` and `round(a/c)*c` is within `c/2` of `a` |
| PyNum.CompareRatios | esn_image_script.py:76 | comparing `n/c < m/d` for positive `c`, `d` is the integer comparison `n*d < m*c` |
| Canvas.Filled | image_resizer_for_esn_activities.py:53 | `255 * np.ones((460, 1920, 3))`: a grid of exactly the requested rows and columns with every pixel equal to the fill |
| Canvas.Paste | image_resizer_for_esn_activities.py:68 | slice assignment: the canvas keeps its size, pixels in the rectangle are the content's at the shifted position, all others are unchanged |
| Canvas.ResizesExactly | image_resizer_for_esn_activities.py:61 | what the model assumes of `cv.resize(img, (w, h), interpolation=cv.INTER_AREA)` (also esn_image_script.py:47 and 62): for positive `w` and `h`, a grid of exactly `h` rows of `w` pixels, pixel values unspecified; a non-positive size is the exception that `CalcResizedImage` returns as `None` |
| Resizer.ScaleFactor | image_resizer_for_esn_activities.py:56 | `min(460/H, 1920/W)`: a positive scale no larger than either ratio and equal to one of them, so the largest uniform scale at which the image fits the banner |
| Resizer.Geometry | image_resizer_for_esn_activities.py:56-65 | content size `round(W*s)`, `round(H*s)` and offsets `round((1920-cw)/2)`, `round((460-ch)/2)`; its properties are stated by `GeometrySizes`, `ContentFitsCanvas`, `ContentKeepsAspect`, `OffsetsInRange` and `OffsetsCentered` |
| Resizer.ScaleFactorChoice | image_resizer_for_esn_activities.py:56 | `min` picks the height ratio iff `460*W <= 1920*H`; that scale makes the image exactly 460 high, the other exactly 1920 wide |
| Resizer.GeometrySizes | image_resizer_for_esn_activities.py:56-58 | the content is 460 by `round(460*W/H)` when `460*W <= 1920*H`, and `round(1920*H/W)` by 1920 otherwise |
| Resizer.ContentFitsCanvas | image_resizer_for_esn_activities.py:56-58 | content width in `0..1920`, height in `0..460`, and one of the two equals the banner's |
| Resizer.ContentKeepsAspect | image_resizer_for_esn_activities.py:56-58 | the rounded side keeps the aspect ratio within half a pixel: `|cw*H - 460*W| <= H/2` or `|ch*W - 1920*H| <= W/2` |
| Resizer.OffsetsInRange | image_resizer_for_esn_activities.py:64-68 | `0 <= x_start`, `x_start + cw <= 1920`, `0 <= y_start`, `y_start + ch <= 460`: the slice assignment stays inside the canvas |
| Resizer.OffsetsCentered | image_resizer_for_esn_activities.py:64-65 | left and right white bars differ by at most one pixel, and so do top and bottom |
| Resizer.CalcResizedImage | image_resizer_for_esn_activities.py:49-71 | fails exactly when a content side rounds to 0; otherwise a 460 by 1920 canvas, resampled content inside the rectangle, white everywhere else |
| EsnScript.NarrowerThanBanner | esn_image_script.py:76 | the test `W/H < 1920/460` on exact ratios; `BranchChoice` shows it is `460*W < 1920*H` |
| EsnScript.HeightMatchLayout | esn_image_script.py:43-50 | content `round(W*(460/H))` by 460 at column `int(1920/2 - cw/2)` of row 0; stated by `HeightMatchWidthIsRatio`, `HeightPathFits` and `HeightPathOffsets` |
| EsnScript.WidthMatchLayout | esn_image_script.py:58-65 | content 1920 by `round(H*(1920/W))` at row `int(460/2 - ch/2)` of column 0; stated by `WidthMatchHeightIsRatio`, `WidthPathFits` and `WidthPathOffsets` |
| EsnScript.BranchGeometry | esn_image_script.py:76-81 | the layout of whichever branch the aspect test picks; `SameContentSize` and `OffsetsDifferByRounding` relate it to `Resizer.Geometry` |
| EsnScript.BranchChoice | esn_image_script.py:76-81 | the aspect test is `460*W < 1920*H`; the height path yields content 460 high, the width path content 1920 wide |
| EsnScript.HeightPathFits | esn_image_script.py:43-44 | on the height path the width `round(W*(460/H))` is in `0..1920` and within half a pixel of the aspect-preserving width |
| EsnScript.WidthPathFits | esn_image_script.py:58-59 | on the width path the height `round(H*(1920/W))` is in `0..460` and within half a pixel of the aspect-preserving height |
| EsnScript.HeightPathOffsets | esn_image_script.py:50-51 | `x_start = int(960 - cw/2)` keeps the content inside, rows 0..460 are covered, and the odd padding pixel goes right |
| EsnScript.WidthPathOffsets | esn_image_script.py:65-66 | `y_start = int(230 - ch/2)` keeps the content inside, columns 0..1920 are covered, and the odd padding pixel goes to the bottom |
| EsnScript.ScaleToMatchHeight | esn_image_script.py:41-51 | fails iff the width rounds to 0; otherwise the canvas keeps its size, columns of the rectangle get the resampled content in every row, all other pixels are unchanged |
| EsnScript.ScaleToMatchWidth | esn_image_script.py:56-66 | fails iff the height rounds to 0; otherwise the canvas keeps its size, rows of the rectangle get the resampled content in every column, all other pixels are unchanged |
| EsnScript.CalcResizedImage | esn_image_script.py:70-83 | fails exactly when a content side rounds to 0; otherwise a 460 by 1920 canvas, resampled content inside the chosen rectangle, white everywhere else |
| EsnScript.SameContentSize | esn_image_script.py:41-66 | the branching script's content size equals the `min`-based script's for every positive `W`, `H` |
| EsnScript.OffsetsDifferByRounding | esn_image_script.py:50-65 | the `min`-based offsets are the branching ones or one more, and equal exactly unless the padding is 3 modulo 4 |
| EsnScript.SameFailures | esn_image_script.py:70-83 | both scripts fail on exactly the same images |
| EsnScript.SameCanvasWhenOffsetsAgree | esn_image_script.py:70-83 | with equal offsets the two scripts return the identical canvas |
| EsnScript.Example800x600 | esn_image_script.py:43-51 | 800×600 gives 613×460 content at column 654 (rounding) or 653 (truncation) |
| EsnScript.Example4000x400 | esn_image_script.py:58-66 | 4000×400 gives 1920×192 content at row 134 in both scripts |
| FileFilter.Lower | image_resizer_for_esn_activities.py:149 | ASCII-only `str.lower`: the same length, and each character lower-cased on its own by `LowerChar`; `LowerIdempotent` shows lower-casing twice adds nothing |
| FileFilter.LowerChar | image_resizer_for_esn_activities.py:149 | ASCII-only `str.lower` on one character: capitals `A`-`Z` to `a`-`z`, every other character unchanged |
| FileFilter.EndsWith | image_resizer_for_esn_activities.py:149 | `str.endswith` with one suffix: the suffix is no longer than the string and equals its last characters |
| FileFilter.EndsWithAny | image_resizer_for_esn_activities.py:149 | `endswith` with a tuple of suffixes; `EndsWithAnyIff` shows it holds iff one of the suffixes ends the string |
| FileFilter.IsSupported | image_resizer_for_esn_activities.py:149 | `f.lower().endswith(supported_extensions)`; `SupportedIff` and `SupportedIgnoresCase` state what it accepts |
| FileFilter.Admitted | image_resizer_for_esn_activities.py:148-149 | the comprehension's condition: `os.path.isfile` holds and the name is supported; `Filtered` keeps exactly the admitted names |
| FileFilter.EndsWithAnyIff | image_resizer_for_esn_activities.py:149 | `endswith` with a tuple holds iff one of the tuple's suffixes ends the string |
| FileFilter.SupportedIff | image_resizer_for_esn_activities.py:31-44 | a name is supported iff its lower-cased form ends with one of the 14 listed extensions |
| FileFilter.SupportedIgnoresCase | image_resizer_for_esn_activities.py:149 | a name and its lower-cased form are supported or not together |
| FileFilter.Filtered | image_resizer_for_esn_activities.py:145-150 | a name is in the result iff it is in the listing, is a regular file and is supported; the result is no longer than the listing |
| FileFilter.FilteredAppend | image_resizer_for_esn_activities.py:145-150 | filtering a concatenation concatenates the filtered parts, so the listing order is kept |
| FileFilter.FilteredSingle | image_resizer_for_esn_activities.py:146-149 | a single name is kept iff it is an admitted file |
| FileFilter.FilteredIdempotent | esn_image_script.py:138-143 | filtering twice gives what filtering once gives |
| FileFilter.ExampleUpperCase | esn_image_script.py:142 | `A.JPG` is accepted although the listed extension is lower case |
| FileFilter.ExampleExtensionOnly | esn_image_script.py:142 | a file named just `.png` is accepted |
| FileFilter.ListImages | esn_image_script.py:129-145 | an unreadable folder lists nothing; otherwise the result is the filtered listing, and holds exactly the admitted names of the listing |
| PathName.Separators | esn_image_script.py:182 | the characters `splitext` treats as separators, `os.sep` with `os.altsep`: `/` on POSIX, `\` and `/` on Windows |
| PathName.LastIndexIn | esn_image_script.py:182 | the last index of a character from the set, or -1: the character there is in the set and none after it is |
| PathName.SplitExt | esn_image_script.py:182-184 | `splitext`: root and extension concatenate to the path; the extension is empty or one dot followed by no dot or separator; a non-empty extension has a non-dot before it in the final component; an empty one means every dot of the final component is a leading dot |
| PathName.OutputName | image_resizer_for_esn_activities.py:189-194 | the output starts with the source's stem followed by `_ESN_OK` and is never the source's own name |
| PathName.OutputNameSplits | image_resizer_for_esn_activities.py:190-193 | `splitext` of the output gives the source's stem plus `_ESN_OK`, and `.jpg` or the source's extension as the action chose |
| PathName.OutputNameSameFolder | image_resizer_for_esn_activities.py:189-197 | the output has the same last separator and the same folder prefix as the source, so it is written next to it |
| PathName.SplitAfterMarker | esn_image_script.py:182 | a stem, the marker, then an extension split back into the stem with the marker and that extension |
| PathName.SplitWithoutExtension | esn_image_script.py:184 | appending the marker to a path without an extension gives a path without one |
| PathName.DotOnlyNameLosesExtension | image_resizer_for_esn_activities.py:193-194 | `photos/.png` has no extension for `splitext`, so "Save" names its output `photos/.png_ESN_OK` |

## Left out

- The PySimpleGUI layout, window and event loop are left out. They are UI plumbing (image_resizer_for_esn_activities.py:86-206, esn_image_script.py:86-191). So is the status text and the `print` calls.
- File I/O is left out: `open_image_data` (image_resizer_for_esn_activities.py:78-83), `imread`, `imencode`, `tofile`/`imwrite`. The model starts from a decoded pixel grid and ends with the canvas and the output name. A failed encode or write is not modelled.
- `os.listdir` becomes an `Option` of a name list, with `None` for a folder that raised. `os.path.isfile` becomes a predicate passed in. `os.path.join` is left out: `OutputName` takes the already-joined path.
- The preview downscale to 640 by 153 is left out (image_resizer_for_esn_activities.py:166-173). It is one more `cv.resize` whose only output is the GUI image.
- Resizer.CalcResizedImage: the pixel values inside the rectangle are whatever the resampler returns. OpenCV's `INTER_AREA` averaging is not modelled, only the output size.
- EsnScript.CalcResizedImage: the pixel values inside the rectangle are whatever the resampler returns, for the same reason.
- Ratios are computed in exact rational arithmetic, not IEEE doubles. When a double lands beside an exact half, the source's rounding may differ by one from the model's.
- FileFilter.Lower, FileFilter.LowerChar, FileFilter.IsSupported: `str.lower` is modelled for ASCII letters only. For this filter that loses nothing. Python lower-cases only two non-ASCII characters to something with an ASCII letter: U+0130 becomes `i` followed by the non-ASCII U+0307, and U+212A becomes `k`. Neither can produce the end of a listed extension, since no extension holds `k` and none ends in U+0307. Every other character's lower-case form is non-ASCII exactly when the character is. So for every name the ASCII-only `Lower` gives the same accept/reject answer as Python. Only the lower-cased string itself, which the filter never shows, can differ.
- PathName.SplitExt: the separators are `/` (POSIX) or `\` and `/` (Windows), chosen by a `Flavour` parameter. Python's `ntpath.splitext` also has no drive handling, so the model has none either.
- Zero-size or undecodable images (`imdecode` returning `None`) are excluded by the `IsImage` precondition. They only raise in the source, and the exception is swallowed.
- The "no file selected" case is not modelled. It raises on indexing the empty selection and is swallowed.
- Alpha channels are not modelled: `IMREAD_COLOR` always decodes to three channels.
