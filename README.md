# CrackWeiboSlide core in Dafny

A model of the image-and-order logic of the `CrackWeiboSlide` class in
`crack.py`, the part of the Weibo login bot that solves the four-point pattern
CAPTCHA once the browser has produced its images:

- **pixel comparison** (`is_pixel_equal`): two RGBA pixels are equal when each
  of red, green and blue differs by less than 20; alpha is never read
  (`pixels.dfy`, module `PixelCompare`);
- **template scoring** (`same_image`): count the coordinates of the
  candidate's width x height grid at which the template's pixel is equal, and
  accept when more than 99% match (`matching.dfy`, module `TemplateMatch`);
- **template selection** (`detect_image`): scan the template folder in listing
  order, return the drag order encoded in the file name of the first accepted
  template, `None` when none is accepted (`templates.dfy`, module
  `TemplateSelect`);
- **tight crop box** (`get_exactly`): the nested column and row scans that
  find the box `(left, top, right, bottom)` around the non-white (not 255)
  pixels of a grey image (`extract.dfy`, module `RegionExtract`);
- **drag gesture** (`move`): press on the first circle of the order, drag to
  each of the next three circles in 30 small moves, release (`gesture.dfy`,
  module `Gesture`).

Images are immutable pixel grids (`images.dfy`): `At(im, x, y)` is PIL's
`im.load()[x, y]`, with `x` the column. Python exceptions the code would raise
on its own inputs are results (`errors.dfy`): `IndexError` for a pixel read
outside the template, `ZeroDivisionError` for an empty candidate, `ValueError`
for a file-name character that is not a digit. The `IndexError` that a missing
or out-of-range order number raises in `move` is reported instead by `Move`'s
`completed` flag being false, with `performed` holding the actions done
before it.
The browser is reduced to what `move` asks it to do: the list of actions it
performs.

The float test `count / (w * h) > 0.99` is the exact integer test
`100 * count > 99 * w * h`. The offset of one small move, `dx / 30`, is kept
abstract as `MoveBy(dx, dy, 30)`, and the press offset `width / 2` as
`PressAndHold(circle)`, because the file runs under either Python 2 (floor
division) or Python 3 (true division).

The model follows `crack.py` as written; in particular:

- a drag order is never checked to be a permutation of 1..4. Any digit string
  decodes. In `move` with four circles, the digit 0 selects the last circle
  (`circles[-1]`). The digits 5..9 raise `IndexError`: before any action when
  the bad digit is the first number, and otherwise after the press and any
  finished segments;
- templates of another size are not skipped. For a larger template, its
  top-left region of the candidate's width x height is compared with the whole
  candidate. For a non-empty candidate, a smaller template raises `IndexError`
  at its first out-of-range pixel;
- an all-white image does not signal a failure: `get_exactly` returns
  `(width, height, 0, 0)`;
- invalid input to `move` is not rejected before the gesture starts: the
  press on the first circle comes before the later numbers are looked at;
- nothing makes the 30 small moves of a segment add up to the segment's
  offset.

## Model

| member | source | states |
|---|---|---|
| PixelCompare.IsPixelEqual | crack.py:85-102 | raises IndexError exactly when (x, y) is outside either image; otherwise true exactly when each of channels 0, 1 and 2 differs by less than 20 |
| PixelCompare.PixelEqualReflexive | crack.py:98-102 | every pixel equals itself |
| PixelCompare.PixelEqualSymmetric | crack.py:98-102 | the comparison does not depend on argument order |
| PixelCompare.AlphaIgnored | crack.py:98-102 | changing the alpha channel of either pixel never changes the verdict |
| TemplateMatch.ColumnCount | crack.py:117-120 | the matches counted in one column never exceed the rows scanned |
| TemplateMatch.MatchCount | crack.py:115-120 | the final `count` lies between 0 and w * h |
| TemplateMatch.SameImage | crack.py:104-125 | the nested loop returns the verdict: ZeroDivisionError for an empty candidate, IndexError when the template is narrower or shorter than the candidate, otherwise true exactly when 100 * count > 99 * w * h |
| TemplateMatch.ColumnCountIsCardinality | crack.py:117-120 | the per-column count is the number of matching rows of that column |
| TemplateMatch.MatchCountIsCardinality | crack.py:115-120 | `count` is the number of coordinates of [0, w) x [0, h) at which `is_pixel_equal` holds |
| TemplateMatch.SelfColumnCount | crack.py:117-120 | every row of a column matches the same image |
| TemplateMatch.SelfMatchCount | crack.py:115-120 | comparing an image with itself counts every coordinate |
| TemplateMatch.SelfAccepted | crack.py:111-125 | a non-empty image is always accepted as its own template; an empty one raises ZeroDivisionError |
| TemplateMatch.NoColumnMatch | crack.py:117-120 | a column with no matching pixel counts zero |
| TemplateMatch.NoMatchRejected | crack.py:115-125 | when every pixel differs by at least the threshold, the count is 0 and the template is rejected |
| TemplateSelect.Stem | crack.py:138 | the stem is the prefix of the name before its first '.', or the whole name when there is none |
| TemplateSelect.DecodeDigits | crack.py:138 | ValueError exactly when some character is not a digit; otherwise one integer per character, each the digit's value, in order |
| TemplateSelect.DetectImage | crack.py:127-140 | the loop returns exactly what the first-match scan over the listing gives, including the errors it propagates |
| TemplateSelect.DetectReturnsFirstMatch | crack.py:133-140 | the result is an order exactly when it is the decoded name of the first accepted template, every earlier one being rejected |
| TemplateSelect.DetectNoneIffAllRejected | crack.py:133-140 | None is returned exactly when every template is rejected |
| TemplateSelect.DetectIgnoresLaterTemplates | crack.py:133-140 | templates after the first accepted or failing one are never examined; after all-rejected ones the scan goes on with the rest |
| TemplateSelect.OrderName | crack.py:138 | the name of an order has one character per number, then a '.' right after the digits, then exactly the extension |
| TemplateSelect.NameRoundTrip | crack.py:138 | decoding the name built from digits 0..9 and any extension gives those digits back |
| TemplateSelect.StemOfDotted | crack.py:138 | the stem of a dot-free string followed by '.' is that string |
| TemplateSelect.IdenticalTemplateScenario | crack.py:127-140 | one template "1234.png" identical to a non-empty candidate yields [1, 2, 3, 4]; an empty folder yields None |
| TemplateSelect.DistantTemplateNotFound | crack.py:127-140 | a template whose pixels all differ by at least the threshold is not selected |
| RegionExtract.GetExactly | crack.py:175-198 | with some non-white pixel: 0 <= left < right <= width, 0 <= top < bottom <= height, every non-white pixel is inside, and the first and last column and row of the box each hold a non-white pixel; on an all-white image the box is (width, height, 0, 0) |
| RegionExtract.TightBoxUnique | crack.py:183-198 | two boxes tight around the same image are equal, so the box is determined by the ink |
| RegionExtract.BlockIsTight | crack.py:183-198 | when the non-white pixels form one filled rectangle, that rectangle is the tight box |
| RegionExtract.ScanBlock | crack.py:175-198 | on an image whose non-white pixels form one filled rectangle, `get_exactly` returns exactly that rectangle |
| Gesture.PyIndex | crack.py:152 | Python list indexing: defined exactly for -n <= k < n, and then a position congruent to k modulo n |
| Gesture.Targets | crack.py:151-152 | at most four circles are reached |
| Gesture.Repeat | crack.py:161-164 | n copies of the same action |
| Gesture.Drag | crack.py:161-164 | 30 moves per pair of consecutive reached circles |
| Gesture.Move | crack.py:142-173 | the loop performs exactly the planned actions, and completes exactly when the first four numbers all index the circle list |
| Gesture.PartialStep | crack.py:161-164 | one iteration's 30 moves extend the drag by one segment |
| Gesture.TargetAt | crack.py:151-173 | the loop gets past index k exactly when `numbers[k]` exists and indexes the circle list, and then takes `circles[numbers[k] - 1]` |
| Gesture.ValidOrderReachesAll | crack.py:151-173 | all four circles are reached exactly when the order is valid |
| Gesture.TargetsValid | crack.py:151-152 | the reached circles are the indexed ones, stopping at the first bad index |
| Gesture.FourCircleIndices | crack.py:152 | with four circles, numbers -3..4 are valid and 0 selects the last circle |
| Gesture.DragMovesOnly | crack.py:161-164 | the drag consists of moves only |
| Gesture.DragOfFour | crack.py:161-173 | the drag of four circles is their three segments in order |
| Gesture.CompleteGestureShape | crack.py:151-173 | a valid order gives 92 actions: a press on `circles[numbers[0] - 1]`, 30 moves by each offset between consecutive circles (next location minus current), a release |
| Gesture.PressFirstReleaseLast | crack.py:154-169 | the only press is the first action; a release happens exactly when the order is valid, and only as the last action |
| Gesture.PressBeforeValidation | crack.py:151-173 | a bad second number leaves only the press performed, with the mouse still held |

## Left out

- Browser and Selenium plumbing: `__init__`, `__del__`, `open`, `get_position`, `get_screenshot`, `get_image`, `get_image2`, `get_cookies` and `crack` drive a PhantomJS session, wait for page elements and read cookies; they are I/O.
- PIL calls: `Image.open`, `convert('RGBA')`, `convert('L')`, `crop`, `save` and `load`. Images are given as grids: RGBA for matching, grey for `get_exactly`. A template stored in another mode is not modelled.
- `listdir` and reading the template files: the folder is a given sequence of (name, image) pairs in listing order.
- The `time.sleep` pacing of `move` and the other real-time waits.
- TemplateMatch.SameImage: the float ratio is replaced by the exact integer test. The two agree for every image of fewer than 10^14 pixels, where no ratio can round onto 0.99.
- Gesture.Move: the value of `dx / 30` and of `width / 2` is not modelled, because division is floor division under Python 2 and true division under Python 3. No claim is made that the 30 moves add up to the offset.
- Gesture.Move: the circles found by the CSS selector are a given sequence. A `numbers` of `None`, which `crack` would pass when no template matched, is not modelled.
- TemplateSelect.DecodeDigits: only '0'..'9' are digits. Python 3's `int` also accepts other Unicode decimal digits.
