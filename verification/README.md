# ttf2c in Dafny

ttf2c turns a TrueType font into C arrays for small displays. It works in three steps:

1. It reads the glyphs of a code-point range through FreeType.
2. It normalises them to a shared height and baseline, one boolean bitmap per glyph.
3. It packs every bitmap into bytes and writes a C source file. That file holds four arrays — charmap, offset, width and bitmap — plus a font descriptor.

This project models the computational core of those steps. It proves what each part promises about its results.

| module | file | models |
|---|---|---|
| `Wrappers` | wrappers.dfy | `Option` and `Result` |
| `Numerals` | numerals.dfy | decimal and hexadecimal digit text and its value |
| `Args` | args.dfy | `range_checker` (the `--range` option) and `size_checker` (the `--size` option) |
| `Bits` | bits.dfy | one byte of `numpy.packbits` / `numpy.unpackbits`, with big and little bit order |
| `Grids` | grids.dfy | bitmaps as height × width matrices: `numpy.flip`, `numpy.invert`, `numpy.packbits` along an axis and its inverse, `numpy.full` and slice assignment with numpy's clamping and broadcasting |
| `GlyphSets` | glyphset.dfy | class `GlyphSet`: the three metric passes, the per-glyph canvases, `flip`, `inverse` and `pack` |
| `Emitter` | emitter.dfy | `var_size`, `array_element`, `array_wrap`, and the array, offset, type and size computation of `generate_c_file` |

## How the pieces are modelled

**Range and size options.**
- `Args.RangeChecker` follows `range_checker` step by step: the character test, the four strips, the split and the token loop (`CollectGlyphs`), then the sort.
- It is proved equal to the reference function `ParseRange`, and the properties of `ParseRange` are proved as lemmas.
- `list(set(...))` followed by `sort()` is modelled by `SortedUnique`: the strictly increasing list of the same elements. `StrictlyIncreasingUnique` shows that list is unique.
- Python's `int()` is modelled only as far as each checker can reach it:
  - `range_checker`: decimal digits, or `0x` followed by hexadecimal digits;
  - `size_checker`: ASCII white space, one sign, and digits with single underscores.

**GlyphSet.**
- FreeType is replaced by a `Font` value. It maps a code point to a `Metrics` record holding the outline box, bitmap width, rows, pitch, `bitmap_top`, advance, horizontal bearing and the row-pitch buffer. A code point the font does not map loads the font's `notdef` record.
- `GlyphSet` is a class whose fields the passes update in place:
  - `MeasurePass` is pass 1;
  - `HeightPass` computes the maximum height;
  - `RenderPass` builds the canvases.
- Each pass is proved against a reference function (`ScanFrom`, `HeightFrom`, `RenderAll`). `Create` chains them and is proved equal to `Initialise`.
- Pass 1 removes degenerate glyphs from `char_set` while iterating over it. It is modelled as an index loop over a sequence that shrinks.
  - `PassOneReference` restates that loop in closed form.
  - `DroppedGlyphHidesNext` and `SkippedGlyphSurvives` prove the consequence: the code point right after a dropped one is never examined, stays in the set, and is still rendered.
- `statistics.median` followed by `int()` is modelled with integers as `Median`:
  - the middle element for an odd count;
  - the mean of the two middle elements, truncated toward zero, for an even count.

**C emitter.**
- The loop of `generate_c_file` is the method `ArrayBodies`. It is proved against prefix-recursive reference functions (`MaxCode`, `Offset`, `CharmapLines`, `OffsetLines`, `WidthLines`, `BitmapLines`).
- `GenerateArrays` wraps the arrays and applies the mono overrides. It is proved equal to the reference function `Arrays`, which returns the values the C template is filled from.
- `bit_length`, `var_size` and the size accounting are kept exactly as written, including these quirks:
  - `var_size(255)` is 16, not 8;
  - the glyph-index type is chosen from the bit length of the glyph count;
  - the offset array's byte count uses the charmap width;
  - `chr()` rejects a code point past U+10FFFF in the first statement of the loop, so emission fails there (`NotACharacter`) before `var_size` is reached;
  - once every code point is a character, the charmap width is at most 32 bits (`CharmapWidthExists`), so the case where `var_size` returns nothing never arises.

## Model

| member | source | states |
|---|---|---|
| Numerals.TextRoundTrip | ttf2c/args.py:54-57 | the decimal or hexadecimal digit text of any natural reads back as that natural, so the numeral reading is the inverse of printing |
| Numerals.TextCanonical | ttf2c/np2c.py:17 | the digit text of any natural uses lower-case digits of its base and has no leading zero before another digit |
| Numerals.CanonicalIsText | ttf2c/np2c.py:17 | text of that canonical form is exactly the text written for its value, so canonical text and numbers correspond one to one |
| Args.RangeChecker | ttf2c/args.py:40-76 | the method returns exactly `ParseRange` of its argument; an absent argument and only an absent argument gives `None`; every list it returns is strictly increasing |
| Args.CollectGlyphs | ttf2c/args.py:51-70 | the token loop yields the values of every token concatenated in order, or the error of the first token that fails |
| Args.StripRight | ttf2c/args.py:46-47 | `rstrip(c)` keeps a prefix that does not end in `c`, and removes only copies of `c` |
| Args.StripLeft | ttf2c/args.py:48-49 | `lstrip(c)` keeps a suffix that does not start with `c`, and removes only copies of `c` |
| Args.Split | ttf2c/args.py:51 | `split` gives at least one part and no part contains the separator |
| Args.SplitJoin | ttf2c/args.py:51 | joining the parts of `split` with the separator restores the string, so no character is lost |
| Args.StripEnds | ttf2c/args.py:46-49 | the four strips never lengthen the text, and the result neither starts nor ends with a comma |
| Args.StrToInt | ttf2c/args.py:54-57 | a value is returned exactly for `0x` followed by at least one hex digit (read in base 16) or for non-empty decimal digits without that prefix, leading zeros included (read in base 10); the value is the numeral's value |
| Args.StrToIntReadsDecimal | ttf2c/args.py:57 | the decimal text of every natural is read back as that natural |
| Args.StrToIntReadsHex | ttf2c/args.py:55-56 | `0x` followed by the hexadecimal text of every natural is read back as that natural |
| Args.Interval | ttf2c/args.py:66 | `range(x1, x2 + 1)` holds the x2 − x1 + 1 consecutive integers from x1 |
| Args.ParseToken | ttf2c/args.py:59-70 | a token without a dash gives the one value `str_to_int` reads from it, or is rejected as a bad number; a dashed token that does not split into two parts is rejected; with two parts, an unreadable end is a bad number, a start above the end is a reversed range, and otherwise the token gives the inclusive interval; a successful token gives a non-empty run of consecutive non-negative integers |
| Args.SplitTwo | ttf2c/args.py:60 | text with exactly one separator splits into the part before it and the part after it |
| Args.DashedToken | ttf2c/args.py:59-66 | two dash-free ends joined by one dash, in any spelling `str_to_int` accepts: an unreadable end is a bad number, a start above the end is a reversed range, and otherwise the token is the inclusive interval |
| Args.ReversedToken | ttf2c/args.py:59-65 | for every a > b, the token `a-b` in decimal is rejected as reversed |
| Args.ReversedHexToken | ttf2c/args.py:59-65 | `0x39-0x30` is rejected as reversed: hex ends are compared by value |
| Args.ReversedPaddedToken | ttf2c/args.py:59-65 | `057-48` is rejected as reversed: a leading zero does not change the comparison |
| Args.ParseRange | ttf2c/args.py:40-76 | an absent argument, and only that, gives `None`; a foreign character rejects the expression; every list returned is strictly increasing |
| Args.ReadsIntervalToken | ttf2c/args.py:59-66 | a token with exactly one dash, two readable ends and start ≤ end contributes every integer from start to end inclusive |
| Args.SortedUnique | ttf2c/args.py:72-73 | de-duplicating and sorting gives a strictly increasing list with exactly the elements of the input |
| Args.StrictlyIncreasingUnique | ttf2c/args.py:72-73 | two strictly increasing lists with the same elements are equal, so the result does not depend on the order `set` iterates in |
| Args.RangeIsSortedSetOfTokens | ttf2c/args.py:51-74 | when every token parses, the result is a strictly increasing list whose elements are exactly the parsed values |
| Args.RejectsForeignCharacter | ttf2c/args.py:42-44 | any character outside `0-9 a-f A-F x , -` (a space, an upper-case X) rejects the whole expression |
| Args.HelpTextExamples | ttf2c/args.py:109-110 | `0x30-0x39,0x2D` and `48-57,45` both give `[45, 48, 49, …, 57]` |
| Args.StripsLeadingDash | ttf2c/args.py:46-49 | `-5` gives `[5]`, because leading dashes are stripped |
| Args.StripsTrailingComma | ttf2c/args.py:46-49 | `48,` gives `[48]`, because trailing commas are stripped |
| Args.RejectsDoubleDash | ttf2c/args.py:59-68 | `48--57` is rejected, because its token splits into three parts |
| Args.RejectsNonDecimal | ttf2c/args.py:69-70 | `abc` is rejected: a token without `0x` must be decimal |
| Args.RejectsEmptyToken | ttf2c/args.py:51-70 | `48,,59` is rejected, because the empty middle token is not a number |
| Args.RejectsReversedRange | ttf2c/args.py:40-76 | for every a > b, the whole expression `a-b` in decimal is rejected, because start > end |
| Args.RejectsReversedExample | ttf2c/args.py:64-65 | `57-48` is rejected |
| Args.SizeChecker | ttf2c/args.py:22-30 | succeeds exactly when `int()` reads the text as a non-negative integer, and then returns that integer |
| Args.SizeCheckerAcceptsNaturals | ttf2c/args.py:22-30 | the decimal text of every natural, 0 included, is accepted as that natural |
| Args.SizeCheckerRejectsNegatives | ttf2c/args.py:28-29 | the text of every negative integer is rejected |
| Args.PyInt | ttf2c/args.py:25 | `int()` accepts exactly a digit group, optionally signed, inside white space; a negative result needs a leading minus |
| Args.PyIntSigned | ttf2c/args.py:25 | `int()` of a minus sign followed by a digit group is the negated value of the digits, with underscores dropped |
| Bits.PackGroupBits | ttf2c/ttf2np.py:105 | in a packed byte, element j of the group sits at bit 7 − j (big) or bit j (little), and padding positions are 0 |
| Bits.GroupRoundTrip | ttf2c/ttf2np.py:105 | unpacking a packed byte with the same order and the group's length gives the group back |
| Bits.OneElementGroup | ttf2c/args.py:137-139 | a single set element packs to 0x01 under little and to 0x80 under big bit order |
| Grids.Full | ttf2c/ttf2np.py:67 | `numpy.full` gives the requested shape with every cell equal to the fill value |
| Grids.Flip | ttf2c/ttf2np.py:95 | the shape is unchanged and every cell is the mirrored cell along the axis |
| Grids.FlipTwice | ttf2c/ttf2np.py:93-95 | flipping twice along the same axis restores the matrix |
| Grids.Invert | ttf2c/ttf2np.py:99 | the shape is unchanged and every cell is the logical NOT of the original |
| Grids.InvertTwice | ttf2c/ttf2np.py:97-99 | inverting twice restores the matrix |
| Grids.FlipInvertCommute | ttf2c/__init__.py:19-28 | flipping and inverting commute, so the order of the `rx`, `ry` and `inv` steps does not change the result |
| Grids.Pack | ttf2c/ttf2np.py:105 | packing along axis 1 gives H × ⌈W/8⌉ bytes, and along axis 0 gives ⌈H/8⌉ × W bytes |
| Grids.PackBit | ttf2c/ttf2np.py:105 | pixel (r, c) is the bit at position (c mod 8 along axis 1, r mod 8 along axis 0) of byte (r, c div 8) or (r div 8, c), numbered by the bit order |
| Grids.PackPadding | ttf2c/ttf2np.py:105 | the padding bits past the last column are 0 |
| Grids.Unpack | ttf2c/ttf2np.py:71 | unpacking with a count gives rows × count (axis 1) or count × columns (axis 0) |
| Grids.UnpackPack | ttf2c/ttf2np.py:101-107 | unpacking a packed matrix with the same axis, order and original length gives the matrix back |
| Grids.OnePixelPack | ttf2c/args.py:137-139 | a one-pixel set bitmap packs horizontally to 0x01 (little) and 0x80 (big) |
| Grids.SliceBound | ttf2c/ttf2np.py:82 | a slice bound within the axis is kept, one past the end is clamped to the length, and a negative one counts from the end and is clamped at 0 |
| Grids.SliceLength | ttf2c/ttf2np.py:82 | the window a slice selects stays inside the axis, and it is empty exactly when the normalised stop is not past the normalised start |
| Grids.AssignCells | ttf2c/ttf2np.py:82 | slice assignment puts the value's cells, with a length-1 axis repeated, into the selected window and leaves every other cell unchanged |
| Grids.FitsAssignable | ttf2c/ttf2np.py:82 | a piece that lies wholly inside the matrix selects a window of its own shape, so the assignment cannot fail |
| Grids.AssignInside | ttf2c/ttf2np.py:82 | for a piece wholly inside the matrix, the window is exactly rows y..y+h−1 and columns x..x+w−1, and cell (r, c) receives piece cell (r − y, c − x) |
| Grids.AssignEmptyWindow | ttf2c/ttf2np.py:82 | an assignment whose window is empty leaves the matrix unchanged, even when a one-row or one-column value broadcasts into it |
| GlyphSets.Degenerate | ttf2c/ttf2np.py:40 | a glyph is degenerate when its outline width or height is 0 |
| GlyphSets.FloorDiv64 | ttf2c/ttf2np.py:45 | `x // 64` is the floor quotient, negative x included |
| GlyphSets.SpaceWidth | ttf2c/ttf2np.py:31-33 | the space width is the advance of code point 32 in whole pixels, rounded down |
| GlyphSets.ScanFrom | ttf2c/ttf2np.py:38-48 | pass 1 never adds code points, and it only raises the maximum width, the baseline and the kerning list |
| GlyphSets.PassOneReference | ttf2c/ttf2np.py:38-48 | pass 1 leaves `Kept` as the character set; its kerning list, maximum width and baseline come from the glyphs in `Measured` |
| GlyphSets.KeptAndMeasured | ttf2c/ttf2np.py:38-42 | every kept code point was in the set; only degenerate glyphs are removed; every measured glyph is kept and non-degenerate |
| GlyphSets.DroppedGlyphHidesNext | ttf2c/ttf2np.py:38-42 | after a degenerate glyph is removed, the next code point is kept without being examined or measured |
| GlyphSets.NothingDropped | ttf2c/ttf2np.py:38-42 | when no glyph is degenerate, every code point is kept and measured in order |
| GlyphSets.SkippedGlyphSurvives | ttf2c/ttf2np.py:38-48 | with two degenerate glyphs in a row, the second survives pass 1 and only the third contributes a kerning value |
| GlyphSets.Kerning | ttf2c/ttf2np.py:45 | 64 · (kerning + width) lies within 128 below or at advance + bearing, because each of the two `// 64` floors loses less than 64 |
| GlyphSets.Kernings | ttf2c/ttf2np.py:45 | each measured glyph contributes `advance // 64 − width + horiBearingX // 64`, in order |
| GlyphSets.WidestIsMaximum | ttf2c/ttf2np.py:47 | `max_width` is at least every measured bitmap width, and it is 0 or one of them |
| GlyphSets.DeepestIsMaximum | ttf2c/ttf2np.py:48 | `baseline` is at least every measured max(0, rows − top), and it is 0 or one of them |
| GlyphSets.SortInts | ttf2c/ttf2np.py:51-52 | the sort behind the median is sorted and a permutation of its input |
| GlyphSets.HalfTowardZero | ttf2c/ttf2np.py:52 | `int()` of a half truncates toward zero, for negative sums too |
| GlyphSets.Middle | ttf2c/ttf2np.py:51-52 | for a sorted list, the middle element when the count is odd, the sum of the two middle elements halved toward zero when it is even; either way between the two middle elements |
| GlyphSets.Median | ttf2c/ttf2np.py:51-52 | no median for an empty list; for an odd count, the middle element of the sorted list; for an even count, the sum of its two middle elements halved toward zero; always between the two middle elements |
| GlyphSets.MedianIgnoresOrder | ttf2c/ttf2np.py:51-52 | the median depends only on the multiset of kerning values |
| GlyphSets.MedianTruncatesTowardZero | ttf2c/ttf2np.py:52 | the median of 0 and −3 is −1: −1.5 truncated toward zero, not floored |
| GlyphSets.HeightFrom | ttf2c/ttf2np.py:54-56 | `max_height` is at least baseline + top for every code point left in the set, and it is 0 or one of those sums |
| GlyphSets.BufferGrid | ttf2c/ttf2np.py:69-70 | the buffer reshapes to rows × pitch bytes |
| GlyphSets.BufferRowBytes | ttf2c/ttf2np.py:69-70 | byte k of row r of the reshaped buffer is buffer byte r·pitch + k |
| GlyphSets.Pixels | ttf2c/ttf2np.py:71 | unpacking the rows gives rows × width pixels |
| GlyphSets.UnpackedPixel | ttf2c/ttf2np.py:69-71 | pixel (r, c) is bit 7 − c mod 8 of buffer byte r·pitch + c div 8 |
| GlyphSets.Blank | ttf2c/ttf2np.py:62-67 | the empty canvas has `max_height` rows and the glyph's width (`max_width` when mono), with every cell unset |
| GlyphSets.Canvas | ttf2c/ttf2np.py:62-84 | a canvas has `max_height` rows and the glyph's width, or `max_width` when mono |
| GlyphSets.CanvasBuffer | ttf2c/ttf2np.py:62-84 | a canvas is only made when the buffer holds rows × pitch bytes, and it is then the blank canvas with the unpacked glyph assigned at row `max_height − baseline − top` and column `(max_width − width) // 2` (mono) or 0 |
| GlyphSets.AssignedPixel | ttf2c/ttf2np.py:67-82 | after the slice assignment onto the blank canvas, a cell is set exactly when it lies in the selected window and the glyph pixel numpy puts there is set |
| GlyphSets.GlyphPixelWindow | ttf2c/ttf2np.py:73-82 | for a glyph wholly on its canvas, a pixel is set exactly when it lies in the rows × width window at row `max_height − baseline − top` and column `(max_width − width) // 2` (mono) or 0, and its buffer bit is set |
| GlyphSets.CanvasPixels | ttf2c/ttf2np.py:62-84 | every canvas cell is set exactly when it lies in the window the slice selects and the glyph pixel numpy puts there is set; all other cells are unset |
| GlyphSets.CanvasFits | ttf2c/ttf2np.py:78-82 | a glyph no wider than `max_width`, no deeper than the baseline and no taller than `max_height` lies wholly on its canvas and always gets one |
| GlyphSets.OneRowBelowCanvas | ttf2c/ttf2np.py:81-82 | a one-row bitmap placed at or below the bottom edge leaves its canvas blank instead of failing, because numpy broadcasts it into the empty window |
| GlyphSets.CutRowsFail | ttf2c/ttf2np.py:81-82 | a bitmap of two or more rows that the bottom edge cuts short cannot be broadcast, and its canvas fails |
| GlyphSets.RenderAll | ttf2c/ttf2np.py:58-84 | a successful pass 3 gives one canvas per code point |
| GlyphSets.RenderAllValues | ttf2c/ttf2np.py:58-84 | when pass 3 succeeds, its i-th bitmap is the canvas of the i-th code point |
| GlyphSets.RenderAllError | ttf2c/ttf2np.py:58-84 | when pass 3 fails, some code point's canvas fails with that same error |
| GlyphSets.RenderAllMeaning | ttf2c/ttf2np.py:58-84 | pass 3 succeeds exactly when every code point's canvas does; canvas i is then the i-th bitmap; on failure the error is one code point's error |
| GlyphSets.ErrorPersists | ttf2c/ttf2np.py:58-84 | the first failing canvas ends construction; the glyphs after it change nothing |
| GlyphSets.Initialise | ttf2c/ttf2np.py:12-84 | a constructed glyph set has one well-formed bitmap per code point with `max_height` rows, and the proper width |
| GlyphSets.AfterMeasuring | ttf2c/ttf2np.py:50-84 | what remains after pass 1 keeps the same shape invariant when it succeeds |
| GlyphSets.AfterHeightOk | ttf2c/ttf2np.py:54-84 | once pass 3 succeeds, the remainder of the constructor yields the state with the kerning, `max_height` and the rendered bitmaps |
| GlyphSets.AfterHeight | ttf2c/ttf2np.py:58-84 | what remains after the height pass keeps the same shape invariant when it succeeds |
| GlyphSets.WellBehavedFontSucceeds | ttf2c/ttf2np.py:12-84 | a non-empty set of distinct code points with well-formed, non-degenerate glyphs always constructs, and keeps the whole set |
| GlyphSets.AllCanvasesFit | ttf2c/ttf2np.py:58-84 | when every glyph fits the shared width, baseline and height, pass 3 succeeds |
| GlyphSets.FlipAll | ttf2c/ttf2np.py:93-95 | flipping keeps the number of bitmaps and their well-formedness |
| GlyphSets.FlipAllTwice | ttf2c/ttf2np.py:93-95 | flipping every bitmap twice along one axis restores them all |
| GlyphSets.FlipAllKeepsShapes | ttf2c/ttf2np.py:93-95 | flipping keeps the glyph-set invariant: count, height and width of every bitmap |
| GlyphSets.InvertAll | ttf2c/ttf2np.py:97-99 | inverting keeps the number of bitmaps and their well-formedness |
| GlyphSets.InvertAllTwice | ttf2c/ttf2np.py:97-99 | inverting every bitmap twice restores them all |
| GlyphSets.InvertAllKeepsShapes | ttf2c/ttf2np.py:97-99 | inverting keeps the glyph-set invariant |
| GlyphSets.PackAll | ttf2c/ttf2np.py:101-107 | packing gives one packed matrix per bitmap |
| GlyphSets.PackAllRoundTrip | ttf2c/ttf2np.py:101-107 | the i-th packed matrix unpacks, with the same axis and order, to the i-th bitmap |
| GlyphSets.GlyphSet.Init | ttf2c/ttf2np.py:12-33 | a new glyph set starts with the given character set (or all of the font's code points), zero maxima, the space width and no bitmaps |
| GlyphSets.GlyphSet.MeasurePass | ttf2c/ttf2np.py:35-48 | the loop leaves the character set, kerning list, maximum width and baseline that `ScanFrom` describes, and changes nothing else |
| GlyphSets.GlyphSet.HeightPass | ttf2c/ttf2np.py:54-56 | sets `max_height` to `HeightFrom` over the current set and changes nothing else |
| GlyphSets.GlyphSet.RenderPass | ttf2c/ttf2np.py:58-84 | appends exactly the canvases of `RenderAll`, or reports its error, and changes no metric |
| GlyphSets.GlyphSet.Finish | ttf2c/ttf2np.py:52-84 | from the state pass 1 leaves, stores the kerning, runs the height and render passes, and ends in `AfterHeight`'s state, or fails with its error |
| GlyphSets.GlyphSet.Create | ttf2c/ttf2np.py:12-84 | construction succeeds exactly when `Initialise` does; the new object's state is `Initialise`'s, which keeps the glyph-set invariant; otherwise it fails with the same error |
| GlyphSets.GlyphSet.Flip | ttf2c/ttf2np.py:93-95 | replaces every bitmap with its flip, changes nothing else, and keeps the invariant |
| GlyphSets.GlyphSet.Inverse | ttf2c/ttf2np.py:97-99 | replaces every bitmap with its inverse, changes nothing else, and keeps the invariant |
| GlyphSets.GlyphSet.Pack | ttf2c/ttf2np.py:101-107 | returns the packed bitmaps in order and leaves the object unchanged |
| Emitter.BitLength | ttf2c/np2c.py:12 | `bit_length` is the least n with v < 2ⁿ; it is 0 only for 0 |
| Emitter.VarSize | ttf2c/np2c.py:10-13 | the result is the first of 8, 16, 32, 64 greater than the bit length of v; there is none when the bit length is at least 64 |
| Emitter.VarSizeBounds | ttf2c/np2c.py:10-13 | v < 2^(size − 1), and for sizes above 8, v ≥ 2^(size/2 − 1): the width is the smallest one that holds v |
| Emitter.VarSizeExamples | ttf2c/np2c.py:10-13 | 0, 65 and 127 need 8 bits; 128 and 255 need 16 |
| Emitter.TypeName | ttf2c/np2c.py:97-99 | the type name is `uint`, the width, then `_t`, and the width part reads back as the width (`None` when there is no width) |
| Emitter.TypeNames | ttf2c/np2c.py:97-99 | widths 8 and 16 give `uint8_t` and `uint16_t`; a missing width gives `uintNone_t` |
| Emitter.HexLiteral | ttf2c/np2c.py:17 | `{e:#04x}` is `0x` followed by lower-case hex digits, zero-padded to four characters and never beyond; it is four characters exactly when e < 256 |
| Emitter.HexLiteralUnique | ttf2c/np2c.py:17 | any text of the `{e:#04x}` shape that reads back as e is the literal written for e |
| Emitter.HexLiteralReadsBack | ttf2c/np2c.py:17 | the hex literal of every element reads back as that element, and it is the only text of its shape that does, so the upper-case spelling `0xFF` and the over-padded `0x0100` are excluded |
| Emitter.ArrayElement | ttf2c/np2c.py:16-17 | an element line: four spaces, the `{e:#04x}` literal, then the comment (a reference definition; `ArrayElementReadsBack` states its properties) |
| Emitter.ArrayElementReadsBack | ttf2c/np2c.py:16-17 | an element line is four spaces, a literal that reads back as the element, then the comment |
| Emitter.ArrayWrap | ttf2c/np2c.py:20-21 | the text is the declaration head, then the content unchanged, then `};` and a blank line |
| Emitter.CommentShort | ttf2c/np2c.py:50 | the short label: index, comma, the character in single quotes, and a space (a reference definition; `CommentShortReadsBack` states its properties) |
| Emitter.CommentShortReadsBack | ttf2c/np2c.py:50 | the label starts with the glyph index, which reads back as that index, followed by a comma, a space and the character in single quotes, then a space |
| Emitter.ArtLine | ttf2c/np2c.py:68-75 | an art line is `//`, one character per pixel, and a newline |
| Emitter.ArtLineRoundTrip | ttf2c/np2c.py:68-75 | an art line holds only `▀` and `.` between `//` and the newline, and reading `▀` as set and `.` as unset gives back the bitmap row; conversely the art line is the only text that reads as that row, so every unset pixel is written as `.` |
| Emitter.GlyphBlock | ttf2c/np2c.py:67-82 | a glyph's part of the bitmap array: the `//Char` header with the packed shape, the art lines, the packed byte lines and a blank line (a reference definition, no contract of its own) |
| Emitter.MaxCodeIsMaximum | ttf2c/np2c.py:54 | `max_glyph_value` is at least every code point, and it is 0 or one of them |
| Emitter.Assemble | ttf2c/np2c.py:85-122 | the integer types, wrapped arrays, pointer names and byte counts once the charmap width is known, with the mono overrides (a reference definition; `SizeAccounting` and `MonoDropsOffsetAndWidth` state its properties) |
| Emitter.OverallSize | ttf2c/np2c.py:195 | the printed overall size, the sum of the four array sizes (a reference definition; `SizeAccounting` states its value in terms of the glyphs) |
| Emitter.Offset | ttf2c/np2c.py:58-62 | the offset of glyph i is the packed size of the glyphs before it (a reference definition; `OffsetMonotone` and `GlyphInsideBitmapArray` state its properties) |
| Emitter.OffsetMonotone | ttf2c/np2c.py:58-62 | the running offset never decreases |
| Emitter.GlyphInsideBitmapArray | ttf2c/np2c.py:58-65 | every glyph's bytes, from its offset on, lie inside the bitmap array |
| Emitter.FirstNonCharacter | ttf2c/np2c.py:48-50 | the index it reports is the first code point past U+10FFFF, every code point before it is a character, and it reports none exactly when all are characters |
| Emitter.FirstNonCharacterStays | ttf2c/np2c.py:48-50 | once a code point is rejected, the loop never gets further, so longer prefixes report the same index |
| Emitter.CharmapWidthExists | ttf2c/np2c.py:89 | when every code point is a character, `var_size` of the largest one returns a width, and it is at most 32 |
| Emitter.ArrayBodies | ttf2c/np2c.py:36-83 | the loop stops at the first code point `chr()` rejects and reports it; otherwise it yields the maximum code point, the bitmap size as the sum of packed sizes, the offset as that sum (0 when mono), the charmap and bitmap lines, and the offset and width lines (empty when mono) |
| Emitter.Arrays | ttf2c/np2c.py:36-122 | emission fails exactly when some code point is not a character, and a successful emission always has a charmap width |
| Emitter.GenerateArrays | ttf2c/np2c.py:36-122 | the arrays, types, pointers and sizes are exactly those of `Arrays` |
| Emitter.EmitFailsOnHugeCodePoint | ttf2c/np2c.py:48-50 | when code point i is past U+10FFFF and all before it are characters, emission fails with that code point |
| Emitter.CharmapTypeHoldsCodePoints | ttf2c/np2c.py:89-98 | the charmap type is at most 32 bits wide, and every code point fits it with a bit to spare |
| Emitter.CharmapArrayHoldsCodePoints | ttf2c/np2c.py:53-55 | element i of the charmap array is the i-th code point, and its literal reads back as it |
| Emitter.OffsetArrayHoldsOffsets | ttf2c/np2c.py:58-62 | element i of the offset array is the sum of the packed sizes of glyphs 0..i−1 |
| Emitter.OffsetTypeHoldsOffsets | ttf2c/np2c.py:92-99 | every emitted offset fits the offset type chosen from the final offset |
| Emitter.WidthArrayHoldsWidths | ttf2c/np2c.py:60 | element i of the width array is the column count of bitmap i |
| Emitter.SizeAccounting | ttf2c/np2c.py:89-116 | charmap bytes are (bits/8)·N; offset bytes use the charmap width; width bytes are N; mono zeroes both; the bitmap size is the total packed size; the overall size is the sum of the four |
| Emitter.MonoDropsOffsetAndWidth | ttf2c/np2c.py:114-122 | in mono mode both array texts are empty, both pointers are `(void*)0`, the offset type is `uint8_t` and both byte counts are 0 |
| Emitter.GlyphIndexTypeIsByte | ttf2c/np2c.py:86-87 | the glyph-index width comes from the bit length of the glyph count, so it is 8 for every realistic count |
| Emitter.OffsetBytesUseCharmapWidth | ttf2c/np2c.py:92-93 | with one glyph `A` of 128 packed bytes, the offset type is `uint16_t`, yet the offset array is counted as 1 byte, the charmap width |

## Left out

- `font_path_checker`, `output_checker` and `img_path_checker` are left out: they inspect and create paths in the filesystem.
- The argparse parser, its descriptions and the import-time `parse_args()` are left out. So is the unused `--am` option.
- FreeType (`Face`, `set_pixel_sizes`, `load_char`, `get_chars`) is a foreign library. It is replaced by the `Font` value, so the `size` argument has no effect in the model.
- `__ttf_get_charset` is modelled as the font's own list of code points (`Font.codePoints`).
- ttf2c/glyph_img.py (PIL previews and rectangle packing) is not part of this model.
- The orchestration in ttf2c/__init__.py is left out: it reads global options and does I/O. Only its consequence that flip and inverse commute is stated (`FlipInvertCommute`).
- `generate_c_file` after line 122 is left out: the C template text, the file write and the printed statistics. The printed "Overal size" sum is kept as `OverallSize`.
- The character `chr(glyph_id)` in the comments is a parameter (`glyphChars`), because the model has no Unicode tables. Only the `ValueError` for code points past U+10FFFF is modelled. Lone surrogates (U+D800–U+DFFF) are accepted by `chr` but would fail when the file is written, and that write is left out.
- GlyphSets.Median: computed with integers. `statistics.median` returns a float for an even count; only its value after `int()` is modelled.
- GlyphSets.Canvas: numpy's broadcast error is reported as `Misplaced`, without its message. The slice assignment otherwise follows numpy's rules for a step-1 basic slice: negative bounds count from the end, bounds are clamped, a length-1 axis is broadcast, and any other shape mismatch is an error. Glyphs measured in pass 1 always lie wholly on their canvas (`CanvasFits`); only a glyph that pass 1 skipped can lie partly off it.
- GlyphSets.Canvas: a buffer that does not hold rows × pitch bytes fails with `BadBuffer`, where `numpy.reshape` raises. A negative pitch (bottom-up bitmaps) is not modelled.
- GlyphSets.Initialise: an empty kerning list fails with `NoMeasuredGlyph`, where `statistics.median` raises `StatisticsError`.
- Args.PyInt: models `int()` for ASCII text only. Non-ASCII digits and Unicode white space are not modelled.
- Args.PyInt: Python 3.11 and later, and the security releases of 3.7–3.10, refuse decimal text of more than 4300 digits in `int()` by default (`sys.get_int_max_str_digits`). The model reads decimal text of any length, as earlier versions do.
- Args.SizeCheckerAcceptsNaturals: under that limit, a natural of more than 4300 decimal digits is rejected instead.
- Args.StrToInt: the same limit applies to its decimal branch, but not to the `0x` branch, because base 16 is a power of two.
- Args.StrToIntReadsDecimal: under that limit, it holds only for naturals of at most 4300 decimal digits.
- Args.RejectsReversedRange: under that limit, a start of more than 4300 digits fails as an unreadable number instead. Either way the source raises `ValueError`.
- Emitter.CommentShort: `str()` is subject to the same limit, which a glyph index never comes near.
- Args.SortedUnique: states the result of `list(set(...)).sort()`, not the intermediate order that `set` iterates in.
- Emitter.ArrayBodies: code points are naturals. A negative code point cannot come from `range_checker` or FreeType.
- Emitter.Arrays: the font name is taken as given. `os.path.splitext` for the output name is left out.
