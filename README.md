# Emoji badge: PBM decoding, scaled drawing and the emoji menu

This is a Dafny model of the core of a badge application. The app shows a menu of
emojis, one hardware button each. Pressing a button opens that emoji's screen,
and SW5 goes back to the menu. An emoji received from another badge gets a screen
of its own, headed "@handle says".

Emoji bitmaps are PBM files. Each is decoded by a small PBM reader in two steps:

- It first tries the plain text format "P1".
- When that fails with OSError or ValueError, it falls back to the raw binary format "P4".

The decoded bitmap is drawn with a scaled blit. Each source pixel becomes an s×s
block of the inverse colour. Here s is the largest whole scale at which the image
fits the drawing area, and never less than 1. The scaled image is centred in that
area, and cells off the display are skipped.

The modules follow the program:

- `PyBuiltins`: the Python built-ins the reader relies on, with CPython semantics:
  - `str.strip` and `bytes.strip`;
  - `str.split()`;
  - `int()` on base-10 text;
  - `bytes.find`;
  - `bytes.decode('ascii')`;
  - slicing with clamped bounds;
  - `str.startswith`.
- `PbmParser`: the P1 reader, the P4 reader and the `parse_pbm_file` dispatcher of
  `helpers/pbm_parser.py`, together with the verbatim copy in `main.py`.
  - Each reader is a method that keeps the source's loops.
  - Each method is proved equal to a specification function.
  - The file system is a map from path to the outcomes of a text read and a binary read.
- `PbmProperties`: what the readers and the dispatcher promise, stated over those
  specification functions:
  - which inputs are refused;
  - padding;
  - where the header ends;
  - the bit layout of rows;
  - the fallback order.
- `PbmEncoding`: a P4 writer and the round trip through the P4 reader.
- `ScaledBlit`: the three copies of the blit. They differ only in the drawing area
  and in what they do on an exception.
  - The display is an `array2`.
  - The four nested loops are a method.
  - That method is proved to write exactly the cells of the blocks of the pixels the data has.
- `EmojiData`: the emoji table, a dict modelled as an insertion-ordered sequence of
  pairs, and the button map that inverts the table.
- `EmojiApp`: the `App` class, with its menu/emoji screen state machine.
- `DisplayManager`: the received-emoji screen: handle normalisation and the table lookup.

Behaviour of the code that the model keeps, edge cases included:

- **P1 pixel list.** The P1 reader returns the pixels as one flat list. It pads the
  list with zeros up to width × height. It never cuts the list short and never
  splits it into rows.
- **P1 images and the blit.** Every blit indexes the image as `pixel_data[y][x]`
  behind `len(pixel_data[y])`. So a P1 image with positive dimensions raises
  TypeError at its first pixel, and the exception path runs. In the standard view
  that path is the test pattern; in the received view it is the text "Image error".
  `ScaledBlit.PlainImageFallsBack` states this. No P1 image ever writes a pixel.
- **Dimensions.** Neither reader requires positive dimensions:
  - any integers `int()` accepts are taken;
  - zero makes the blit's floor division raise;
  - a negative height gives no rows.
- **P4 header tokens** must sit on separate lines.
  - The magic line must be exactly "P4"; "P1" only has to be a prefix.
  - The dimension line must end with a linefeed (`PbmEncoding.UnterminatedDimensionLine`).

## Model

| member | source | states |
|---|---|---|
| PyBuiltins.StripText | helpers/pbm_parser.py:38 | the stripped line is the line with its leading whitespace dropped, then its trailing whitespace dropped: a slice with only whitespace outside it on both sides; it has no whitespace at either end and is empty exactly when the lstrip is |
| PyBuiltins.StripTextEmpty | helpers/pbm_parser.py:38-39 | a line strips to nothing exactly when every character is whitespace, so exactly those lines are dropped as blank |
| PyBuiltins.StripTextUnchanged | helpers/pbm_parser.py:38 | a line with no whitespace at either end is left as it is |
| PyBuiltins.StripBytes | helpers/pbm_parser.py:73 | the stripped bytes are the line with its leading ASCII whitespace dropped, then its trailing ASCII whitespace dropped: a slice with only whitespace bytes outside it on both sides; it has no whitespace byte at either end and is empty exactly when the lstrip is |
| PyBuiltins.StripBytesEmpty | helpers/pbm_parser.py:73-75 | a header line strips to nothing exactly when every byte is ASCII whitespace, so exactly those lines are skipped as blank |
| PyBuiltins.StripBytesUnchanged | helpers/pbm_parser.py:73 | bytes with no whitespace at either end are left as they are |
| PyBuiltins.TokenLength | helpers/pbm_parser.py:48 | the length of the leading run of non-whitespace, which is followed by whitespace or the end |
| PyBuiltins.Split | helpers/pbm_parser.py:48 | `split()` yields no more fields than the line has characters, and none exactly when `lstrip()` leaves nothing, that is when the line is all whitespace |
| PyBuiltins.SplitWords | helpers/pbm_parser.py:48 | every field `split()` yields is non-empty and free of whitespace |
| PyBuiltins.SplitTwoWords | helpers/pbm_parser.py:48 | two whitespace-free words joined by one space split into exactly those two fields |
| PyBuiltins.SplitLeadingWord | helpers/pbm_parser.py:48 | a word followed by whitespace splits into that word and the fields of the rest |
| PyBuiltins.IntStrip | helpers/pbm_parser.py:48 | the text `int()` reads is no longer than its argument and starts and ends with no character `int()` skips (space and \t to \r in ASCII, no other ASCII control character) |
| PyBuiltins.IntStripSlice | helpers/pbm_parser.py:48 | `int()` ignores surrounding whitespace: the text it reads is a slice of its argument with only skipped characters outside it on both sides |
| PyBuiltins.ParseInt | helpers/pbm_parser.py:48 | `int()` refuses a string that is blank once stripped, and gives a negative value only for a numeral written with a leading `-` |
| PyBuiltins.SplitLeadingSpace | helpers/pbm_parser.py:48 | leading whitespace adds no field |
| PyBuiltins.AllDigitsAccepted | helpers/pbm_parser.py:48 | a string of ASCII digits is a numeral `int()` accepts |
| PyBuiltins.Decimal | helpers/pbm_parser.py:48 | the decimal numeral of n is a non-empty digit string whose value is n |
| PyBuiltins.ParseDecimal | helpers/pbm_parser.py:48 | `int()` reads the decimal numeral of n back as n |
| PyBuiltins.ParseNegativeDecimal | helpers/pbm_parser.py:81 | `int()` reads "-" followed by the decimal numeral of n back as −n, so a negative dimension is read as written |
| PyBuiltins.DecodeAscii | helpers/pbm_parser.py:76 | decoding succeeds exactly when every byte is below 128, and then gives the character of the same code for each byte |
| PyBuiltins.EncodeAscii | helpers/pbm_parser.py:76 | the bytes of a text have the codes of its characters |
| PyBuiltins.DecodeEncodeAscii | helpers/pbm_parser.py:76 | decoding the bytes of an ASCII text gives the text back |
| PyBuiltins.Find | helpers/pbm_parser.py:70 | -1 exactly when no byte from `start` on is the one sought; otherwise the index of the first such byte |
| PyBuiltins.PySlice | helpers/pbm_parser.py:93 | for bounds 0 <= a <= b the slice is the part between them, clamped to the length |
| PyBuiltins.Clamp | helpers/pbm_parser.py:93 | a slice bound clamped to the length leaves an in-range bound unchanged |
| PbmParser.CollectCleanLines | helpers/pbm_parser.py:36-40 | the loop keeps, in order, the stripped lines that are neither blank nor `#` comments (CleanLines) |
| PbmParser.CollectPixels | helpers/pbm_parser.py:52-56 | the loop gives the '0'/'1' characters of all data lines as ints, line after line (DataBits) |
| PbmParser.PadPixels | helpers/pbm_parser.py:58-60 | the pixels followed by zeros up to `count`; a list already that long is unchanged |
| PbmParser.BuildPlainImage | helpers/pbm_parser.py:52-62 | the image is the data bits padded with zeros to width × height, with the given dimensions |
| PbmParser.ParsePlainPbm | helpers/pbm_parser.py:33-62 | `_parse_ascii_pbm` equals its specification PlainPbm, error cases included |
| PbmParser.Zeros | helpers/pbm_parser.py:59-60 | n zeros, none for n <= 0 |
| PbmParser.NextHeaderLine | helpers/pbm_parser.py:70-76 | a skipped or accepted header line moves the cursor just past a linefeed further on in the data |
| PbmParser.JudgeHeaderLine | helpers/pbm_parser.py:73-76 | a line found is never Missing, and the cursor goes to the byte after its linefeed |
| PbmParser.ScanHeader | helpers/pbm_parser.py:67-76 | a header found has exactly two lines and ends after the cursor, inside the data |
| PbmParser.ReadHeaderLine | helpers/pbm_parser.py:70-76 | one round of the header loop equals NextHeaderLine |
| PbmParser.ReadHeader | helpers/pbm_parser.py:67-76 | the cursor loop equals the header scan ScanHeader from offset 0 |
| PbmParser.ByteBits | helpers/pbm_parser.py:94-97 | a byte gives eight bits |
| PbmParser.Bits | helpers/pbm_parser.py:93-97 | a byte string gives eight bits per byte |
| PbmParser.Take | helpers/pbm_parser.py:95-96 | the first n elements, or all when there are fewer, always a prefix |
| PbmParser.UnpackByte | helpers/pbm_parser.py:94-98 | the bit loop with its `break` appends the bits of the byte, most significant first, up to `width` bits in all |
| PbmParser.TakeStable | helpers/pbm_parser.py:95-96 | once `width` bits are collected, later bits change nothing |
| PbmParser.UnpackRow | helpers/pbm_parser.py:93-98 | a row is the first `width` bits of its bytes |
| PbmParser.RowsOf | helpers/pbm_parser.py:89 | one row for each y in range(height) |
| PbmParser.UnpackRows | helpers/pbm_parser.py:86-99 | the row loop equals RowsOf: row y is read from the slice [y·rb, y·rb + rb) |
| PbmParser.RowsOfNext | helpers/pbm_parser.py:99 | one more round of the row loop appends row y |
| PbmParser.ParseRawPbm | helpers/pbm_parser.py:64-101 | `_parse_binary_pbm` equals its specification RawPbm, error cases included |
| PbmParser.DecodeAsset | helpers/pbm_parser.py:12-31 | the try/except structure equals Decode: text first, binary after OSError/ValueError, anything else gives (None, None, None) |
| PbmParser.ParsePbmFile | helpers/pbm_parser.py:6-31 | decodes the file at /apps/<app>/<filename> |
| PbmParser.MainParsePbmFile | main.py:229-321 | main.py's copy decodes the file at /apps/Emoji_App/assets/<filename> with the same readers |
| PbmProperties.PlainOutcome | helpers/pbm_parser.py:42-48 | P1 refuses exactly fewer than three clean lines, a first line not starting "P1", and a dimension line that is not two integers; a result carries those dimensions |
| PbmParser.Dimensions | helpers/pbm_parser.py:81 | the dimension line is accepted exactly when it has two fields that `int()` both accepts, and then gives their values as width and height, in that order |
| PbmProperties.DimensionsError | helpers/pbm_parser.py:48 | every failure of the dimension line is the same ValueError |
| PbmProperties.CleanLinesAppend | helpers/pbm_parser.py:36-40 | cleaning works line by line: the clean lines of a concatenation are the concatenation of the clean lines |
| PbmProperties.CleanLinesAreClean | helpers/pbm_parser.py:36-40 | every kept line is non-empty, not a comment and stripped |
| PbmProperties.KeptLineIsClean | helpers/pbm_parser.py:38-40 | a stripped line that passes the blank and comment test has no whitespace at either end |
| PbmProperties.DroppedLine | helpers/pbm_parser.py:39 | a line that strips to nothing or to a comment is dropped |
| PbmProperties.CleanLinesOfCleanLines | helpers/pbm_parser.py:36-40 | lines that are already clean are all kept unchanged |
| PbmProperties.CleanLinesIdempotent | helpers/pbm_parser.py:36-40 | cleaning twice is cleaning once |
| PbmProperties.LineBitsAppend | helpers/pbm_parser.py:54-56 | pixel extraction works character by character over a concatenation |
| PbmProperties.LineBitsOneChar | helpers/pbm_parser.py:55-56 | '0' gives 0, '1' gives 1, any other character gives nothing |
| PbmProperties.LineBitsBits | helpers/pbm_parser.py:54-56 | every pixel is 0 or 1, there are no more pixels than characters, and a line without '0'/'1' gives none |
| PbmProperties.DataBitsJoined | helpers/pbm_parser.py:53-56 | the pixel list is that of all data lines joined into one text |
| PbmProperties.Join | helpers/pbm_parser.py:53 | the data lines written one after another |
| PbmProperties.HashInsideDataLine | helpers/pbm_parser.py:55 | a '#' inside a data line starts no comment: the digits after it still count |
| PbmProperties.PlainPadding | helpers/pbm_parser.py:58-62 | the list is as long as the larger of the pixel count and width × height; the pixels come first unchanged and the rest are 0; nothing is cut off |
| PbmProperties.DimensionsOfDecimals | helpers/pbm_parser.py:48 | "W H" written in decimal is read back as (W, H) |
| PbmProperties.DigitsHaveNoSpace | helpers/pbm_parser.py:48 | a digit string holds no whitespace |
| PbmProperties.NoLinefeedNoHeader | helpers/pbm_parser.py:69-72 | without a linefeed from the cursor on, the header scan raises "no newline found" |
| PbmProperties.AcceptedLineIsText | helpers/pbm_parser.py:70-76 | an accepted header line is ASCII text, non-empty, not a comment and not starting with whitespace |
| PbmProperties.JudgedLineIsText | helpers/pbm_parser.py:73-76 | the same for the judgement of one line: what it accepts is the decoded strip, non-empty, not a comment and not starting with whitespace |
| PbmProperties.SkippedHeaderLine | helpers/pbm_parser.py:70-76 | a header line that strips to nothing or starts with `#` does not count and is never decoded: the scan goes on after its linefeed with the same lines found |
| PbmProperties.RawMagicExact | helpers/pbm_parser.py:78-79 | a P4 result needs the first header line to be exactly "P4"; any other first line is refused as a bad magic number |
| PbmProperties.BitsAt | helpers/pbm_parser.py:93-97 | bit i of a byte string is bit i mod 8, counted from the most significant end, of byte i div 8 |
| PbmProperties.RawRows | helpers/pbm_parser.py:86-99 | exactly `height` rows (none when it is negative); row y holds the first `width` bits of its ceil(width/8) bytes, fewer at the end of the data; with no positive width all rows are empty |
| PbmProperties.RowShape | helpers/pbm_parser.py:88-98 | one row of the body, read from its slice and cut at the width |
| PbmProperties.TextSuccessIgnoresBytes | helpers/pbm_parser.py:13-17 | a text read that parses as P1 is the answer, whatever the bytes |
| PbmProperties.OtherErrorNoFallback | helpers/pbm_parser.py:18-31 | a text read failing with anything but OSError/ValueError gives (None, None, None) with no binary attempt |
| PbmProperties.DecodeOutcome | helpers/pbm_parser.py:6-31 | iff conditions for each of the three outcomes: P1 image, P4 image, (None, None, None) |
| PbmProperties.MissingFileNoResult | helpers/pbm_parser.py:14-31 | a path naming no file gives (None, None, None) |
| PbmProperties.MainPathIsHelperPath | main.py:231 | main.py's path is the helper's path for app "Emoji_App" and file "assets/<filename>", so it opens the same file |
| PbmEncoding.UnpackPackByte | helpers/pbm_parser.py:94-98 | unpacking a packed byte gives its eight pixels back |
| PbmEncoding.PackedBit | helpers/pbm_parser.py:97 | `(byte >> (7 - k)) & 1` of a packed byte is pixel k |
| PbmEncoding.BitAt | helpers/pbm_parser.py:97 | bit k is pixel k once the packed value is split around pixel k |
| PbmEncoding.DivideOut | helpers/pbm_parser.py:97 | shifting out the lower bits and masking leaves the bit of the given weight |
| PbmEncoding.RowBytesFit | helpers/pbm_parser.py:88 | (width + 7) // 8 bytes hold a row and waste fewer than eight bits |
| PbmEncoding.PaddedRow | helpers/pbm_parser.py:95-96 | a row padded with zero bits to whole bytes starts with the row |
| PbmEncoding.PackRow | helpers/pbm_parser.py:88 | a packed row takes exactly (width + 7) // 8 bytes |
| PbmEncoding.UnpackPackRow | helpers/pbm_parser.py:93-98 | a packed row unpacks to the padded row, and the first `width` bits are the row |
| PbmEncoding.PackedRowBit | helpers/pbm_parser.py:93-97 | bit i of a packed row is bit i of the padded row |
| PbmEncoding.Body | helpers/pbm_parser.py:85 | the pixel data is height × rb bytes |
| PbmEncoding.BodyRow | helpers/pbm_parser.py:91-93 | row y of the grid sits at bytes [y·rb, y·rb + rb) of the pixel data |
| PbmEncoding.DimensionLine | helpers/pbm_parser.py:81 | "W H" is non-empty ASCII text |
| PbmEncoding.AcceptHeaderLine | helpers/pbm_parser.py:70-76 | a clean ASCII line followed by a linefeed is accepted as its text |
| PbmEncoding.LineAt | helpers/pbm_parser.py:70-73 | the line judged is the slice from the cursor to the linefeed |
| PbmEncoding.AcceptFirst | helpers/pbm_parser.py:69-76 | the header loop goes on after accepting its first line |
| PbmEncoding.AcceptSecond | helpers/pbm_parser.py:69-76 | the header loop ends on accepting its second line |
| PbmEncoding.SecondOfTwo | helpers/pbm_parser.py:69-76 | the second accepted line completes the header |
| PbmEncoding.ScanAccepted | helpers/pbm_parser.py:67-76 | two accepted lines in a row make the header |
| PbmEncoding.TwoLineHeader | helpers/pbm_parser.py:67-76 | two header lines, each ending in a linefeed, are read as the header, and the body starts right after them |
| PbmEncoding.LineAfter | helpers/pbm_parser.py:70-76 | a header line at the cursor followed by a linefeed is accepted |
| PbmEncoding.HeaderLayout | helpers/pbm_parser.py:67-76 | where the header lines and their linefeeds lie in an encoded file |
| PbmEncoding.HeaderLines | helpers/pbm_parser.py:67-76 | "P4" and "W H" each sit on a line of their own |
| PbmEncoding.MagicBytes | helpers/pbm_parser.py:78 | "P4" is a header line as written |
| PbmEncoding.DimensionBytes | helpers/pbm_parser.py:81 | the dimension line is a header line as written, with no linefeed |
| PbmEncoding.RawRoundTrip | helpers/pbm_parser.py:64-101 | decoding the P4 encoding of any W×H bit grid gives back W, H and the grid |
| PbmEncoding.RowsRoundTrip | helpers/pbm_parser.py:86-99 | the rows cut from the packed body are the grid's rows |
| PbmEncoding.RowRoundTrip | helpers/pbm_parser.py:88-98 | row y cut from the body unpacks to row y of the grid |
| PbmEncoding.UnterminatedDimensionLine | helpers/pbm_parser.py:69-72 | a P4 file cut off right after "W H" is refused with "no newline found" |
| PbmEncoding.TruncatedLayout | helpers/pbm_parser.py:70 | after "P4" and its linefeed, the cut-off file holds no linefeed |
| PbmEncoding.NoSecondLine | helpers/pbm_parser.py:69-72 | one accepted line with no linefeed after it: the header loop runs out |
| ScaledBlit.FloorDiv | main.py:187 | Python's `//`: the floor of the quotient, for either sign of divisor |
| ScaledBlit.StandardArea | main.py:182-184 | the standard view covers rows 27 to 175 across the full width |
| ScaledBlit.ReceivedArea | helpers/display_manager.py:118-122 | the received view covers rows 80 to 170 across the full width |
| ScaledBlit.Scale | main.py:186-189 | the scale is never below 1 |
| ScaledBlit.Place | main.py:186-196 | the placement's scale is at least 1 |
| ScaledBlit.ScaleIsLargestFit | main.py:186-189 | for positive dimensions: the image fits at the scale when it fits at all, fits at no larger scale, and is drawn at scale 1 when it is wider or taller than the area |
| ScaledBlit.QuotientAtLeastOne | main.py:187 | a side that fits gives a whole ratio of at least 1 |
| ScaledBlit.QuotientBelowOne | main.py:187-189 | a side longer than the area gives a whole ratio below 1 |
| ScaledBlit.Overflows | main.py:187 | beyond the whole ratio, the scaled side exceeds the area |
| ScaledBlit.Centred | main.py:194-196 | the right (lower) margin equals the left (upper) margin, or is one cell more |
| ScaledBlit.StaysInArea | main.py:191-209 | an image that fits is drawn entirely inside its area |
| ScaledBlit.BlockIff | main.py:208-209 | a cell lies in block y exactly when it is one of the `scale` cells from origin + y·scale |
| ScaledBlit.BlockCell | main.py:199-212 | every cell of the block for pixel (x, y) is shown with colour 1 − pixel |
| ScaledBlit.FillBlock | main.py:206-212 | the block's on-display cells get the colour, and every other cell keeps its colour |
| ScaledBlit.DrawScaled | main.py:199-212 | the loops give every cell in the block of a pixel the data has the inverse of that pixel; every other cell keeps its colour |
| ScaledBlit.Fallback | main.py:214-216 | an exception ends in the test pattern (standard view) or the text "Image error" (received view) |
| ScaledBlit.DrawEmojiFromPbm | main.py:172-216 | what the blit shows (load error, drawn, or fallback), and the new colour of every cell; with the received view it is also draw_emoji_from_pbm_received (helpers/display_manager.py lines 107-154, rows 80 to 170, "Image error" on an exception), and with the standard view the helpers' draw_emoji_from_pbm (lines 156-201) |
| ScaledBlit.PlainImageFallsBack | main.py:199-216 | a P1 image never writes a cell; with positive dimensions it falls back |
| ScaledBlit.WholeImageDrawn | main.py:199-212 | every cell of every block of a P4 image that fits lands in the area and gets the inverse of its pixel |
| EmojiData.Keys | helpers/emoji_data.py:53 | the keys of a dict, in iteration order |
| EmojiData.Get | helpers/display_manager.py:86 | `dict.get`: None exactly when the key is absent; otherwise the value stored under the key |
| EmojiData.Assign | helpers/emoji_data.py:55 | `d[k] = v` grows the dict only for a new key |
| EmojiData.AssignGet | helpers/emoji_data.py:55 | after `d[k] = v`, k reads v and every other key reads as before |
| EmojiData.AssignUnique | helpers/emoji_data.py:55 | `d[k] = v` keeps every key unique |
| EmojiData.GetButtonMap | helpers/emoji_data.py:50-56 | the loop builds the map `button_map[info.button] = key` over the table in order |
| EmojiData.LastWith | helpers/emoji_data.py:53-55 | reference definition: the key of the last item carrying button b, or none |
| EmojiData.ButtonMapLastWins | helpers/emoji_data.py:52-56 | the map sends each button to the key of the last item with that button |
| EmojiData.ButtonMapUnique | helpers/emoji_data.py:52-56 | each button appears at most once in the map |
| EmojiData.ButtonMapInverts | helpers/emoji_data.py:50-56 | with distinct buttons, each item's button leads back to its key |
| EmojiData.ButtonMapValues | helpers/emoji_data.py:50-56 | a button is in the map exactly when some item carries it, and it leads to a key of the table |
| EmojiData.ButtonMapSize | helpers/emoji_data.py:50-56 | with distinct buttons, the map has one entry per item |
| EmojiData.Buttons | helpers/emoji_data.py:54 | the buttons of the table, in order |
| EmojiData.EmojiButtons | helpers/emoji_data.py:5-46 | the helpers' table gives eight different buttons |
| EmojiData.EmojiOrder | helpers/emoji_data.py:5-48 | the menu order lists the table's keys, in the table's order |
| EmojiData.EmojiButtonMapSize | helpers/emoji_data.py:50-56 | the helpers' button map has eight entries |
| EmojiData.EmojiKeysUnique | helpers/emoji_data.py:5-46 | no key appears twice in the helpers' table |
| EmojiApp.MainButtons | main.py:12-53 | the app's table gives eight different buttons |
| EmojiApp.MainButtonMapInverts | main.py:56-59 | in the app's button map, each emoji's button leads back to that emoji |
| EmojiApp.FirstPressed | main.py:326-328 | the first entry, in map order, whose button exists and is down; none exactly when no button acts |
| EmojiApp.App.constructor | main.py:7-59 | starts on the menu with nothing selected, holding the app's table and its button map |
| EmojiApp.App.OnOpen | main.py:61-62 | goes back to the menu and keeps the selection |
| EmojiApp.App.CheckButtonPresses | main.py:324-341 | on the menu, the first button that acts selects its emoji and opens its screen, and no button leaves everything as it was; on an emoji screen, SW5 returns to the menu; a selected emoji is always a key of the table |
| EmojiApp.MappedKey | main.py:56-59 | every emoji the button map leads to is a key of the table |
| EmojiApp.AssignedKey | main.py:59 | an item of a dict is what the dict gives for its key |
| EmojiApp.SinglePressSelectsIn | main.py:324-334 | with distinct buttons, pressing one existing button alone on the menu selects that button's emoji |
| EmojiApp.SinglePressSelects | main.py:324-334 | the same for the app's table |
| DisplayManager.NormaliseHandle | helpers/display_manager.py:72-74 | the shown handle starts with "@"; a handle that already does is kept, any other gets exactly one "@" in front |
| DisplayManager.NormaliseHandleIdempotent | helpers/display_manager.py:72-74 | normalising twice is normalising once |
| DisplayManager.DrawReceivedEmoji | helpers/display_manager.py:61-105 | an empty message draws nothing; otherwise the heading, the emoji part of the table lookup, and cells written only by the received-view blit of a known emoji |
| DisplayManager.ReceivedLookup | helpers/display_manager.py:86-96 | the heading starts with "@"; "Unknown Emoji" exactly when the key is not in the table; otherwise the entry's name and the outcome of its bitmap |

## Left out

- File I/O is replaced by a map from path to the outcome of a text read and of a binary read. Logging is left out, and so is the text decoding of `open(path, 'r')`, which is part of the text-read outcome.
- Display calls other than `pixel` are not modelled; the outcome datatype names their effect instead. These are `fill`, `text`, `nice_text`, `hline`, `show` and `draw_menu`. `draw_emoji` (helpers/display_manager.py:39-59) is not modelled beyond the blit it calls.
- The test pattern's own drawing (main.py:218-227) is not modelled; only the fact that it runs is.
- The buzzer, the sounds, `time.sleep`, `play_emoji_sound` and the radio are left out. helpers/radio_handler.py is not part of this model.
- `debug_list_files` is left out. It only lists directories into the log.
- `App.loop` is left out. It calls `check_button_presses` and sleeps.
- The button hardware is left out; `CheckButtonPresses` takes it as two sets instead:
  - the button names `badge.input.Buttons` has (with a truthy value);
  - the buttons that are down.
- `int()` is modelled on ASCII only. Non-ASCII Unicode digits are left out, and so is CPython's limit on the number of digits.
- Differences between MicroPython and CPython in the built-ins are not modelled.
- A received message without a "sender" or an "emoji" key is not modelled; the code raises KeyError there. A message is modelled as a pair, and any falsy message as None.
- Hardware buttons are assumed to include SW5.
- `App.draw_emoji` (main.py:107-126), which `CheckButtonPresses` calls on a selection (main.py:332), is not modelled. So `EmojiApp.App.CheckButtonPresses` changes the screen state and writes no canvas; the blit that `draw_emoji` runs is modelled on its own by `ScaledBlit.DrawEmojiFromPbm`.
- Running out of memory is not modelled. The P1 padding loop (helpers/pbm_parser.py:58-60) appends width × height − n zeros, and the P4 row loop (helpers/pbm_parser.py:89-99) appends `height` rows. A header such as "P1" with "100000 100000", or "P4" with "1 100000000", exhausts memory, and much smaller ones do on the badge. The MemoryError reaches `except Exception` (helpers/pbm_parser.py:29-31), so the source returns (None, None, None) and the blit shows "Error loading" (main.py:176-180). The model builds the image instead, and `ScaledBlit.DrawEmojiFromPbm` then reports a fallback (P1) or a drawing (P4).
- `PbmProperties.RowShape` is stated for a positive width only; `PbmProperties.RawRows` covers every width.
