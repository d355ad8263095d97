/**
  What the two PBM readers and the dispatcher promise, stated over their
  specification functions: which inputs each reader refuses, how the P1
  pixel list is formed and padded, where the P4 header ends, and the
  bit layout of a P4 row.
 */
module PbmProperties {
  import opened PyBuiltins
  import opened PbmParser

  // ---------------------------------------------------------------------
  // P1
  // ---------------------------------------------------------------------

  /** The P1 reader refuses exactly: fewer than three clean lines, a first
      clean line that does not start with "P1", a dimension line that is
      not two integers; and a result carries the parsed dimensions */
  lemma PlainOutcome(lines: seq<string>)
    ensures var clean := CleanLines(lines);
      && (|clean| < 3 ==> PlainPbm(lines) == Err(TooFewLines))
      && (|clean| >= 3 && !StartsWith(clean[0], "P1") ==> PlainPbm(lines) == Err(BadMagic))
      && (|clean| >= 3 && StartsWith(clean[0], "P1") && Dimensions(clean[1]).Err? ==>
            PlainPbm(lines) == Err(BadDimensions))
      && (PlainPbm(lines).Ok? <==>
            |clean| >= 3 && StartsWith(clean[0], "P1") && Dimensions(clean[1]).Ok?)
      && (PlainPbm(lines).Ok? ==>
            (PlainPbm(lines).value.width, PlainPbm(lines).value.height) == Dimensions(clean[1]).value)
  {
    var clean := CleanLines(lines);
    if |clean| >= 3 && StartsWith(clean[0], "P1") && Dimensions(clean[1]).Err? {
      DimensionsError(clean[1]);
    }
  }

  /** Every failure of the dimension line is BadDimensions */
  lemma DimensionsError(line: string)
    ensures Dimensions(line).Err? ==> Dimensions(line).error == BadDimensions
  {
  }

  /** Cleaning works line by line: the clean lines of a concatenation are
      the clean lines of each part, in order */
  lemma {:induction false} CleanLinesAppend(a: seq<string>, b: seq<string>)
    ensures CleanLines(a + b) == CleanLines(a) + CleanLines(b)
    decreases |b|
  {
    if b == [] {
      assert a + b == a;
    } else {
      var b', last := b[..|b| - 1], b[|b| - 1];
      SnocSplit(a, b);
      CleanLinesStep(a + b, a + b', last);
      CleanLinesStep(b, b', last);
      CleanLinesAppend(a, b');
      var line := StripText(last);
      ConcatAssoc(CleanLines(a), CleanLines(b'), if IsContentLine(line) then [line] else []);
    }
  }

  /** Splitting off the last element of the second part */
  lemma SnocSplit<T>(a: seq<T>, b: seq<T>)
    requires b != []
    ensures a + b == (a + b[..|b| - 1]) + [b[|b| - 1]]
    ensures b == b[..|b| - 1] + [b[|b| - 1]]
  {
  }

  lemma ConcatAssoc<T>(x: seq<T>, y: seq<T>, z: seq<T>)
    ensures (x + y) + z == x + (y + z)
  {
  }

  /** A clean line is the strip of a source line that is neither blank nor
      a comment: it is non-empty, does not start with '#' and has no
      whitespace at either end */
  lemma {:induction false} CleanLinesAreClean(lines: seq<string>)
    ensures forall k :: 0 <= k < |CleanLines(lines)| ==> IsCleanLine(CleanLines(lines)[k])
  {
    if lines != [] {
      var init, last := lines[..|lines| - 1], lines[|lines| - 1];
      SnocSplit([], lines);
      assert [] + lines == lines && [] + init == init;
      CleanLinesStep(lines, init, last);
      CleanLinesAreClean(init);
      var line := StripText(last);
      if IsContentLine(line) {
        assert IsCleanLine([line][0]) by { KeptLineIsClean(last); }
        AllCleanConcat(CleanLines(init), [line]);
      } else {
        AllCleanConcat(CleanLines(init), []);
      }
    }
  }

  /** The strip of a line, when kept, is a clean line */
  lemma KeptLineIsClean(raw: string)
    requires IsContentLine(StripText(raw))
    ensures IsCleanLine(StripText(raw))
  {
  }

  lemma AllCleanConcat(x: seq<string>, y: seq<string>)
    requires forall k :: 0 <= k < |x| ==> IsCleanLine(x[k])
    requires forall k :: 0 <= k < |y| ==> IsCleanLine(y[k])
    ensures forall k :: 0 <= k < |x + y| ==> IsCleanLine((x + y)[k])
  {
  }

  /** Non-empty, not a comment, no whitespace at either end */
  predicate IsCleanLine(c: string) {
    c != [] && c[0] != '#' && !IsSpace(c[0]) && !IsSpace(c[|c| - 1])
  }

  /** A line that strips to nothing or to a `#` comment is dropped */
  lemma DroppedLine(lines: seq<string>, line: string)
    requires !IsContentLine(StripText(line))
    ensures CleanLines(lines + [line]) == CleanLines(lines)
  {
    assert (lines + [line])[..|lines|] == lines;
  }

  /** Pixel extraction works character by character */
  lemma {:induction false} LineBitsAppend(a: string, b: string)
    ensures LineBits(a + b) == LineBits(a) + LineBits(b)
    decreases |b|
  {
    if b == [] {
      assert a + b == a;
    } else {
      var b', ab := b[..|b| - 1], a + b;
      var last := CharBits(b[|b| - 1]);
      assert ab[..|ab| - 1] == a + b' && ab[|ab| - 1] == b[|b| - 1];
      assert LineBits(ab) == LineBits(a + b') + last;
      assert LineBits(a + b') == LineBits(a) + LineBits(b') by {
        LineBitsAppend(a, b');
      }
      assert LineBits(b) == LineBits(b') + last;
    }
  }

  /** The pixels of one character: '0' gives 0, '1' gives 1, and every
      other character (a space, a '#', a '2') gives nothing */
  lemma LineBitsOneChar(c: char)
    ensures LineBits([c]) == if c == '0' then [0] else if c == '1' then [1] else []
  {
    assert [c][..0] == [];
  }

  /** Every pixel is 0 or 1, a line gives at most one pixel per character,
      and a line with no '0' or '1' gives none */
  lemma {:induction false} LineBitsBits(s: string)
    ensures |LineBits(s)| <= |s|
    ensures forall i :: 0 <= i < |LineBits(s)| ==> LineBits(s)[i] == 0 || LineBits(s)[i] == 1
    ensures (forall i :: 0 <= i < |s| ==> s[i] != '0' && s[i] != '1') ==> LineBits(s) == []
  {
    if s != [] {
      LineBitsBits(s[..|s| - 1]);
    }
  }

  /** The pixel list is the pixels of all data lines joined into one text:
      line boundaries play no part */
  lemma {:induction false} DataBitsJoined(data: seq<string>)
    ensures DataBits(data) == LineBits(Join(data))
  {
    if data != [] {
      var init := data[..|data| - 1];
      DataBitsJoined(init);
      LineBitsAppend(Join(init), data[|data| - 1]);
    }
  }

  /** The data lines written one after another */
  function Join(lines: seq<string>): (s: string)
    ensures lines != [] ==> s == Join(lines[..|lines| - 1]) + lines[|lines| - 1]
  {
    if lines == [] then [] else Join(lines[..|lines| - 1]) + lines[|lines| - 1]
  }

  /** The padding rule: the list is as long as the longer of the pixels
      found and width * height; the pixels found come first and unchanged,
      and everything after them is 0; nothing is cut off */
  lemma PlainPadding(data: seq<string>, width: int, height: int)
    ensures var bits := DataBits(data);
      var img := PlainImageOf(data, width, height);
      && |img.pixels| == (if |bits| < width * height then width * height else |bits|)
      && img.pixels[..|bits|] == bits
      && (forall i :: |bits| <= i < |img.pixels| ==> img.pixels[i] == 0)
      && img.width == width && img.height == height
  {
    var bits := DataBits(data);
    var img := PlainImageOf(data, width, height);
    assert img.pixels[..|bits|] == bits;
  }

  /** Lines that are already clean are kept as they are */
  lemma {:induction false} CleanLinesOfCleanLines(lines: seq<string>)
    requires forall k :: 0 <= k < |lines| ==> IsCleanLine(lines[k])
    ensures CleanLines(lines) == lines
  {
    if lines != [] {
      var init, last := lines[..|lines| - 1], lines[|lines| - 1];
      assert StripText(last) == last by {
        StripTextUnchanged(last);
      }
      assert CleanLines(init) == init by {
        CleanLinesOfCleanLines(init);
      }
      assert IsContentLine(last);
      assert init + [last] == lines;
    }
  }

  /** Two decimal numerals separated by a space are read back as the two
      numbers */
  lemma DimensionsOfDecimals(w: nat, h: nat)
    ensures Dimensions(Decimal(w) + [' '] + Decimal(h)) == Ok((w, h))
  {
    var dw, dh := Decimal(w), Decimal(h);
    DigitsHaveNoSpace(dw);
    DigitsHaveNoSpace(dh);
    SplitTwoWords(dw, dh, [' '] + dh, dw + [' '] + dh);
    ParseDecimal(w);
    ParseDecimal(h);
  }

  lemma DigitsHaveNoSpace(s: string)
    requires AllDigits(s)
    ensures NoSpace(s)
  {
    forall i | 0 <= i < |s| ensures !IsSpace(s[i]) {
      assert IsDigit(s[i]);
    }
  }

  /** Cleaning twice is cleaning once */
  lemma CleanLinesIdempotent(lines: seq<string>)
    ensures CleanLines(CleanLines(lines)) == CleanLines(lines)
  {
    CleanLinesAreClean(lines);
    CleanLinesOfCleanLines(CleanLines(lines));
  }

  /** A '#' inside a data line starts no comment: the digits behind it are
      pixels like any others */
  lemma HashInsideDataLine(a: string, b: string)
    ensures LineBits(a + ['#'] + b) == LineBits(a) + LineBits(b)
  {
    LineBitsAppend(a + ['#'], b);
    LineBitsAppend(a, ['#']);
    LineBitsOneChar('#');
  }

  // ---------------------------------------------------------------------
  // P4
  // ---------------------------------------------------------------------

  /** Without a linefeed at or after the cursor the header scan fails */
  lemma NoLinefeedNoHeader(data: seq<Byte>, idx: nat, found: seq<string>)
    requires idx <= |data| && |found| < 2
    requires forall i :: idx <= i < |data| ==> data[i] != LF
    ensures ScanHeader(data, idx, found) == Err(NoNewline)
  {
  }

  /** An accepted header line is ASCII text that is non-empty, has no
      whitespace at either end and does not start with '#' */
  lemma AcceptedLineIsText(data: seq<Byte>, idx: nat)
    requires idx <= |data|
    ensures var step := NextHeaderLine(data, idx);
      step.Accepted? ==>
        && step.text != [] && step.text[0] != '#' && IsAsciiText(step.text)
        && !(step.text[0] == ' ' || '\t' <= step.text[0] <= '\r')
  {
    var eol := Find(data, LF, idx);
    if eol != -1 {
      JudgedLineIsText(data[idx..eol], eol + 1);
      assert NextHeaderLine(data, idx) == JudgeHeaderLine(data[idx..eol], eol + 1);
    }
  }

  /** A header line that strips to nothing or starts with '#' is skipped
      without being decoded, and the scan goes on after its linefeed with
      the same lines found */
  lemma SkippedHeaderLine(data: seq<Byte>, idx: nat, found: seq<string>)
    requires idx <= |data| && |found| < 2 && Find(data, LF, idx) != -1
    requires var line := StripBytes(data[idx..Find(data, LF, idx)]);
      line == [] || line[0] == HASH
    ensures ScanHeader(data, idx, found) == ScanHeader(data, Find(data, LF, idx) + 1, found)
  {
    var eol := Find(data, LF, idx);
    assert JudgeHeaderLine(data[idx..eol], eol + 1) == Skipped(eol + 1);
    assert NextHeaderLine(data, idx) == Skipped(eol + 1);
  }

  /** What the header loop accepts from one line: the strip, decoded */
  lemma JudgedLineIsText(raw: seq<Byte>, next: nat)
    ensures var step := JudgeHeaderLine(raw, next);
      step.Accepted? ==>
        && step.text != [] && step.text[0] != '#' && IsAsciiText(step.text)
        && !(step.text[0] == ' ' || '\t' <= step.text[0] <= '\r')
  {
    var line := StripBytes(raw);
    if line != [] && line[0] != HASH && DecodeAscii(line).Some? {
      var text := DecodeAscii(line).value;
      assert text[0] as int == line[0] as int && !IsByteSpace(line[0]);
    }
  }

  /** A P4 file is refused unless its first header line is exactly "P4":
      "P4x", which the P1 test would let through, is refused here */
  lemma RawMagicExact(data: seq<Byte>)
    ensures RawPbm(data).Ok? ==> ScanHeader(data, 0, []).Ok? && ScanHeader(data, 0, []).value.0[0] == "P4"
    ensures ScanHeader(data, 0, []).Ok? && ScanHeader(data, 0, []).value.0[0] != "P4" ==>
              RawPbm(data) == Err(BadMagic)
  {
  }

  /** Bit i of a byte string is bit i % 8, counted from the most
      significant end, of byte i / 8 */
  lemma {:induction false} BitsAt(bytes: seq<Byte>, i: int)
    requires 0 <= i < 8 * |bytes|
    ensures Bits(bytes)[i] == ByteBits(bytes[i / 8])[i % 8]
  {
    var init := bytes[..|bytes| - 1];
    if i < 8 * |init| {
      BitsAt(init, i);
    }
  }

  /** The pixels of one row read from its bytes: as many as the width, or
      all the bits the bytes hold when they are fewer, so pad bits are
      dropped and a short file gives a short row; pixel x is bit x % 8,
      most significant first, of byte x / 8 */
  predicate RowFromBytes(row: seq<int>, rowData: seq<Byte>, width: int) {
    && |row| == (if width < 8 * |rowData| then width else 8 * |rowData|)
    && forall x :: 0 <= x < |row| ==> row[x] == ByteBits(rowData[x / 8])[x % 8]
  }

  /** The shape of the P4 body: exactly `height` rows (none for a negative
      height); for a positive width row y is read from bytes
      [y * rb, (y + 1) * rb) of the body, rb = ceil(width / 8), cut off at
      the end of the body, and for any other width every row is empty */
  lemma RawRows(body: seq<Byte>, width: int, height: int)
    ensures var rows := RowsOf(body, width, height);
      var rb := RowBytes(width);
      && |rows| == (if height > 0 then height else 0)
      && (width > 0 ==>
            forall y :: 0 <= y < |rows| ==> RowFromBytes(rows[y], PySlice(body, y * rb, y * rb + rb), width))
      && (width <= 0 ==> forall y :: 0 <= y < |rows| ==> rows[y] == [])
  {
    var rows := RowsOf(body, width, height);
    var rb := RowBytes(width);
    forall y | 0 <= y < |rows|
      ensures width > 0 ==> RowFromBytes(rows[y], PySlice(body, y * rb, y * rb + rb), width)
      ensures width <= 0 ==> rows[y] == []
    {
      assert rows[y] == RowOf(body, width, y);
      if width > 0 {
        RowShape(body, width, y);
      }
    }
  }

  /** One row of the P4 body: the bits of its bytes, cut at the width */
  lemma RowShape(body: seq<Byte>, width: int, y: nat)
    requires width > 0
    ensures var rb := RowBytes(width);
      RowFromBytes(RowOf(body, width, y), PySlice(body, y * rb, y * rb + rb), width)
  {
    var rb := RowBytes(width);
    var rowData := PySlice(body, y * rb, y * rb + rb);
    var row := RowOf(body, width, y);
    assert row == Take(Bits(rowData), width);
    forall x | 0 <= x < |row| ensures row[x] == ByteBits(rowData[x / 8])[x % 8] {
      BitsAt(rowData, x);
    }
  }

  // ---------------------------------------------------------------------
  // parse_pbm_file
  // ---------------------------------------------------------------------

  /** A text read that parses as P1 is the answer; the bytes are never
      looked at */
  lemma TextSuccessIgnoresBytes(lines: seq<string>, raw1: RawRead, raw2: RawRead)
    requires PlainPbm(lines).Ok?
    ensures Decode(Lines(lines), raw1) == Decode(Lines(lines), raw2) == Plain(PlainPbm(lines).value)
  {
  }

  /** The binary reader is consulted only after the text attempt raised
      OSError or ValueError: any other exception from the text read ends
      the call with (None, None, None) */
  lemma OtherErrorNoFallback(raw: RawRead)
    ensures Decode(TextReadFailed(OtherErrorClass), raw) == NoResult
  {
  }

  /** Exactly when the result is a P4 image, and exactly when it is
      (None, None, None) */
  lemma DecodeOutcome(text: TextRead, raw: RawRead)
    ensures var fellBack := (text.Lines? && PlainPbm(text.lines).Err?)
                            || (text.TextReadFailed? && text.textError != OtherErrorClass);
      && (Decode(text, raw).Plain? <==> text.Lines? && PlainPbm(text.lines).Ok?)
      && (Decode(text, raw).Raw? <==> fellBack && raw.Bytes? && RawPbm(raw.data).Ok?)
      && (Decode(text, raw).Raw? ==> Decode(text, raw).raw == RawPbm(raw.data).value)
      && (Decode(text, raw) == NoResult <==>
            (text.TextReadFailed? && text.textError == OtherErrorClass)
            || (fellBack && (raw.RawReadFailed? || RawPbm(raw.data).Err?)))
  {
  }

  /** A path that names no file gives (None, None, None) */
  lemma MissingFileNoResult(store: AssetStore, path: string)
    requires path !in store
    ensures var asset := OpenAsset(store, path); Decode(asset.text, asset.raw) == NoResult
  {
  }

  /** main.py's copy opens the helper's path for the app "Emoji_App" with
      "assets/" in front of the file name, and decodes it the same way */
  lemma MainPathIsHelperPath(store: AssetStore, filename: string)
    ensures MainAssetPath(filename) == HelperAssetPath("Emoji_App", "assets/" + filename)
    ensures OpenAsset(store, MainAssetPath(filename)) == OpenAsset(store, HelperAssetPath("Emoji_App", "assets/" + filename))
  {
    assert "/apps/" + "Emoji_App" + "/" + ("assets/" + filename) == "/apps/Emoji_App/assets/" + filename;
  }
}
