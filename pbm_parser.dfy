/**
  The PBM reader of helpers/pbm_parser.py (main.py carries a verbatim copy):
  the plain "P1" reader, the raw "P4" reader and the text-then-binary
  dispatcher.  Each reader is a method with the source's loops, proved equal
  to a specification function; the properties of the format are lemmas about
  those functions.
 */
module PbmParser {
  import opened PyBuiltins

  /** Why a reader raised.  Every one of these is a ValueError in the
      source (UnicodeDecodeError included). */
  datatype ParseError =
    | TooFewLines    // fewer than three clean lines (P1)
    | BadMagic       // first header line is not "P1..." / not exactly "P4"
    | BadDimensions  // dimension line is not exactly two integers
    | NoNewline      // the P4 header ran out of linefeeds
    | NotAscii       // a P4 header line fails bytes.decode('ascii')

  datatype Result<+T> = Ok(value: T) | Err(error: ParseError)

  /** What _parse_ascii_pbm returns: the pixels stay ONE flat list */
  datatype PlainImage = PlainImage(width: int, height: int, pixels: seq<int>)

  /** What _parse_binary_pbm returns: one list of bits per row */
  datatype RawImage = RawImage(width: int, height: int, rows: seq<seq<int>>)

  /** What parse_pbm_file hands its caller: (None, None, None) or one of
      the two reader results */
  datatype Decoded = NoResult | Plain(plain: PlainImage) | Raw(raw: RawImage)

  /** The exception classes the dispatcher tells apart */
  datatype ErrorClass = OSErrorClass | ValueErrorClass | OtherErrorClass

  /** Outcome of `open(path, 'r')` and `readlines()` */
  datatype TextRead = Lines(lines: seq<string>) | TextReadFailed(textError: ErrorClass)

  /** Outcome of `open(path, 'rb')` and `read()` */
  datatype RawRead = Bytes(data: seq<Byte>) | RawReadFailed(rawError: ErrorClass)

  /** `width, height = map(int, line.split())`: exactly two fields, each
      one int() accepts, read in order as the width and the height */
  function Dimensions(line: string): (r: Result<(int, int)>)
    ensures r.Ok? <==> |Split(line)| == 2 && ParseInt(Split(line)[0]).Some? && ParseInt(Split(line)[1]).Some?
    ensures r.Ok? ==> Some(r.value.0) == ParseInt(Split(line)[0]) && Some(r.value.1) == ParseInt(Split(line)[1])
  {
    var tokens := Split(line);
    if |tokens| != 2 then Err(BadDimensions)
    else
      match (ParseInt(tokens[0]), ParseInt(tokens[1]))
      case (Some(w), Some(h)) => Ok((w, h))
      case _ => Err(BadDimensions)
  }

  // ---------------------------------------------------------------------
  // P1: the plain (text) reader
  // ---------------------------------------------------------------------

  /** A stripped line that is neither blank nor a comment */
  predicate IsContentLine(line: string) {
    line != [] && line[0] != '#'
  }

  /** The stripped content lines, in their order */
  function CleanLines(lines: seq<string>): seq<string> {
    if lines == [] then []
    else
      var line := StripText(lines[|lines| - 1]);
      CleanLines(lines[..|lines| - 1]) + (if IsContentLine(line) then [line] else [])
  }

  /** The pixel a character stands for: '0' and '1' only */
  function CharBits(c: char): seq<int> {
    if c == '0' then [0] else if c == '1' then [1] else []
  }

  /** The '0' and '1' characters of one line, as ints, in order */
  function LineBits(s: string): seq<int> {
    if s == [] then [] else LineBits(s[..|s| - 1]) + CharBits(s[|s| - 1])
  }

  /** The bits of all data lines, line after line */
  function DataBits(lines: seq<string>): seq<int> {
    if lines == [] then [] else DataBits(lines[..|lines| - 1]) + LineBits(lines[|lines| - 1])
  }

  function Zeros(n: int): (z: seq<int>)
    ensures |z| == (if n > 0 then n else 0)
    ensures forall i :: 0 <= i < |z| ==> z[i] == 0
  {
    seq(if n > 0 then n else 0, _ => 0)
  }

  /** The specification of _parse_ascii_pbm */
  function PlainPbm(lines: seq<string>): Result<PlainImage> {
    var clean := CleanLines(lines);
    if |clean| < 3 then Err(TooFewLines)
    else if !StartsWith(clean[0], "P1") then Err(BadMagic)
    else
      match Dimensions(clean[1])
      case Err(e) => Err(e)
      case Ok((w, h)) => Ok(PlainImageOf(clean[2..], w, h))
  }

  /** The image the data lines give once the header is accepted: their
      bits, padded with 0 up to width * height */
  function PlainImageOf(data: seq<string>, width: int, height: int): PlainImage {
    var bits := DataBits(data);
    PlainImage(width, height, bits + Zeros(width * height - |bits|))
  }

  /** The first loop of _parse_ascii_pbm: strip every line, keep the
      content lines */
  method CollectCleanLines(fileContent: seq<string>) returns (cleanLines: seq<string>)
    ensures cleanLines == CleanLines(fileContent)
  {
    cleanLines := [];
    for i := 0 to |fileContent|
      invariant cleanLines == CleanLines(fileContent[..i])
    {
      var line := StripText(fileContent[i]);
      var content := line != [] && !StartsWith(line, "#");
      assert CleanLines(fileContent[..i + 1]) == cleanLines + (if content then [line] else []) by {
        assert fileContent[..i + 1] == fileContent[..i] + [fileContent[i]];
        CleanLinesStep(fileContent[..i + 1], fileContent[..i], fileContent[i]);
        assert IsContentLine(line) == content;
      }
      if content {
        cleanLines := cleanLines + [line];
      }
    }
    assert fileContent[..|fileContent|] == fileContent;
  }

  /** The last line adds its strip, when that is content */
  lemma CleanLinesStep(lines: seq<string>, init: seq<string>, last: string)
    requires lines == init + [last]
    ensures var line := StripText(last);
      CleanLines(lines) == CleanLines(init) + (if IsContentLine(line) then [line] else [])
  {
    assert lines[..|lines| - 1] == init;
  }

  /** The pixel loop of _parse_ascii_pbm: every '0' or '1' character of the
      data lines, appended in order */
  method CollectPixels(data: seq<string>) returns (pixelData: seq<int>)
    ensures pixelData == DataBits(data)
  {
    pixelData := [];
    for i := 0 to |data|
      invariant pixelData == DataBits(data[..i])
    {
      var line := data[i];
      ghost var before := pixelData;
      for j := 0 to |line|
        invariant pixelData == before + LineBits(line[..j])
      {
        LineBitsNext(line, j);
        ghost var previous := pixelData;
        if line[j] == '0' || line[j] == '1' {
          pixelData := pixelData + [if line[j] == '0' then 0 else 1];
        }
        assert pixelData == previous + CharBits(line[j]);
      }
      assert line[..|line|] == line;
      DataBitsNext(data, i);
    }
    assert data[..|data|] == data;
  }

  lemma LineBitsNext(line: string, j: nat)
    requires j < |line|
    ensures LineBits(line[..j + 1]) == LineBits(line[..j]) + CharBits(line[j])
  {
    assert line[..j + 1][..j] == line[..j];
  }

  lemma DataBitsNext(data: seq<string>, i: nat)
    requires i < |data|
    ensures DataBits(data[..i + 1]) == DataBits(data[..i]) + LineBits(data[i])
  {
    assert data[..i + 1][..i] == data[..i];
  }

  /** The padding loop of _parse_ascii_pbm: append 0 until there are
      `count` pixels; a longer list is left as it is */
  method PadPixels(pixels: seq<int>, count: int) returns (pixelData: seq<int>)
    ensures pixelData == pixels + Zeros(count - |pixels|)
  {
    pixelData := pixels;
    if |pixelData| != count {
      while |pixelData| < count
        invariant pixelData == pixels + Zeros(|pixelData| - |pixels|)
        invariant |pixels| <= |pixelData|
        invariant |pixelData| > |pixels| ==> |pixelData| <= count
        decreases count - |pixelData|
      {
        pixelData := pixelData + [0];
      }
    }
    assert |pixels| >= count ==> pixelData == pixels + [];
  }

  /** _parse_ascii_pbm */
  method ParsePlainPbm(fileContent: seq<string>) returns (r: Result<PlainImage>)
    ensures r == PlainPbm(fileContent)
  {
    var cleanLines := CollectCleanLines(fileContent);
    if |cleanLines| < 3 {
      return Err(TooFewLines);
    }
    if !StartsWith(cleanLines[0], "P1") {
      return Err(BadMagic);
    }
    var dims := Dimensions(cleanLines[1]);
    match dims {
      case Err(e) =>
        return Err(e);
      case Ok((width, height)) =>
        var image := BuildPlainImage(cleanLines[2..], width, height);
        r := Ok(image);
    }
  }

  /** The pixel and padding loops of _parse_ascii_pbm */
  method BuildPlainImage(data: seq<string>, width: int, height: int) returns (image: PlainImage)
    ensures image == PlainImageOf(data, width, height)
  {
    var pixelData := CollectPixels(data);
    pixelData := PadPixels(pixelData, width * height);
    image := PlainImage(width, height, pixelData);
  }

  // ---------------------------------------------------------------------
  // P4: the raw (binary) reader
  // ---------------------------------------------------------------------

  const LF: Byte := 10
  const HASH: Byte := 35

  /** What the header loop makes of the line that starts at `idx` */
  datatype HeaderStep =
    | Missing                         // no linefeed left: ValueError
    | Skipped(next: nat)              // blank or `#` line
    | Undecodable                     // not ASCII: UnicodeDecodeError
    | Accepted(text: string, next: nat)

  /** One round of the header loop: find the linefeed, then judge the line
      before it; the cursor moves just past that linefeed */
  function NextHeaderLine(data: seq<Byte>, idx: nat): (step: HeaderStep)
    requires idx <= |data|
    ensures (step.Skipped? || step.Accepted?) ==> idx < step.next <= |data| && data[step.next - 1] == LF
  {
    var eol := Find(data, LF, idx);
    if eol == -1 then Missing else JudgeHeaderLine(data[idx..eol], eol + 1)
  }

  /** Strip the line, skip it when blank or a comment, else decode it */
  function JudgeHeaderLine(raw: seq<Byte>, next: nat): (step: HeaderStep)
    ensures !step.Missing?
    ensures (step.Skipped? || step.Accepted?) ==> step.next == next
  {
    var line := StripBytes(raw);
    if line == [] || line[0] == HASH then Skipped(next)
    else
      match DecodeAscii(line)
      case None => Undecodable
      case Some(text) => Accepted(text, next)
  }

  /** The header scan of _parse_binary_pbm from cursor `idx`, with the
      header lines in `found` already accepted: the two accepted lines and
      the offset just past the linefeed that ended the second one */
  function ScanHeader(data: seq<Byte>, idx: nat, found: seq<string>): (r: Result<(seq<string>, nat)>)
    requires idx <= |data| && |found| < 2
    ensures r.Ok? ==> |r.value.0| == 2
    ensures r.Ok? ==> idx < r.value.1 <= |data|
    decreases |data| - idx
  {
    match NextHeaderLine(data, idx)
    case Missing => Err(NoNewline)
    case Undecodable => Err(NotAscii)
    case Skipped(next) => ScanHeader(data, next, found)
    case Accepted(text, next) =>
      if |found| == 1 then Ok((found + [text], next))
      else ScanHeader(data, next, found + [text])
  }

  /** `(byte >> (7 - bit)) & 1` for bit = 0..7: the eight bits of a byte,
      most significant first (on a non-negative int, `>> n` is division by
      2^n and `& 1` is `% 2`) */
  function ByteBits(b: Byte): (bits: seq<int>)
    ensures |bits| == 8
  {
    seq(8, k requires 0 <= k < 8 => (b as int / [128, 64, 32, 16, 8, 4, 2, 1][k]) % 2)
  }

  /** The bits of a byte string, byte after byte */
  function Bits(bytes: seq<Byte>): (bits: seq<int>)
    ensures |bits| == 8 * |bytes|
  {
    if bytes == [] then [] else Bits(bytes[..|bytes| - 1]) + ByteBits(bytes[|bytes| - 1])
  }

  /** The first `n` elements of `s`, or all of `s` when it is shorter */
  function Take<T>(s: seq<T>, n: int): (r: seq<T>)
    ensures |r| == if n <= 0 then 0 else if |s| <= n then |s| else n
    ensures r <= s
  {
    if n <= 0 then [] else if |s| <= n then s else s[..n]
  }

  /** `row_bytes = (width + 7) // 8`; Dafny's `/` by the positive 8 floors
      like Python's `//`, also for a negative width */
  function RowBytes(width: int): int {
    (width + 7) / 8
  }

  /** Row y of the pixel data: the bits of
      `binary_data[y * row_bytes : (y + 1) * row_bytes]`, stopping once
      `width` bits are collected */
  function RowOf(body: seq<Byte>, width: int, y: int): seq<int> {
    var rb := RowBytes(width);
    Take(Bits(PySlice(body, y * rb, y * rb + rb)), width)
  }

  /** The rows for `y in range(height)` */
  function RowsOf(body: seq<Byte>, width: int, height: int): (rows: seq<seq<int>>)
    ensures |rows| == if height > 0 then height else 0
  {
    seq(if height > 0 then height else 0, y => RowOf(body, width, y))
  }

  /** The specification of _parse_binary_pbm */
  function RawPbm(data: seq<Byte>): Result<RawImage> {
    match ScanHeader(data, 0, [])
    case Err(e) => Err(e)
    case Ok((header, bodyStart)) =>
      if header[0] != "P4" then Err(BadMagic)
      else
        match Dimensions(header[1])
        case Err(e) => Err(e)
        case Ok((w, h)) => Ok(RawImage(w, h, RowsOf(data[bodyStart..], w, h)))
  }

  /** The bits of one row: the byte loop of the row */
  method UnpackRow(rowData: seq<Byte>, width: int) returns (rowBits: seq<int>)
    ensures rowBits == Take(Bits(rowData), width)
  {
    rowBits := [];
    for j := 0 to |rowData|
      invariant rowBits == Take(Bits(rowData[..j]), width)
    {
      assert rowData[..j + 1] == rowData[..j] + [rowData[j]];
      rowBits := UnpackByte(rowBits, Bits(rowData[..j]), rowData[j], width);
    }
    assert rowData[..|rowData|] == rowData;
  }

  /** The bit loop of the row: append the bits of `byte`, most significant
      first, leaving it by `break` once the row holds `width` bits */
  method UnpackByte(rowBits: seq<int>, ghost done: seq<int>, byte: Byte, width: int) returns (out: seq<int>)
    requires rowBits == Take(done, width)
    ensures out == Take(done + ByteBits(byte), width)
  {
    out := rowBits;
    var bit := 0;
    while bit < 8
      invariant 0 <= bit <= 8
      invariant out == Take(done + ByteBits(byte)[..bit], width)
    {
      if |out| >= width {
        break;
      }
      var pixel := (byte as int / [128, 64, 32, 16, 8, 4, 2, 1][bit]) % 2;
      assert ByteBits(byte)[..bit + 1] == ByteBits(byte)[..bit] + [pixel];
      out := out + [pixel];
      bit := bit + 1;
    }
    TakeStable(done, ByteBits(byte), bit, width);
  }

  /** Once `width` elements are taken, looking further changes nothing */
  lemma TakeStable(done: seq<int>, more: seq<int>, k: nat, width: int)
    requires k <= |more|
    requires k < |more| ==> |Take(done + more[..k], width)| >= width
    ensures Take(done + more[..k], width) == Take(done + more, width)
  {
    if k < |more| {
      assert more == more[..k] + more[k..];
      assert done + more == (done + more[..k]) + more[k..];
    } else {
      assert more[..k] == more;
    }
  }

  /** One round of the header loop: `file_content.find(b'\n', idx)`, the
      strip, the blank/comment test and the ASCII decode */
  method ReadHeaderLine(fileContent: seq<Byte>, idx: nat) returns (step: HeaderStep)
    requires idx <= |fileContent|
    ensures step == NextHeaderLine(fileContent, idx)
  {
    var eol := Find(fileContent, LF, idx);
    if eol == -1 {
      return Missing;
    }
    var raw := fileContent[idx..eol];
    assert NextHeaderLine(fileContent, idx) == JudgeHeaderLine(raw, eol + 1);
    var line := StripBytes(raw);
    if line != [] && line[0] != HASH {
      var text := DecodeAscii(line);
      if text.None? {
        return Undecodable;
      }
      return Accepted(text.value, eol + 1);
    }
    return Skipped(eol + 1);
  }

  /** The header loop of _parse_binary_pbm: advance the `idx` cursor line
      by line until two header lines are accepted */
  method ReadHeader(fileContent: seq<Byte>) returns (r: Result<(seq<string>, nat)>)
    ensures r == ScanHeader(fileContent, 0, [])
  {
    var headerLines: seq<string> := [];
    var idx := 0;
    while |headerLines| < 2
      invariant idx <= |fileContent| && |headerLines| <= 2
      invariant |headerLines| < 2 ==> ScanHeader(fileContent, idx, headerLines) == ScanHeader(fileContent, 0, [])
      invariant |headerLines| == 2 ==> ScanHeader(fileContent, 0, []) == Ok((headerLines, idx))
      decreases |fileContent| - idx
    {
      var step := ReadHeaderLine(fileContent, idx);
      match step {
        case Missing =>
          return Err(NoNewline);
        case Undecodable =>
          return Err(NotAscii);
        case Skipped(next) =>
          idx := next;
        case Accepted(text, next) =>
          idx := next;
          headerLines := headerLines + [text];
      }
    }
    r := Ok((headerLines, idx));
  }

  /** The row loop of _parse_binary_pbm */
  method UnpackRows(binaryData: seq<Byte>, width: int, height: int) returns (pixels2d: seq<seq<int>>)
    ensures pixels2d == RowsOf(binaryData, width, height)
  {
    pixels2d := [];
    var rowBytes := (width + 7) / 8;
    for y := 0 to (if height > 0 then height else 0)
      invariant pixels2d == RowsOf(binaryData, width, y)
    {
      var rowStart := y * rowBytes;
      var rowEnd := rowStart + rowBytes;
      var rowBits := UnpackRow(PySlice(binaryData, rowStart, rowEnd), width);
      assert rowBits == RowOf(binaryData, width, y);
      RowsOfNext(binaryData, width, y);
      pixels2d := pixels2d + [rowBits];
    }
  }

  /** One more row of the loop is one more row of the result */
  lemma RowsOfNext(body: seq<Byte>, width: int, y: nat)
    ensures RowsOf(body, width, y + 1) == RowsOf(body, width, y) + [RowOf(body, width, y)]
  {
    var a, c := RowsOf(body, width, y + 1), RowsOf(body, width, y);
    var b := c + [RowOf(body, width, y)];
    assert |a| == |b|;
    forall k | 0 <= k < y + 1 ensures a[k] == b[k] {
      if k < y {
        assert b[k] == c[k];
      }
    }
  }

  /** _parse_binary_pbm */
  method ParseRawPbm(fileContent: seq<Byte>) returns (r: Result<RawImage>)
    ensures r == RawPbm(fileContent)
  {
    var header := ReadHeader(fileContent);
    if header.Err? {
      return Err(header.error);
    }
    var (headerLines, idx) := header.value;
    if headerLines[0] != "P4" {
      return Err(BadMagic);
    }
    var dims := Dimensions(headerLines[1]);
    if dims.Err? {
      return Err(dims.error);
    }
    var (width, height) := dims.value;
    var pixels2d := UnpackRows(fileContent[idx..], width, height);
    r := Ok(RawImage(width, height, pixels2d));
  }

  // ---------------------------------------------------------------------
  // parse_pbm_file: text first, then binary, failures become NoResult
  // ---------------------------------------------------------------------

  /** The binary attempt, made after the text attempt raised OSError or
      ValueError; any failure in it ends as (None, None, None) */
  function RawAttempt(raw: RawRead): Decoded {
    match raw
    case RawReadFailed(_) => NoResult
    case Bytes(data) =>
      match RawPbm(data)
      case Ok(image) => Raw(image)
      case Err(_) => NoResult
  }

  /** The specification of parse_pbm_file over the two read outcomes */
  function Decode(text: TextRead, raw: RawRead): Decoded {
    match text
    case TextReadFailed(cls) =>
      if cls == OtherErrorClass then NoResult else RawAttempt(raw)
    case Lines(lines) =>
      match PlainPbm(lines)
      case Ok(image) => Plain(image)
      case Err(_) => RawAttempt(raw)  // every P1 failure is a ValueError
  }

  /** The file a path names: what a text read and a binary read of it give */
  datatype Asset = Asset(text: TextRead, raw: RawRead)

  /** The files the badge can open; opening any other path raises OSError */
  type AssetStore = map<string, Asset>

  function OpenAsset(store: AssetStore, path: string): Asset {
    if path in store then store[path]
    else Asset(TextReadFailed(OSErrorClass), RawReadFailed(OSErrorClass))
  }

  /** The try/except structure of parse_pbm_file over one file */
  method DecodeAsset(asset: Asset) returns (d: Decoded)
    ensures d == Decode(asset.text, asset.raw)
  {
    if asset.text.Lines? {
      var plain := ParsePlainPbm(asset.text.lines);
      if plain.Ok? {
        return Plain(plain.value);
      }
    } else if asset.text.textError == OtherErrorClass {
      return NoResult;
    }
    if asset.raw.RawReadFailed? {
      return NoResult;
    }
    var raw := ParseRawPbm(asset.raw.data);
    d := if raw.Ok? then Raw(raw.value) else NoResult;
  }

  /** The path PBMParser.parse_pbm_file opens */
  function HelperAssetPath(appName: string, filename: string): string {
    "/apps/" + appName + "/" + filename
  }

  /** The path main.py's App.parse_pbm_file opens */
  function MainAssetPath(filename: string): string {
    "/apps/Emoji_App/assets/" + filename
  }

  /** PBMParser.parse_pbm_file */
  method ParsePbmFile(store: AssetStore, appName: string, filename: string) returns (d: Decoded)
    ensures var asset := OpenAsset(store, HelperAssetPath(appName, filename));
            d == Decode(asset.text, asset.raw)
  {
    d := DecodeAsset(OpenAsset(store, HelperAssetPath(appName, filename)));
  }

  /** App.parse_pbm_file of main.py: the same readers, another path */
  method MainParsePbmFile(store: AssetStore, filename: string) returns (d: Decoded)
    ensures var asset := OpenAsset(store, MainAssetPath(filename));
            d == Decode(asset.text, asset.raw)
  {
    d := DecodeAsset(OpenAsset(store, MainAssetPath(filename)));
  }
}
