/**
  The writer side of raw PBM, as the reader expects it: a bit grid packed
  eight pixels to a byte, most significant bit first, every row padded to
  a whole number of bytes, behind the header "P4\n<W> <H>\n".  The round
  trip through the P4 reader gives back the grid.
 */
module PbmEncoding {
  import opened PyBuiltins
  import opened PbmParser
  import opened PbmProperties

  predicate IsBit(v: int) {
    0 <= v <= 1
  }

  /** A row of `width` pixels, each 0 or 1 */
  predicate IsBitRow(row: seq<int>, width: nat) {
    |row| == width && forall x :: 0 <= x < |row| ==> IsBit(row[x])
  }

  /** `height` rows of `width` pixels */
  predicate IsGrid(grid: seq<seq<int>>, width: nat, height: nat) {
    |grid| == height && forall y :: 0 <= y < |grid| ==> IsBitRow(grid[y], width)
  }

  /** Eight pixels as one byte, the first in the most significant bit */
  function PackByte(b: seq<int>): (v: Byte)
    requires |b| == 8 && forall k :: 0 <= k < 8 ==> IsBit(b[k])
  {
    assert IsBit(b[0]) && IsBit(b[1]) && IsBit(b[2]) && IsBit(b[3]);
    assert IsBit(b[4]) && IsBit(b[5]) && IsBit(b[6]) && IsBit(b[7]);
    (128 * b[0] + 64 * b[1] + 32 * b[2] + 16 * b[3] + 8 * b[4] + 4 * b[5] + 2 * b[6] + b[7]) as Byte
  }

  /** Unpacking a packed byte gives back its eight pixels */
  lemma UnpackPackByte(b: seq<int>)
    requires |b| == 8 && forall k :: 0 <= k < 8 ==> IsBit(b[k])
    ensures ByteBits(PackByte(b)) == b
  {
    forall k | 0 <= k < 8 ensures ByteBits(PackByte(b))[k] == b[k] {
      PackedBit(b, k);
    }
  }

  /** Bit k of a packed byte, counted from the most significant, is pixel k */
  lemma PackedBit(b: seq<int>, k: nat)
    requires |b| == 8 && forall k :: 0 <= k < 8 ==> IsBit(b[k])
    requires k < 8
    ensures ByteBits(PackByte(b))[k] == b[k]
  {
    var b0, b1, b2, b3, b4, b5, b6, b7 := b[0], b[1], b[2], b[3], b[4], b[5], b[6], b[7];
    assert IsBit(b0) && IsBit(b1) && IsBit(b2) && IsBit(b3);
    assert IsBit(b4) && IsBit(b5) && IsBit(b6) && IsBit(b7);
    if k == 0 {
      BitAt(b, 0, 0, 64 * b1 + 32 * b2 + 16 * b3 + 8 * b4 + 4 * b5 + 2 * b6 + b7);
    } else if k == 1 {
      BitAt(b, 1, b0, 32 * b2 + 16 * b3 + 8 * b4 + 4 * b5 + 2 * b6 + b7);
    } else if k == 2 {
      BitAt(b, 2, 2 * b0 + b1, 16 * b3 + 8 * b4 + 4 * b5 + 2 * b6 + b7);
    } else if k == 3 {
      BitAt(b, 3, 4 * b0 + 2 * b1 + b2, 8 * b4 + 4 * b5 + 2 * b6 + b7);
    } else if k == 4 {
      BitAt(b, 4, 8 * b0 + 4 * b1 + 2 * b2 + b3, 4 * b5 + 2 * b6 + b7);
    } else if k == 5 {
      BitAt(b, 5, 16 * b0 + 8 * b1 + 4 * b2 + 2 * b3 + b4, 2 * b6 + b7);
    } else if k == 6 {
      BitAt(b, 6, 32 * b0 + 16 * b1 + 8 * b2 + 4 * b3 + 2 * b4 + b5, b7);
    } else {
      BitAt(b, 7, 64 * b0 + 32 * b1 + 16 * b2 + 8 * b3 + 4 * b4 + 2 * b5 + b6, 0);
    }
  }

  /** Bit k is pixel k once the packed value is split around pixel k */
  lemma BitAt(b: seq<int>, k: nat, hi: int, lo: int)
    requires |b| == 8 && forall k :: 0 <= k < 8 ==> IsBit(b[k])
    requires k < 8 && hi >= 0 && 0 <= lo < BitWeight(k)
    requires PackByte(b) as int == 2 * BitWeight(k) * hi + BitWeight(k) * b[k] + lo
    ensures ByteBits(PackByte(b))[k] == b[k]
  {
    DivideOut(PackByte(b) as int, BitWeight(k), hi, b[k], lo);
  }

  /** The weight of bit k of a byte, counted from the most significant */
  function BitWeight(k: nat): (w: int)
    requires k < 8
    ensures w > 0
  {
    [128, 64, 32, 16, 8, 4, 2, 1][k]
  }

  /** (2p * hi + p * b + lo) / p % 2 == b when lo < p */
  lemma DivideOut(v: int, p: int, hi: int, b: int, lo: int)
    requires p > 0 && hi >= 0 && 0 <= lo < p && IsBit(b)
    requires v == 2 * p * hi + p * b + lo
    ensures v / p % 2 == b
  {
    var m := 2 * hi + b;
    assert v == p * m + lo;
    assert v / p == m by {
      DivUnique(v, p, m, lo);
    }
  }

  lemma DivUnique(v: int, p: int, q: int, r: int)
    requires p > 0 && 0 <= r < p && v == p * q + r
    ensures v / p == q
  {
    var q' := v / p;
    if q' < q {
      MulMonotone(q' + 1, q, p);
      assert false;
    } else if q' > q {
      MulMonotone(q + 1, q', p);
      assert false;
    }
  }

  /** ceil(width / 8) bytes hold a row and waste fewer than eight bits */
  lemma RowBytesFit(width: nat)
    ensures width <= 8 * RowBytes(width) < width + 8
  {
  }

  /** A row padded with 0 to whole bytes */
  function PaddedRow(row: seq<int>, width: nat): (p: seq<int>)
    requires IsBitRow(row, width)
    ensures |p| == 8 * RowBytes(width) && p[..width] == row
    ensures forall i :: 0 <= i < |p| ==> IsBit(p[i])
  {
    RowBytesFit(width);
    row + Zeros(8 * RowBytes(width) - width)
  }

  /** The bytes of one row */
  function PackRow(row: seq<int>, width: nat): (bytes: seq<Byte>)
    requires IsBitRow(row, width)
    ensures |bytes| == RowBytes(width)
  {
    var p := PaddedRow(row, width);
    seq(RowBytes(width), j requires 0 <= j < RowBytes(width) => PackByte(p[8 * j..8 * j + 8]))
  }

  /** The bits of a packed row are the padded row: the row itself, then
      the pad bits */
  lemma UnpackPackRow(row: seq<int>, width: nat)
    requires IsBitRow(row, width)
    ensures Bits(PackRow(row, width)) == PaddedRow(row, width)
    ensures Take(Bits(PackRow(row, width)), width) == row
  {
    var p := PaddedRow(row, width);
    forall i | 0 <= i < |p| ensures Bits(PackRow(row, width))[i] == p[i] {
      PackedRowBit(row, width, i);
    }
  }

  /** Bit i of a packed row is bit i of the padded row */
  lemma PackedRowBit(row: seq<int>, width: nat, i: nat)
    requires IsBitRow(row, width) && i < 8 * RowBytes(width)
    ensures Bits(PackRow(row, width))[i] == PaddedRow(row, width)[i]
  {
    var bytes := PackRow(row, width);
    var p := PaddedRow(row, width);
    var j, k := i / 8, i % 8;
    assert 8 * j + k == i && 0 <= k < 8;
    var chunk := p[8 * j..8 * j + 8];
    var bits := ByteBits(bytes[j]);
    assert Bits(bytes)[i] == bits[k] by {
      BitsAt(bytes, i);
    }
    assert bits == chunk by {
      assert bytes[j] == PackByte(chunk);
      UnpackPackByte(chunk);
    }
    assert chunk[k] == p[i];
  }

  /** The pixel data: the packed rows one after another */
  function Body(grid: seq<seq<int>>, width: nat): (body: seq<Byte>)
    requires forall y :: 0 <= y < |grid| ==> IsBitRow(grid[y], width)
    ensures |body| == |grid| * RowBytes(width)
  {
    if grid == [] then []
    else
      var n := |grid|;
      assert (n - 1) * RowBytes(width) + RowBytes(width) == n * RowBytes(width);
      Body(grid[..n - 1], width) + PackRow(grid[n - 1], width)
  }

  /** Row y of the grid sits at bytes [y * rb, (y + 1) * rb) of the body */
  lemma {:induction false} BodyRow(grid: seq<seq<int>>, width: nat, y: nat)
    requires forall k :: 0 <= k < |grid| ==> IsBitRow(grid[k], width)
    requires y < |grid|
    ensures var rb := RowBytes(width);
      y * rb + rb <= |Body(grid, width)| && Body(grid, width)[y * rb..y * rb + rb] == PackRow(grid[y], width)
  {
    var rb := RowBytes(width);
    var n := |grid|;
    var start := y * rb;
    assert 0 <= start by { MulMonotone(0, y, rb); }
    var init, last := Body(grid[..n - 1], width), PackRow(grid[n - 1], width);
    assert Body(grid, width) == init + last;
    assert |init| == (n - 1) * rb;
    if y < n - 1 {
      assert grid[..n - 1][y] == grid[y];
      assert start + rb <= |init| && init[start..start + rb] == PackRow(grid[y], width) by {
        BodyRow(grid[..n - 1], width, y);
        MulMonotone(y + 1, n - 1, rb);
      }
      SliceOfFront(init, last, start, start + rb);
    } else {
      assert start == |init|;
      SliceOfBack(init, last);
    }
  }

  lemma SliceOfFront<T>(a: seq<T>, b: seq<T>, lo: int, hi: int)
    requires 0 <= lo <= hi <= |a|
    ensures (a + b)[lo..hi] == a[lo..hi]
  {
  }

  lemma SliceOfBack<T>(a: seq<T>, b: seq<T>)
    ensures (a + b)[|a|..|a| + |b|] == b
  {
  }

  /** The dimension line "<W> <H>" */
  function DimensionLine(width: nat, height: nat): (s: string)
    ensures IsAsciiText(s) && s != []
  {
    var dw, dh := Decimal(width), Decimal(height);
    var s := dw + [' '] + dh;
    assert forall i :: 0 <= i < |s| ==> s[i] == ' ' || IsDigit(s[i]);
    s
  }

  /** A raw PBM file for the grid: the header, then the packed rows */
  function EncodeRaw(width: nat, height: nat, grid: seq<seq<int>>): (data: seq<Byte>)
    requires IsGrid(grid, width, height)
  {
    Header(width, height) + Body(grid, width)
  }

  /** The header "P4", LF, "<W> <H>", LF */
  function Header(width: nat, height: nat): (header: seq<Byte>) {
    EncodeAscii("P4") + [LF] + EncodeAscii(DimensionLine(width, height)) + [LF]
  }

  /** Bytes the header loop accepts as a line as they are: ASCII, free of
      linefeeds, not starting with '#', no whitespace at either end */
  predicate IsHeaderBytes(e: seq<Byte>) {
    && e != [] && e[0] != HASH && !IsByteSpace(e[0]) && !IsByteSpace(e[|e| - 1])
    && forall i :: 0 <= i < |e| ==> e[i] < 128 && e[i] != LF
  }

  /** A header line written as its bytes and a linefeed is accepted as the
      text those bytes spell, and the cursor moves past the linefeed */
  lemma AcceptHeaderLine(data: seq<Byte>, idx: nat, eol: nat, next: nat, e: seq<Byte>, t: string)
    requires IsHeaderBytes(e) && DecodeAscii(e) == Some(t)
    requires idx <= eol && next == eol + 1 && next <= |data| && data[eol] == LF
    requires data[idx..eol] == e
    ensures NextHeaderLine(data, idx) == Accepted(t, next)
  {
    forall i | idx <= i < eol ensures data[i] != LF {
      assert data[i] == e[i - idx];
    }
    LineAt(data, idx, eol, next);
    StripBytesUnchanged(e);
  }

  /** The line the header loop judges is the slice up to the linefeed */
  lemma LineAt(data: seq<Byte>, idx: nat, eol: nat, next: nat)
    requires idx <= eol < |data| && next == eol + 1 && Find(data, LF, idx) == eol
    ensures NextHeaderLine(data, idx) == JudgeHeaderLine(data[idx..eol], next)
  {
  }

  /** The header loop, on accepting its first line, goes on after it */
  lemma AcceptFirst(data: seq<Byte>, idx: nat, t: string, next: nat)
    requires idx <= |data| && NextHeaderLine(data, idx) == Accepted(t, next)
    ensures ScanHeader(data, idx, []) == ScanHeader(data, next, [t])
  {
    assert [] + [t] == [t];
  }

  /** The header loop, on accepting its second line, ends there */
  lemma AcceptSecond(data: seq<Byte>, idx: nat, found: seq<string>, t: string, next: nat)
    requires idx <= |data| && |found| == 1 && NextHeaderLine(data, idx) == Accepted(t, next)
    ensures ScanHeader(data, idx, found) == Ok((found + [t], next))
  {
  }

  /** P4 round trip: the reader gives back the width, the height and the
      grid that were written */
  lemma RawRoundTrip(width: nat, height: nat, grid: seq<seq<int>>)
    requires IsGrid(grid, width, height)
    ensures RawPbm(EncodeRaw(width, height, grid)) == Ok(RawImage(width, height, grid))
  {
    var header, body := Header(width, height), Body(grid, width);
    var data := header + body;
    var dims := DimensionLine(width, height);
    assert ScanHeader(data, 0, []) == Ok((["P4", dims], |dims| + 4)) by {
      HeaderLines(width, height, body);
      TwoLineHeader(data, EncodeAscii("P4"), "P4", EncodeAscii(dims), dims, 3, |dims| + 4);
    }
    HeaderLayout(width, height, body);
    DimensionsOfDecimals(width, height);
    assert data[|header|..] == body;
    RowsRoundTrip(width, height, grid);
  }

  /** The header holds "P4" and the dimension line, each a header line as
      it is, each followed by a linefeed */
  lemma HeaderLines(width: nat, height: nat, body: seq<Byte>)
    ensures var dims := DimensionLine(width, height);
      TwoLines(Header(width, height) + body, EncodeAscii("P4"), "P4", EncodeAscii(dims), dims, 3, |dims| + 4)
  {
    MagicBytes();
    DimensionBytes(width, height);
    HeaderLayout(width, height, body);
  }

  /** The data starts with the header line `e1` spelling `t1`, a linefeed,
      the header line `e2` spelling `t2` and a linefeed, which ends at
      `end`; the second line starts at `n` */
  predicate TwoLines(data: seq<Byte>, e1: seq<Byte>, t1: string, e2: seq<Byte>, t2: string, n: nat, end: nat) {
    && IsHeaderBytes(e1) && DecodeAscii(e1) == Some(t1)
    && IsHeaderBytes(e2) && DecodeAscii(e2) == Some(t2)
    && n == |e1| + 1 && end == n + |e2| + 1 && end <= |data|
    && data[0..|e1|] == e1 && data[|e1|] == LF && data[n..n + |e2|] == e2 && data[n + |e2|] == LF
  }

  /** Two header lines, each followed by a linefeed, at the start of the
      data: the header loop accepts both and stops after the second
      linefeed */
  lemma TwoLineHeader(data: seq<Byte>, e1: seq<Byte>, t1: string, e2: seq<Byte>, t2: string, n: nat, end: nat)
    requires TwoLines(data, e1, t1, e2, t2, n, end)
    ensures ScanHeader(data, 0, []) == Ok(([t1, t2], end))
  {
    LineAfter(data, 0, e1, t1, n);
    LineAfter(data, n, e2, t2, end);
    ScanAccepted(data, t1, t2, n, end);
  }

  /** The header line `e` spelling `t` at `idx`, followed by a linefeed,
      is accepted as `t` */
  lemma LineAfter(data: seq<Byte>, idx: nat, e: seq<Byte>, t: string, next: nat)
    requires IsHeaderBytes(e) && DecodeAscii(e) == Some(t)
    requires next == idx + |e| + 1 && next <= |data| && data[idx..idx + |e|] == e && data[idx + |e|] == LF
    ensures NextHeaderLine(data, idx) == Accepted(t, next)
  {
    var eol := idx + |e|;
    AcceptHeaderLine(data, idx, eol, next, e, t);
  }

  /** Where the header lines and their linefeeds lie */
  lemma HeaderLayout(width: nat, height: nat, body: seq<Byte>)
    ensures var dims := DimensionLine(width, height);
      var data := Header(width, height) + body;
      && |Header(width, height)| == 4 + |dims| && |data| == 4 + |dims| + |body|
      && data[0..2] == EncodeAscii("P4") && data[2] == LF
      && data[3..3 + |dims|] == EncodeAscii(dims) && data[3 + |dims|] == LF
  {
    var dims := DimensionLine(width, height);
    var magic, dimBytes := EncodeAscii("P4"), EncodeAscii(dims);
    var data := Header(width, height) + body;
    assert data == magic + [LF] + dimBytes + [LF] + body;
  }

  /** Two accepted lines in a row make the header */
  lemma ScanAccepted(data: seq<Byte>, t1: string, t2: string, n: nat, end: nat)
    requires n <= |data|
    requires NextHeaderLine(data, 0) == Accepted(t1, n)
    requires NextHeaderLine(data, n) == Accepted(t2, end)
    ensures ScanHeader(data, 0, []) == Ok(([t1, t2], end))
  {
    AcceptFirst(data, 0, t1, n);
    SecondOfTwo(data, n, t1, t2, end);
  }

  /** The second accepted line completes the header [t1, t2] */
  lemma SecondOfTwo(data: seq<Byte>, idx: nat, t1: string, t2: string, next: nat)
    requires idx <= |data| && NextHeaderLine(data, idx) == Accepted(t2, next)
    ensures ScanHeader(data, idx, [t1]) == Ok(([t1, t2], next))
  {
    var found := [t1];
    AcceptSecond(data, idx, found, t2, next);
    assert found + [t2] == [t1, t2];
  }

  /** "P4" is a header line as it is */
  lemma MagicBytes()
    ensures IsHeaderBytes(EncodeAscii("P4")) && DecodeAscii(EncodeAscii("P4")) == Some("P4")
  {
    var e := EncodeAscii("P4");
    assert e == [80, 52];
    DecodeEncodeAscii("P4");
  }

  /** The dimension line is a header line as it is */
  lemma DimensionBytes(width: nat, height: nat)
    ensures var dims := DimensionLine(width, height);
      IsHeaderBytes(EncodeAscii(dims)) && DecodeAscii(EncodeAscii(dims)) == Some(dims)
  {
    var dw, dh := Decimal(width), Decimal(height);
    var s := DimensionLine(width, height);
    var e := EncodeAscii(s);
    assert s == dw + [' '] + dh;
    assert IsDigit(s[0]) && IsDigit(s[|s| - 1]);
    assert forall i :: 0 <= i < |s| ==> s[i] == ' ' || IsDigit(s[i]);
    assert e[0] as int == s[0] as int && e[|e| - 1] as int == s[|s| - 1] as int;
    DecodeEncodeAscii(s);
  }

  /** The rows the reader cuts from the body are the grid's rows */
  lemma RowsRoundTrip(width: nat, height: nat, grid: seq<seq<int>>)
    requires IsGrid(grid, width, height)
    ensures RowsOf(Body(grid, width), width, height) == grid
  {
    forall y | 0 <= y < height ensures RowOf(Body(grid, width), width, y) == grid[y] {
      RowRoundTrip(grid, width, y);
    }
  }

  /** Row y cut from the body unpacks to row y of the grid */
  lemma RowRoundTrip(grid: seq<seq<int>>, width: nat, y: nat)
    requires forall k :: 0 <= k < |grid| ==> IsBitRow(grid[k], width)
    requires y < |grid|
    ensures RowOf(Body(grid, width), width, y) == grid[y]
  {
    var body := Body(grid, width);
    var rb := RowBytes(width);
    BodyRow(grid, width, y);
    var start := y * rb;
    assert 0 <= start by { MulMonotone(0, y, rb); }
    assert Clamp(start, |body|) == start && Clamp(start + rb, |body|) == start + rb;
    assert PySlice(body, start, start + rb) == PackRow(grid[y], width);
    UnpackPackRow(grid[y], width);
  }

  /** The dimension line must end with a linefeed: the same file cut off
      right after "<W> <H>" is refused */
  lemma UnterminatedDimensionLine(width: nat, height: nat)
    ensures RawPbm(EncodeAscii("P4") + [LF] + EncodeAscii(DimensionLine(width, height))) == Err(NoNewline)
  {
    var data := EncodeAscii("P4") + [LF] + EncodeAscii(DimensionLine(width, height));
    TruncatedLayout(width, height);
    MagicBytes();
    LineAfter(data, 0, EncodeAscii("P4"), "P4", 3);
    NoSecondLine(data, "P4", 3);
  }

  /** After "P4" and its linefeed the truncated file holds no linefeed */
  lemma TruncatedLayout(width: nat, height: nat)
    ensures var data := EncodeAscii("P4") + [LF] + EncodeAscii(DimensionLine(width, height));
      && 3 <= |data| && data[0..2] == EncodeAscii("P4") && data[2] == LF
      && forall i :: 3 <= i < |data| ==> data[i] != LF
  {
    var dims := DimensionLine(width, height);
    var dimBytes := EncodeAscii(dims);
    var data := EncodeAscii("P4") + [LF] + dimBytes;
    DimensionBytes(width, height);
    forall i | 3 <= i < |data| ensures data[i] != LF {
      assert data[i] == dimBytes[i - 3];
    }
  }

  /** One accepted line and no linefeed after it: the header loop runs out
      of lines */
  lemma NoSecondLine(data: seq<Byte>, t: string, next: nat)
    requires next <= |data| && NextHeaderLine(data, 0) == Accepted(t, next)
    requires forall i :: next <= i < |data| ==> data[i] != LF
    ensures ScanHeader(data, 0, []) == Err(NoNewline)
  {
    AcceptFirst(data, 0, t, next);
    NoLinefeedNoHeader(data, next, [t]);
  }
}
