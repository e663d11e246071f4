/**
 * The pixel data of a Radiance picture in the new run-length format: the 0x0202 marker
 * that must start the data, the scanline loop, and the whole decoder from bytes to an
 * image of three values per pixel, row by row.
 */
module HdrDecoder {
  import opened Results
  import opened HdrBytes
  import opened HdrHeader
  import opened HdrRle
  import opened HdrPixels

  /** The two bytes 2, 2 that start the pixel data and every scanline. */
  const ScanlineMarker := 0x0202

  /** A decoded picture: the size the header gave and three values per pixel, row by row. */
  datatype Image = Image(width: int, height: int, data: seq<real>)

  /** The errors a scanline can raise. */
  predicate IsScanlineError(e: DecodeError) {
    e == OutOfRange || e == IncorrectScanlineHash || e == ScanlineWidthMismatch
  }

  /** The errors reading the pixel data can raise. */
  predicate IsDataError(e: DecodeError) {
    e == ObsoleteVersion || IsScanlineError(e)
  }

  /**
   * Checks the four bytes that start a scanline, the marker and then the picture width,
   * and returns the offset of its first run.
   */
  function ScanlineStart(buf: seq<byte>, off: nat, width: int): (r: Result<nat, DecodeError>)
    requires off <= |buf|
    ensures r.Ok? ==> r.value == off + 4
    ensures r.Ok? <==> && off + 4 <= |buf|
                       && BigEndian16(buf, off) == ScanlineMarker && BigEndian16(buf, off + 2) == width
    ensures r == Err(IncorrectScanlineHash) <==> off + 2 <= |buf| && BigEndian16(buf, off) != ScanlineMarker
    ensures r == Err(ScanlineWidthMismatch) <==> && off + 4 <= |buf| && BigEndian16(buf, off) == ScanlineMarker
                                                 && BigEndian16(buf, off + 2) != width
    ensures r.Err? ==> IsScanlineError(r.error)
  {
    if off + 2 > |buf| then Err(OutOfRange)
    else if BigEndian16(buf, off) != ScanlineMarker then Err(IncorrectScanlineHash)
    else if off + 4 > |buf| then Err(OutOfRange)
    else if BigEndian16(buf, off + 2) != width then Err(ScanlineWidthMismatch)
    else Ok(off + 4)
  }

  /**
   * One scanline of `w` pixels: its start, then runs until `4 * w` component bytes exist,
   * then the pixels; returns their values and the offset after the last run.
   */
  function DecodeRow(buf: seq<byte>, off: nat, w: nat, h: Header): (r: Result<(seq<real>, nat), DecodeError>)
    requires off <= |buf|
    ensures r.Ok? ==> |r.value.0| == 3 * w && off + 4 <= r.value.1 <= |buf|
    ensures r.Err? ==> IsScanlineError(r.error)
  {
    var start :- ScanlineStart(buf, off, w);
    var comps :- DecodeRuns(buf, start, 4 * w, []);
    Ok((RowValues(comps.0, w, w, h), comps.1))
  }

  /** The number of values in `y` rows of `w` pixels, which is where row `y` starts. */
  function RowOffset(w: nat, y: nat): nat {
    if y == 0 then 0 else 3 * w + RowOffset(w, y - 1)
  }

  lemma MulSucc(a: nat, n: nat)
    requires n > 0
    ensures a * n == a + a * (n - 1)
  {
  }

  /** `y` rows of `w` pixels hold `3 * w * y` values. */
  lemma {:induction false} RowOffsetProduct(w: nat, y: nat)
    ensures RowOffset(w, y) == 3 * w * y
  {
    if y > 0 {
      RowOffsetProduct(w, y - 1);
      MulSucc(3 * w, y);
    }
  }

  /** A row before row `n` ends no later than row `n` starts. */
  lemma {:induction false} RowOffsetBelow(w: nat, y: nat, n: nat)
    requires y < n
    ensures RowOffset(w, y) + 3 * w <= RowOffset(w, n)
    decreases n
  {
    if y < n - 1 {
      RowOffsetBelow(w, y, n - 1);
    }
  }

  /** A scanline reader: the values of the scanline at an offset and the offset after it. */
  type RowReader = nat -> Result<(seq<real>, nat), DecodeError>

  /** The scanline decoder at every offset; past the end of the buffer nothing can be read. */
  function RowAt(buf: seq<byte>, w: nat, h: Header): RowReader {
    (o: nat) => if o <= |buf| then DecodeRow(buf, o, w, h) else Err(OutOfRange)
  }

  /** `n` scanlines read one after another by `row`, their values concatenated in order. */
  function RowLoop(row: RowReader, off: nat, n: nat): Result<(seq<real>, nat), DecodeError>
    decreases n
  {
    if n == 0 then Ok(([], off))
    else
      var r :- row(off);
      var more :- RowLoop(row, r.1, n - 1);
      Ok((r.0 + more.0, more.1))
  }

  /** Each scanline `row` reads has `w` pixels and ends after its start, within `bound`. */
  ghost predicate ReadsRows(row: RowReader, w: nat, bound: nat) {
    forall o: nat ::
      && (row(o).Ok? ==> |row(o).value.0| == 3 * w && o <= row(o).value.1 <= bound)
      && (row(o).Err? ==> IsScanlineError(row(o).error))
  }

  lemma RowAtReads(buf: seq<byte>, w: nat, h: Header)
    ensures ReadsRows(RowAt(buf, w, h), w, |buf|)
  {
  }

  lemma {:induction false} RowLoopSpec(row: RowReader, off: nat, n: nat, w: nat, bound: nat)
    requires ReadsRows(row, w, bound) && off <= bound
    ensures var r := RowLoop(row, off, n);
            && (r.Ok? ==> |r.value.0| == RowOffset(w, n) && off <= r.value.1 <= bound)
            && (r.Err? ==> IsScanlineError(r.error))
    decreases n
  {
    if n > 0 && row(off).Ok? {
      RowLoopSpec(row, row(off).value.1, n - 1, w, bound);
    }
  }

  /** `rows` scanlines one after another, their values concatenated in order. */
  function DecodeRows(buf: seq<byte>, off: nat, w: nat, rows: nat, h: Header)
    : (r: Result<(seq<real>, nat), DecodeError>)
    requires off <= |buf|
    ensures r.Ok? ==> |r.value.0| == RowOffset(w, rows) && off <= r.value.1 <= |buf|
    ensures r.Err? ==> IsScanlineError(r.error)
  {
    RowAtReads(buf, w, h);
    RowLoopSpec(RowAt(buf, w, h), off, rows, w, |buf|);
    RowLoop(RowAt(buf, w, h), off, rows)
  }

  /** `n` zeros, as a fresh Float32Array holds. */
  function Zeros(n: nat): (z: seq<real>)
    ensures |z| == n && forall i | 0 <= i < n :: z[i] == 0.0
  {
    seq(n, i => 0.0)
  }

  /** With a positive height, a picture whose pixel count is not negative has a width that is not. */
  lemma NonNegativeWidth(width: int, height: int)
    requires height > 0 && width * height >= 0
    ensures width >= 0
  {
  }

  lemma ProductOfNats(a: nat, b: nat)
    ensures a * b >= 0
  {
  }

  lemma TripleProduct(width: int, height: int)
    ensures 3 * width * height == 3 * (width * height)
  {
  }

  /**
   * The largest length a typed array can be given, 2^53 - 1: the ToIndex conversion of
   * ECMA-262 (section 7.1.22) rejects any length above it, and any negative one.
   */
  const MaxArrayLength := 0x1F_FFFF_FFFF_FFFF

  /** A length `new Float32Array` accepts. */
  predicate IsArrayLength(len: int) {
    0 <= len <= MaxArrayLength
  }

  /**
   * The output array holds `3 * width * height` values, a count `new Float32Array` must
   * accept; the rows fill it when the height is positive, and it stays zero otherwise.
   */
  function ParseNewRle(buf: seq<byte>, off: nat, size: Size, h: Header): (r: Result<seq<real>, DecodeError>)
    requires off <= |buf|
    ensures !IsArrayLength(3 * (size.width * size.height)) ==> r == Err(OutOfRange)
    ensures r.Ok? ==> size.width * size.height >= 0 && |r.value| == 3 * (size.width * size.height)
    ensures r.Ok? ==> IsArrayLength(|r.value|)
    ensures r.Err? ==> IsScanlineError(r.error)
  {
    var n := size.width * size.height;
    if !IsArrayLength(3 * n) then Err(OutOfRange)
    else if size.height <= 0 then Ok(Zeros(3 * n))
    else
      NonNegativeWidth(size.width, size.height);
      var rows :- DecodeRows(buf, off, size.width, size.height, h);
      RowOffsetProduct(size.width, size.height);
      TripleProduct(size.width, size.height);
      Ok(rows.0)
  }

  /** The data must start with the marker of the new format; the first scanline starts there too. */
  function ParseData(buf: seq<byte>, off: nat, size: Size, h: Header): (r: Result<seq<real>, DecodeError>)
    requires off <= |buf|
    ensures r.Ok? ==> size.width * size.height >= 0 && |r.value| == 3 * (size.width * size.height)
    ensures r.Ok? ==> IsArrayLength(|r.value|)
    ensures r.Err? ==> IsDataError(r.error)
  {
    if off + 2 > |buf| then Err(OutOfRange)
    else if BigEndian16(buf, off) != ScanlineMarker then Err(ObsoleteVersion)
    else ParseNewRle(buf, off, size, h)
  }

  /** Decodes a whole picture: the header, then the pixel data right after it. */
  function Decode(buf: seq<byte>, conv: Conversions): (r: Result<Image, DecodeError>)
    ensures r.Ok? ==> r.value.width * r.value.height >= 0
    ensures r.Ok? ==> |r.value.data| == 3 * (r.value.width * r.value.height)
    ensures r.Err? ==> IsHeaderError(r.error) || IsDataError(r.error)
  {
    var header :- ParseHeader(buf, conv);
    var data :- ParseData(buf, header.2, header.1, header.0);
    Ok(Image(header.1.width, header.1.height, data))
  }

  // ----- Pictures the decoder reads back -----

  /** One scanline of a `w`-pixel picture: the marker, the width, then its runs. */
  function EncodeScanline(w: nat, runs: seq<Run>): (bs: seq<byte>)
    requires w < 0x1_0000
  {
    Uint16Bytes(ScanlineMarker) + Uint16Bytes(w) + EncodeRuns(runs)
  }

  /** Scanlines one after another. */
  function EncodeScanlines(w: nat, rows: seq<seq<Run>>): (bs: seq<byte>)
    requires w < 0x1_0000
  {
    if |rows| == 0 then [] else EncodeScanline(w, rows[0]) + EncodeScanlines(w, rows[1..])
  }

  /** The encoded length of scanlines. */
  function ScanlinesLength(rows: seq<seq<Run>>): nat {
    if |rows| == 0 then 0 else 4 + RunsLength(rows[0]) + ScanlinesLength(rows[1..])
  }

  /** Every scanline's runs fill its `4 * w` components exactly. */
  predicate RowsFill(rows: seq<seq<Run>>, w: nat)
    decreases |rows|
  {
    |rows| == 0 || (FillsExactly(rows[0], 0, 4 * w) && RowsFill(rows[1..], w))
  }

  /** The components each scanline's runs expand to. */
  function Components(rows: seq<seq<Run>>): (cs: seq<seq<byte>>)
    ensures |cs| == |rows|
  {
    if |rows| == 0 then [] else [ExpandAll(rows[0])] + Components(rows[1..])
  }

  lemma ComponentsCons(rows: seq<seq<Run>>)
    requires |rows| > 0
    ensures Components(rows)[0] == ExpandAll(rows[0]) && Components(rows)[1..] == Components(rows[1..])
  {
  }

  /** Row `y`'s components are the expansion of row `y`'s runs. */
  lemma {:induction false} ComponentsAt(rows: seq<seq<Run>>, y: nat)
    requires y < |rows|
    ensures Components(rows)[y] == ExpandAll(rows[y])
    decreases y
  {
    ComponentsCons(rows);
    if y > 0 {
      ComponentsAt(rows[1..], y - 1);
      assert rows[1..][y - 1] == rows[y];
      assert Components(rows)[y] == Components(rows)[1..][y - 1];
    }
  }

  /** Where each encoded scanline ends, for scanlines laid out from `off`. */
  function ScanlineStops(off: nat, rows: seq<seq<Run>>): (stops: seq<nat>)
    ensures |stops| == |rows|
    decreases |rows|
  {
    if |rows| == 0 then []
    else
      var next := off + 4 + RunsLength(rows[0]);
      [next] + ScanlineStops(next, rows[1..])
  }

  lemma ScanlineStopsCons(off: nat, rows: seq<seq<Run>>, next: nat)
    requires |rows| > 0 && next == off + 4 + RunsLength(rows[0])
    ensures ScanlineStops(off, rows)[0] == next
    ensures ScanlineStops(off, rows)[1..] == ScanlineStops(next, rows[1..])
  {
  }

  /** The last of the stops, or `off` when there are none. */
  function Last(off: nat, stops: seq<nat>): nat
    decreases |stops|
  {
    if |stops| == 0 then off else Last(stops[0], stops[1..])
  }

  /** The last scanline ends after all the encoded scanlines. */
  lemma {:induction false} LastStop(off: nat, rows: seq<seq<Run>>)
    ensures Last(off, ScanlineStops(off, rows)) == off + ScanlinesLength(rows)
    decreases |rows|
  {
    if |rows| > 0 {
      var next := off + 4 + RunsLength(rows[0]);
      ScanlineStopsCons(off, rows, next);
      LastStop(next, rows[1..]);
    }
  }

  /** Every row holds at least the `4 * w` components its pixels are read from. */
  predicate Wide(cs: seq<seq<byte>>, w: nat)
    decreases |cs|
  {
    |cs| == 0 || (|cs[0]| >= 4 * w && Wide(cs[1..], w))
  }

  /** Runs that fill their rows expand to rows wide enough for the pixels. */
  lemma {:induction false} RowsWide(rows: seq<seq<Run>>, w: nat)
    requires RowsFill(rows, w)
    ensures Wide(Components(rows), w)
    decreases |rows|
  {
    if |rows| > 0 {
      FillsExactlyCovers(rows[0], 0, 4 * w);
      ComponentsCons(rows);
      RowsWide(rows[1..], w);
    }
  }

  /**
   * The values of the pixels of rows of components, row after row, each row as the
   * column loop builds it.
   */
  function ImageValues(cs: seq<seq<byte>>, w: nat, h: Header): (vals: seq<real>)
    requires Wide(cs, w)
    ensures |vals| == RowOffset(w, |cs|)
    decreases |cs|
  {
    if |cs| == 0 then [] else RowValues(cs[0], w, w, h) + ImageValues(cs[1..], w, h)
  }

  /**
   * Channel `c` of pixel `x` in row `y` sits at index `base + 3 * x + c`, where the
   * row starts at `base == RowOffset(w, y)`.
   */
  lemma {:induction false} ImageValuesAt(cs: seq<seq<byte>>, w: nat, h: Header, y: nat, x: nat, c: nat,
                                         base: nat)
    requires Wide(cs, w) && y < |cs| && x < w && c < 3
    requires base == RowOffset(w, y)
    ensures |cs[y]| >= 4 * w
    ensures base + 3 * x + c < |ImageValues(cs, w, h)|
    ensures ImageValues(cs, w, h)[base + 3 * x + c] == Channel(cs[y], w, x, c, h)
    decreases y
  {
    var first := RowValues(cs[0], w, w, h);
    var more := ImageValues(cs[1..], w, h);
    assert ImageValues(cs, w, h) == first + more;
    if y == 0 {
      RowValuesAt(cs[0], w, w, h, x, c);
      assert (first + more)[3 * x + c] == first[3 * x + c];
    } else {
      var prev := RowOffset(w, y - 1);
      assert cs[1..][y - 1] == cs[y];
      ImageValuesAt(cs[1..], w, h, y - 1, x, c, prev);
      assert (first + more)[base + 3 * x + c] == more[prev + 3 * x + c];
    }
    RowOffsetBelow(w, y, |cs|);
  }

  /** The values of the pixels the scanlines' runs stand for. */
  function PictureValues(rows: seq<seq<Run>>, w: nat, h: Header): (vals: seq<real>)
    requires RowsFill(rows, w)
    ensures |vals| == RowOffset(w, |rows|)
  {
    RowsWide(rows, w);
    ImageValues(Components(rows), w, h)
  }

  /** Channel `c` of pixel `x` in row `y` is read from the expansion of that row's runs. */
  lemma PictureValuesAt(rows: seq<seq<Run>>, w: nat, h: Header, y: nat, x: nat, c: nat, base: nat)
    requires RowsFill(rows, w) && y < |rows| && x < w && c < 3
    requires base == RowOffset(w, y)
    ensures |ExpandAll(rows[y])| >= 4 * w
    ensures base + 3 * x + c < |PictureValues(rows, w, h)|
    ensures PictureValues(rows, w, h)[base + 3 * x + c] == Channel(ExpandAll(rows[y]), w, x, c, h)
  {
    RowsWide(rows, w);
    ComponentsAt(rows, y);
    ImageValuesAt(Components(rows), w, h, y, x, c, base);
  }

  /** From `off`, `rows` lie encoded as scanlines of a `w`-pixel picture. */
  predicate ScanlinesAt(buf: seq<byte>, off: nat, w: nat, rows: seq<seq<Run>>)
    decreases |rows|
  {
    && off <= |buf|
    && (|rows| == 0 ||
        (&& off + 4 <= |buf|
         && BigEndian16(buf, off) == ScanlineMarker && BigEndian16(buf, off + 2) == w
         && EncodedAt(buf, off + 4, rows[0])
         && ScanlinesAt(buf, off + 4 + RunsLength(rows[0]), w, rows[1..])))
  }

  /** Two bytes that encode `v` are read back as `v`. */
  lemma Uint16At(buf: seq<byte>, off: nat, v: nat)
    requires v < 0x1_0000 && off + 2 <= |buf| && buf[off..off + 2] == Uint16Bytes(v)
    ensures BigEndian16(buf, off) == v
  {
    assert buf[off] == buf[off..off + 2][0] && buf[off + 1] == buf[off..off + 2][1];
  }

  /** The marker and width bytes at the front of the bytes from `off`, and what follows them. */
  lemma ScanlineHead(buf: seq<byte>, off: nat, w: nat, tail: seq<byte>)
    requires w < 0x1_0000
    requires off <= |buf| && buf[off..] == Uint16Bytes(ScanlineMarker) + Uint16Bytes(w) + tail
    ensures off + 4 <= |buf| && BigEndian16(buf, off) == ScanlineMarker && BigEndian16(buf, off + 2) == w
    ensures buf[off + 4..] == tail
  {
    var m, d := Uint16Bytes(ScanlineMarker), Uint16Bytes(w);
    assert buf[off..off + 2] == buf[off..][0..2] == m;
    assert buf[off + 2..off + 4] == buf[off..][2..4] == d;
    assert buf[off + 4..] == buf[off..][4..];
    Uint16At(buf, off, ScanlineMarker);
    Uint16At(buf, off + 2, w);
  }

  /** A suffix that starts with `e` continues with `t` from `stop`. */
  lemma SuffixAfter(buf: seq<byte>, off: nat, e: seq<byte>, t: seq<byte>, stop: nat)
    requires off <= |buf| && buf[off..] == e + t && stop == off + |e|
    ensures stop <= |buf| && buf[stop..] == t
  {
    assert buf[stop..] == buf[off..][|e|..];
  }

  /** One encoded scanline at the front of the bytes from `off`, and what follows it. */
  lemma ScanlineSuffix(buf: seq<byte>, off: nat, w: nat, runs: seq<Run>, more: seq<byte>, next: nat)
    requires w < 0x1_0000
    requires off <= |buf| && buf[off..] == EncodeScanline(w, runs) + more
    requires next == off + 4 + RunsLength(runs)
    ensures off + 4 <= |buf| && BigEndian16(buf, off) == ScanlineMarker && BigEndian16(buf, off + 2) == w
    ensures EncodedAt(buf, off + 4, runs)
    ensures next <= |buf| && buf[next..] == more
  {
    var e := EncodeRuns(runs);
    assert buf[off..] == Uint16Bytes(ScanlineMarker) + Uint16Bytes(w) + (e + more);
    ScanlineHead(buf, off, w, e + more);
    EncodeRunsLength(runs);
    SuffixEncodedAt(buf, off + 4, runs, more);
    SuffixAfter(buf, off + 4, e, more, next);
  }

  lemma ScanlinesAtCons(buf: seq<byte>, off: nat, w: nat, rows: seq<seq<Run>>, next: nat)
    requires |rows| > 0 && off + 4 <= |buf|
    requires BigEndian16(buf, off) == ScanlineMarker && BigEndian16(buf, off + 2) == w
    requires EncodedAt(buf, off + 4, rows[0])
    requires next == off + 4 + RunsLength(rows[0]) && ScanlinesAt(buf, next, w, rows[1..])
    ensures ScanlinesAt(buf, off, w, rows)
  {
  }

  /** The first of several encoded scanlines, and the encodings of the others after it. */
  lemma ScanlinesSuffixStep(buf: seq<byte>, off: nat, w: nat, rows: seq<seq<Run>>, rest: seq<byte>, next: nat)
    requires w < 0x1_0000 && |rows| > 0
    requires off <= |buf| && buf[off..] == EncodeScanlines(w, rows) + rest
    requires next == off + 4 + RunsLength(rows[0])
    ensures off + 4 <= |buf| && BigEndian16(buf, off) == ScanlineMarker && BigEndian16(buf, off + 2) == w
    ensures EncodedAt(buf, off + 4, rows[0])
    ensures next <= |buf| && buf[next..] == EncodeScanlines(w, rows[1..]) + rest
  {
    var more := EncodeScanlines(w, rows[1..]) + rest;
    AppendAssoc(EncodeScanline(w, rows[0]), EncodeScanlines(w, rows[1..]), rest);
    ScanlineSuffix(buf, off, w, rows[0], more, next);
  }

  /** Encoded scanlines, followed by anything, lie as `ScanlinesAt` describes. */
  lemma {:induction false} SuffixScanlinesAt(buf: seq<byte>, off: nat, w: nat, rows: seq<seq<Run>>,
                                             rest: seq<byte>, stop: nat)
    requires w < 0x1_0000
    requires off <= |buf| && buf[off..] == EncodeScanlines(w, rows) + rest
    requires stop == off + ScanlinesLength(rows)
    ensures ScanlinesAt(buf, off, w, rows)
    ensures stop <= |buf| && buf[stop..] == rest
    decreases |rows|
  {
    if |rows| == 0 {
      assert buf[off..] == rest;
    } else {
      var next := off + 4 + RunsLength(rows[0]);
      ScanlinesSuffixStep(buf, off, w, rows, rest, next);
      SuffixScanlinesAt(buf, next, w, rows[1..], rest, stop);
      ScanlinesAtCons(buf, off, w, rows, next);
    }
  }

  /**
   * From `off`, the decoder reads each row as the values of the components `cs` give it,
   * and row `y` ends at `stops[y]`.
   */
  predicate RowsRead(buf: seq<byte>, off: nat, w: nat, h: Header, cs: seq<seq<byte>>, stops: seq<nat>)
    decreases |cs|
  {
    && off <= |buf| && |stops| == |cs|
    && (|cs| == 0 ||
        (&& |cs[0]| >= 4 * w
         && DecodeRow(buf, off, w, h) == Ok((RowValues(cs[0], w, w, h), stops[0]))
         && RowsRead(buf, stops[0], w, h, cs[1..], stops[1..])))
  }

  lemma RowsReadCons(buf: seq<byte>, off: nat, w: nat, h: Header, cs: seq<seq<byte>>, stops: seq<nat>, next: nat)
    requires |cs| > 0 && |stops| == |cs| && off <= |buf|
    requires |cs[0]| >= 4 * w && next == stops[0]
    requires DecodeRow(buf, off, w, h) == Ok((RowValues(cs[0], w, w, h), next))
    requires RowsRead(buf, next, w, h, cs[1..], stops[1..])
    ensures RowsRead(buf, off, w, h, cs, stops)
  {
  }

  /** A row whose start and runs the decoder reads decodes to the values of its components. */
  lemma DecodeRowOf(buf: seq<byte>, off: nat, w: nat, h: Header, comps: seq<byte>, vals: seq<real>, next: nat)
    requires off <= |buf| && ScanlineStart(buf, off, w) == Ok(off + 4)
    requires off + 4 <= |buf| && DecodeRuns(buf, off + 4, 4 * w, []) == Ok((comps, next))
    requires |comps| >= 4 * w && vals == RowValues(comps, w, w, h)
    ensures DecodeRow(buf, off, w, h) == Ok((vals, next))
  {
  }

  /** One scanline laid out at `off` whose runs fill the row decodes to the row's values. */
  lemma ScanlineRead(buf: seq<byte>, off: nat, w: nat, h: Header, runs: seq<Run>, comps: seq<byte>, next: nat)
    requires off + 4 <= |buf| && BigEndian16(buf, off) == ScanlineMarker && BigEndian16(buf, off + 2) == w
    requires EncodedAt(buf, off + 4, runs) && FillsExactly(runs, 0, 4 * w)
    requires comps == ExpandAll(runs) && next == off + 4 + RunsLength(runs)
    ensures |comps| >= 4 * w
    ensures DecodeRow(buf, off, w, h) == Ok((RowValues(comps, w, w, h), next))
  {
    FillsExactlyCovers(runs, 0, 4 * w);
    DecodeLaidOutRuns(buf, off + 4, runs, 4 * w, comps, next);
    DecodeRowOf(buf, off, w, h, comps, RowValues(comps, w, w, h), next);
  }

  /** Scanlines laid out from `off` whose runs fill their rows are read as those rows. */
  lemma {:induction false} ScanlinesRead(buf: seq<byte>, off: nat, w: nat, h: Header, rows: seq<seq<Run>>)
    requires ScanlinesAt(buf, off, w, rows) && RowsFill(rows, w)
    ensures RowsRead(buf, off, w, h, Components(rows), ScanlineStops(off, rows))
    decreases |rows|
  {
    if |rows| > 0 {
      var comps := ExpandAll(rows[0]);
      var next := off + 4 + RunsLength(rows[0]);
      ScanlineRead(buf, off, w, h, rows[0], comps, next);
      ScanlinesRead(buf, next, w, h, rows[1..]);
      ComponentsCons(rows);
      ScanlineStopsCons(off, rows, next);
      RowsReadCons(buf, off, w, h, Components(rows), ScanlineStops(off, rows), next);
    }
  }

  lemma DecodeRowsCons(buf: seq<byte>, off: nat, w: nat, n: nat, h: Header, first: seq<real>, mid: nat,
                       more: seq<real>, end: nat, vals: seq<real>)
    requires off <= |buf| && n > 0
    requires DecodeRow(buf, off, w, h) == Ok((first, mid))
    requires mid <= |buf| && DecodeRows(buf, mid, w, n - 1, h) == Ok((more, end))
    requires vals == first + more
    ensures DecodeRows(buf, off, w, n, h) == Ok((vals, end))
  {
  }

  /** The first of the rows read, and where the others start. */
  lemma RowsReadHead(buf: seq<byte>, off: nat, w: nat, h: Header, cs: seq<seq<byte>>, stops: seq<nat>)
    requires RowsRead(buf, off, w, h, cs, stops) && |cs| > 0
    ensures off <= |buf| && stops[0] <= |buf|
    ensures DecodeRow(buf, off, w, h) == Ok((RowValues(cs[0], w, w, h), stops[0]))
    ensures RowsRead(buf, stops[0], w, h, cs[1..], stops[1..])
    ensures Last(off, stops) == Last(stops[0], stops[1..])
  {
  }

  /** Rows the decoder reads as given components decode to the values of those components. */
  lemma {:induction false} RowsReadDecode(buf: seq<byte>, off: nat, w: nat, h: Header, cs: seq<seq<byte>>,
                                          stops: seq<nat>, vals: seq<real>, end: nat)
    requires RowsRead(buf, off, w, h, cs, stops) && Wide(cs, w)
    requires vals == ImageValues(cs, w, h) && end == Last(off, stops)
    ensures DecodeRows(buf, off, w, |cs|, h) == Ok((vals, end))
    decreases |cs|
  {
    if |cs| > 0 {
      var first := RowValues(cs[0], w, w, h);
      var next := stops[0];
      var more := ImageValues(cs[1..], w, h);
      RowsReadDecode(buf, next, w, h, cs[1..], stops[1..], more, end);
      DecodeRowsCons(buf, off, w, |cs|, h, first, next, more, end, vals);
    }
  }

  /** From `off`, the reader returns scanlines ending at `stops`. */
  ghost predicate Passes(row: RowReader, off: nat, stops: seq<nat>)
    decreases |stops|
  {
    |stops| == 0 || (row(off).Ok? && row(off).value.1 == stops[0] && Passes(row, stops[0], stops[1..]))
  }

  /** Once the reader fails after the rows it passes, the loop fails with the same error. */
  lemma {:induction false} LoopStops(row: RowReader, off: nat, stops: seq<nat>, n: nat, e: DecodeError)
    requires Passes(row, off, stops) && n > |stops| && row(Last(off, stops)) == Err(e)
    ensures RowLoop(row, off, n) == Err(e)
    decreases |stops|
  {
    if |stops| > 0 {
      LoopStops(row, stops[0], stops[1..], n - 1, e);
    }
  }

  /** Rows the decoder reads are rows the scanline reader passes. */
  lemma {:induction false} RowsReadPasses(buf: seq<byte>, off: nat, w: nat, h: Header, cs: seq<seq<byte>>,
                                          stops: seq<nat>)
    requires RowsRead(buf, off, w, h, cs, stops)
    ensures Passes(RowAt(buf, w, h), off, stops)
    decreases |cs|
  {
    if |cs| > 0 {
      RowsReadHead(buf, off, w, h, cs, stops);
      RowsReadPasses(buf, stops[0], w, h, cs[1..], stops[1..]);
      assert RowAt(buf, w, h)(off) == DecodeRow(buf, off, w, h);
    }
  }

  /**
   * After rows the decoder reads, a row that fails fails the whole loop with its error,
   * whatever follows it: no later row is read.
   */
  lemma FailingRowStops(buf: seq<byte>, off: nat, w: nat, h: Header, cs: seq<seq<byte>>,
                        stops: seq<nat>, n: nat, e: DecodeError)
    requires RowsRead(buf, off, w, h, cs, stops) && n > |cs|
    requires Last(off, stops) <= |buf| && DecodeRow(buf, Last(off, stops), w, h) == Err(e)
    ensures DecodeRows(buf, off, w, n, h) == Err(e)
  {
    RowsReadPasses(buf, off, w, h, cs, stops);
    assert RowAt(buf, w, h)(Last(off, stops)) == Err(e);
    LoopStops(RowAt(buf, w, h), off, stops, n, e);
  }

  /** Scanlines laid out from `off` whose runs fill their rows decode to the picture's values. */
  lemma ScanlinesDecode(buf: seq<byte>, off: nat, w: nat, rows: seq<seq<Run>>, h: Header, vals: seq<real>, end: nat)
    requires ScanlinesAt(buf, off, w, rows) && RowsFill(rows, w)
    requires vals == PictureValues(rows, w, h) && end == off + ScanlinesLength(rows)
    ensures DecodeRows(buf, off, w, |rows|, h) == Ok((vals, end))
  {
    ScanlinesRead(buf, off, w, h, rows);
    RowsWide(rows, w);
    LastStop(off, rows);
    RowsReadDecode(buf, off, w, h, Components(rows), ScanlineStops(off, rows), vals, end);
  }
}
