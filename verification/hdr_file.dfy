/**
 * Whole-file properties of the Radiance decoder: which errors stop it where, what it
 * makes of a picture without rows, and that the pictures an encoder lays out are read
 * back exactly.
 */
module HdrFile {
  import opened Results
  import opened HdrBytes
  import opened HdrHeader
  import opened HdrRle
  import opened HdrPixels
  import opened HdrDecoder

  // ----- Gluing the header to the pixel data -----

  /** A header the decoder reads, followed by pixel data it reads, make a picture. */
  lemma DecodeOf(buf: seq<byte>, conv: Conversions, h: Header, size: Size, end: nat, vals: seq<real>)
    requires ParseHeader(buf, conv) == Ok((h, size, end))
    requires end <= |buf| && ParseData(buf, end, size, h) == Ok(vals)
    ensures Decode(buf, conv) == Ok(Image(size.width, size.height, vals))
  {
  }

  /** A header the decoder reads, followed by pixel data it rejects, fails with the data's error. */
  lemma DecodeDataErr(buf: seq<byte>, conv: Conversions, h: Header, size: Size, end: nat, e: DecodeError)
    requires ParseHeader(buf, conv) == Ok((h, size, end))
    requires end <= |buf| && ParseData(buf, end, size, h) == Err(e)
    ensures Decode(buf, conv) == Err(e)
  {
  }

  /** A header the decoder rejects stops the decoding with the header's error. */
  lemma DecodeHeaderErr(buf: seq<byte>, conv: Conversions, e: DecodeError)
    requires ParseHeader(buf, conv) == Err(e)
    ensures Decode(buf, conv) == Err(e)
  {
  }

  /**
   * The decoder reports an incorrect file format exactly when the first line is read but
   * is neither `#?RADIANCE` nor `#?RGBE`: no later check raises that error.
   */
  lemma DecodeSignature(buf: seq<byte>, conv: Conversions)
    ensures Decode(buf, conv) == Err(IncorrectFileFormat)
            <==> ReadLine(buf, 0).Ok? && !IsSignature(ReadLine(buf, 0).value.0)
  {
    SignatureChecked(buf, conv);
    var p := ParseHeader(buf, conv);
    if p.Ok? {
      var data := ParseData(buf, p.value.2, p.value.1, p.value.0);
      if data.Err? {
        DecodeDataErr(buf, conv, p.value.0, p.value.1, p.value.2, data.error);
      }
    } else {
      DecodeHeaderErr(buf, conv, p.error);
    }
  }

  /**
   * A signature followed by non-blank directive lines whose fold fails rejects the file
   * with the fold's error, whatever bytes follow: no blank line or resolution line is needed.
   */
  lemma DirectivesReject(buf: seq<byte>, sig: string, lines: seq<string>, rest: seq<byte>,
                         conv: Conversions, e: DecodeError)
    requires IsSignature(sig)
    requires forall j | 0 <= j < |lines| :: IsLineText(lines[j]) && lines[j] != ""
    requires buf == ToBytes(sig) + [Newline] + (EncodeLines(lines) + rest)
    requires FoldDirectives(InitialHeader, lines, conv) == Err(e)
    ensures Decode(buf, conv) == Err(e)
  {
    assert buf[0..] == buf;
    ReadLineSuffix(buf, 0, sig, EncodeLines(lines) + rest);
    SuffixLinesAt(buf, |sig| + 1, lines, rest);
    HeaderLoopStopsAtFailure(buf, |sig| + 1, lines, InitialHeader, conv, e);
    ParseHeaderLoopErr(buf, conv, sig, |sig| + 1, e);
    DecodeHeaderErr(buf, conv, e);
  }

  /**
   * After the signature, the first directive line that fails (a FORMAT other than the two
   * RLE formats, or a COLORCORR without a value) rejects the whole file with its error,
   * whatever follows it.
   */
  lemma DirectiveFailureRejects(buf: seq<byte>, sig: string, lines: seq<string>, rest: seq<byte>,
                                conv: Conversions, k: nat, e: DecodeError)
    requires IsSignature(sig)
    requires forall j | 0 <= j < |lines| :: IsLineText(lines[j]) && lines[j] != ""
    requires buf == ToBytes(sig) + [Newline] + (EncodeLines(lines) + rest)
    requires FirstFailing(lines) == Some(k) && e == DirectiveError(lines[k])
    ensures Decode(buf, conv) == Err(e)
  {
    FoldFailsAt(InitialHeader, lines, conv, k, e);
    DirectivesReject(buf, sig, lines, rest, conv, e);
  }

  // ----- The pixel data -----

  /**
   * The data is rejected as an obsolete version exactly when two bytes can be read at its
   * start and they are not the 0x0202 marker.
   */
  lemma DataMarkerRequired(buf: seq<byte>, off: nat, size: Size, h: Header)
    requires off <= |buf|
    ensures ParseData(buf, off, size, h) == Err(ObsoleteVersion)
            <==> off + 2 <= |buf| && BigEndian16(buf, off) != ScanlineMarker
  {
  }

  /** A negative pixel count cannot size the output array: a range error. */
  lemma NegativeSizeRejected(buf: seq<byte>, off: nat, size: Size, h: Header)
    requires off + 2 <= |buf| && BigEndian16(buf, off) == ScanlineMarker
    requires size.width * size.height < 0
    ensures ParseData(buf, off, size, h) == Err(OutOfRange)
  {
  }

  /**
   * More than 2^53 - 1 output values cannot size the output array either: a range error,
   * raised before any scanline is read.
   */
  lemma OversizedPictureRejected(buf: seq<byte>, off: nat, size: Size, h: Header)
    requires off + 2 <= |buf| && BigEndian16(buf, off) == ScanlineMarker
    requires 3 * (size.width * size.height) > MaxArrayLength
    ensures ParseData(buf, off, size, h) == Err(OutOfRange)
  {
  }

  /**
   * A picture 4000000000000000 pixels wide and one high, whose data is one scanline header
   * for width 0, is rejected when the output array is sized, not at the scanline's width.
   */
  lemma HugeWidthRejected(h: Header)
    ensures ParseData([2, 2, 0, 0], 0, Size(4000000000000000, 1), h) == Err(OutOfRange)
  {
    var buf: seq<byte> := [2, 2, 0, 0];
    assert BigEndian16(buf, 0) == ScanlineMarker;
    OversizedPictureRejected(buf, 0, Size(4000000000000000, 1), h);
  }

  /**
   * Without a positive height no scanline is read: the output is the zero-filled array of
   * `3 * width * height` values, which is not empty when both are negative.
   */
  lemma EmptyPicture(buf: seq<byte>, off: nat, size: Size, h: Header)
    requires off + 2 <= |buf| && BigEndian16(buf, off) == ScanlineMarker
    requires size.height <= 0 && IsArrayLength(3 * (size.width * size.height))
    ensures ParseData(buf, off, size, h) == Ok(Zeros(3 * (size.width * size.height)))
  {
  }

  /** A first scanline whose embedded width differs from the picture width stops the decoder. */
  lemma WidthMismatchStops(buf: seq<byte>, off: nat, size: Size, h: Header)
    requires off + 4 <= |buf| && BigEndian16(buf, off) == ScanlineMarker
    requires size.height > 0 && IsArrayLength(3 * (size.width * size.height))
    requires BigEndian16(buf, off + 2) != size.width
    ensures ParseData(buf, off, size, h) == Err(ScanlineWidthMismatch)
  {
    NonNegativeWidth(size.width, size.height);
  }

  /**
   * After any number of rows the decoder reads, a scanline whose start fails (a missing
   * marker, a wrong width, or too few bytes) rejects the pixel data with that error,
   * whatever follows it.
   */
  lemma ScanlineErrorStops(buf: seq<byte>, off: nat, w: nat, n: nat, h: Header, cs: seq<seq<byte>>,
                           stops: seq<nat>, e: DecodeError)
    requires off + 2 <= |buf| && BigEndian16(buf, off) == ScanlineMarker
    requires RowsRead(buf, off, w, h, cs, stops) && n > |cs| && IsArrayLength(3 * (w * n))
    requires Last(off, stops) <= |buf| && ScanlineStart(buf, Last(off, stops), w) == Err(e)
    ensures ParseData(buf, off, Size(w, n), h) == Err(e)
  {
    assert DecodeRow(buf, Last(off, stops), w, h) == Err(e);
    FailingRowStops(buf, off, w, h, cs, stops, n, e);
    ProductOfNats(w, n);
  }

  /** A later scanline without the 0x0202 marker is an incorrect scanline hash. */
  lemma ScanlineHashChecked(buf: seq<byte>, off: nat, w: nat, n: nat, h: Header, cs: seq<seq<byte>>,
                            stops: seq<nat>)
    requires off + 2 <= |buf| && BigEndian16(buf, off) == ScanlineMarker
    requires RowsRead(buf, off, w, h, cs, stops) && n > |cs| && IsArrayLength(3 * (w * n))
    requires Last(off, stops) + 2 <= |buf| && BigEndian16(buf, Last(off, stops)) != ScanlineMarker
    ensures ParseData(buf, off, Size(w, n), h) == Err(IncorrectScanlineHash)
  {
    ScanlineErrorStops(buf, off, w, n, h, cs, stops, IncorrectScanlineHash);
  }

  /** A scanline of any row whose embedded width is not the picture width stops the decoder. */
  lemma WidthMismatchAtRow(buf: seq<byte>, off: nat, w: nat, n: nat, h: Header, cs: seq<seq<byte>>,
                           stops: seq<nat>)
    requires off + 2 <= |buf| && BigEndian16(buf, off) == ScanlineMarker
    requires RowsRead(buf, off, w, h, cs, stops) && n > |cs| && IsArrayLength(3 * (w * n))
    requires Last(off, stops) + 4 <= |buf| && BigEndian16(buf, Last(off, stops)) == ScanlineMarker
    requires BigEndian16(buf, Last(off, stops) + 2) != w
    ensures ParseData(buf, off, Size(w, n), h) == Err(ScanlineWidthMismatch)
  {
    ScanlineErrorStops(buf, off, w, n, h, cs, stops, ScanlineWidthMismatch);
  }

  /** Data that starts with the marker and whose rows decode is the rows' values. */
  lemma ParseDataOf(buf: seq<byte>, off: nat, w: nat, n: nat, h: Header, vals: seq<real>, stop: nat)
    requires off + 2 <= |buf| && BigEndian16(buf, off) == ScanlineMarker && n > 0
    requires IsArrayLength(3 * (w * n))
    requires DecodeRows(buf, off, w, n, h) == Ok((vals, stop))
    ensures ParseData(buf, off, Size(w, n), h) == Ok(vals)
  {
    ProductOfNats(w, n);
  }

  // ----- Round trips -----

  /** The header bytes followed by the data bytes: the data starts where the header ends. */
  lemma AfterHeader(buf: seq<byte>, head: seq<byte>, data: seq<byte>, end: nat)
    requires buf == head + data && end == |buf| - |data|
    ensures end <= |buf| && buf[end..] == data
  {
    assert buf[|head|..] == data;
  }

  /** Scanlines whose runs fill their rows, laid out from `off`, are read as the picture's data. */
  lemma ScanlinesData(buf: seq<byte>, off: nat, w: nat, rows: seq<seq<Run>>, rest: seq<byte>, h: Header,
                      vals: seq<real>)
    requires w < 0x1_0000 && |rows| > 0 && RowsFill(rows, w) && IsArrayLength(3 * (w * |rows|))
    requires off <= |buf| && buf[off..] == EncodeScanlines(w, rows) + rest
    requires vals == PictureValues(rows, w, h)
    ensures ParseData(buf, off, Size(w, |rows|), h) == Ok(vals)
  {
    var stop := off + ScanlinesLength(rows);
    SuffixScanlinesAt(buf, off, w, rows, rest, stop);
    ScanlinesDecode(buf, off, w, rows, h, vals, stop);
    ParseDataOf(buf, off, w, |rows|, h, vals, stop);
  }

  /**
   * Encoded scanlines that the picture's height does not yet exhaust, followed by bytes
   * that do not start with the marker, are rejected as an incorrect scanline hash.
   */
  lemma CorruptScanlineRejected(buf: seq<byte>, off: nat, w: nat, rows: seq<seq<Run>>, rest: seq<byte>,
                                n: nat, h: Header)
    requires w < 0x1_0000 && |rows| > 0 && RowsFill(rows, w) && n > |rows| && IsArrayLength(3 * (w * n))
    requires off <= |buf| && buf[off..] == EncodeScanlines(w, rows) + rest
    requires |rest| >= 2 && BigEndian16(rest, 0) != ScanlineMarker
    ensures ParseData(buf, off, Size(w, n), h) == Err(IncorrectScanlineHash)
  {
    var stop := off + ScanlinesLength(rows);
    SuffixScanlinesAt(buf, off, w, rows, rest, stop);
    ScanlinesRead(buf, off, w, h, rows);
    LastStop(off, rows);
    assert buf[stop] == rest[0] && buf[stop + 1] == rest[1];
    ScanlineHashChecked(buf, off, w, n, h, Components(rows), ScanlineStops(off, rows));
  }

  /**
   * A header whose directives succeed and whose resolution line gives `w` by `|rows|`,
   * followed by `|rows|` scanlines whose runs fill their rows, decodes to the picture
   * those runs stand for, whatever bytes follow.
   */
  lemma PictureRoundTrip(buf: seq<byte>, sig: string, lines: seq<string>, res: string, w: nat,
                         rows: seq<seq<Run>>, rest: seq<byte>, conv: Conversions, h: Header, vals: seq<real>)
    requires IsSignature(sig) && IsLineText(res)
    requires forall k | 0 <= k < |lines| :: IsLineText(lines[k]) && lines[k] != ""
    requires w < 0x1_0000 && |rows| > 0 && RowsFill(rows, w) && IsArrayLength(3 * (w * |rows|))
    requires buf == EncodeHeader(sig, lines, res) + (EncodeScanlines(w, rows) + rest)
    requires FoldDirectives(InitialHeader, lines, conv) == Ok(h)
    requires ParseResolution(res, conv) == Size(w, |rows|)
    requires vals == PictureValues(rows, w, h)
    ensures Decode(buf, conv) == Ok(Image(w, |rows|, vals))
  {
    var head := EncodeHeader(sig, lines, res);
    var data := EncodeScanlines(w, rows) + rest;
    var end := |buf| - |data|;
    AfterHeader(buf, head, data, end);
    ParseHeaderOf(buf, sig, lines, res, data, conv, Ok(h), end);
    ScanlinesData(buf, end, w, rows, rest, h, vals);
    DecodeOf(buf, conv, h, Size(w, |rows|), end, vals);
  }

  /** Each row of components compressed into runs. */
  function CompressRows(pics: seq<seq<byte>>): (rows: seq<seq<Run>>)
    ensures |rows| == |pics|
  {
    if |pics| == 0 then [] else [Compress(pics[0])] + CompressRows(pics[1..])
  }

  /** Rows of exactly `4 * w` components compress to runs that fill their rows and expand back. */
  lemma {:induction false} CompressRowsFill(pics: seq<seq<byte>>, w: nat)
    requires forall y | 0 <= y < |pics| :: |pics[y]| == 4 * w
    ensures RowsFill(CompressRows(pics), w) && Components(CompressRows(pics)) == pics
    decreases |pics|
  {
    if |pics| > 0 {
      var rows := CompressRows(pics);
      NonEmptyRunsFill(Compress(pics[0]), 0, 4 * w);
      assert forall y | 0 <= y < |pics[1..]| :: |pics[1..][y]| == 4 * w by {
        forall y | 0 <= y < |pics[1..]| ensures |pics[1..][y]| == 4 * w {
          assert pics[1..][y] == pics[y + 1];
        }
      }
      CompressRowsFill(pics[1..], w);
      assert rows[0] == Compress(pics[0]) && rows[1..] == CompressRows(pics[1..]);
      ComponentsCons(rows);
      assert pics == [pics[0]] + pics[1..];
    }
  }

  /**
   * An encoder that compresses each row's four component planes into runs writes a file
   * the decoder reads back as the pixels of those components.
   */
  lemma CompressedPictureRoundTrip(buf: seq<byte>, sig: string, lines: seq<string>, res: string, w: nat,
                                   pics: seq<seq<byte>>, rest: seq<byte>, conv: Conversions, h: Header)
    requires IsSignature(sig) && IsLineText(res)
    requires forall k | 0 <= k < |lines| :: IsLineText(lines[k]) && lines[k] != ""
    requires w < 0x1_0000 && |pics| > 0 && IsArrayLength(3 * (w * |pics|))
    requires forall y | 0 <= y < |pics| :: |pics[y]| == 4 * w
    requires buf == EncodeHeader(sig, lines, res) + (EncodeScanlines(w, CompressRows(pics)) + rest)
    requires FoldDirectives(InitialHeader, lines, conv) == Ok(h)
    requires ParseResolution(res, conv) == Size(w, |pics|)
    ensures Wide(pics, w)
    ensures Decode(buf, conv) == Ok(Image(w, |pics|, ImageValues(pics, w, h)))
  {
    var rows := CompressRows(pics);
    CompressRowsFill(pics, w);
    RowsWide(rows, w);
    PictureRoundTrip(buf, sig, lines, res, w, rows, rest, conv, h, PictureValues(rows, w, h));
  }

  // ----- A concrete picture -----

  /**
   * The one row of a 2 by 1 picture, as two literal runs: planes R = 10 20, G = 30 40,
   * B = 50 60 and E = 137 137.
   */
  const ExampleRow: seq<Run> := [Literal([10, 20, 30, 40]), Literal([50, 60, 137, 137])]

  const ExampleFormat := "FORMAT=32-bit_rle_rgbe"

  const ExampleResolution := ResolutionLine("-Y", "1", "+X", "2")

  /** The header lines of the example: one FORMAT line. */
  const ExampleLines := [ExampleFormat]

  /** The example's header lines are non-empty header text. */
  lemma ExampleLinesText()
    ensures forall k | 0 <= k < |ExampleLines| :: IsLineText(ExampleLines[k]) && ExampleLines[k] != ""
  {
    assert IsLineText(ExampleFormat) && ExampleFormat != "";
  }

  /** A whole file: signature, the FORMAT line, the blank line, the resolution, one scanline. */
  function ExampleFile(): seq<byte> {
    ExampleLinesText();
    ExampleResolutionText();
    EncodeHeader(RadianceSignature, ExampleLines, ExampleResolution) + (EncodeScanlines(2, [ExampleRow]) + [])
  }

  /** The FORMAT line is header text naming a supported format, so it leaves the state as it is. */
  lemma ExampleFormatRead(h: Header, conv: Conversions)
    ensures IsLineText(ExampleFormat) && ExampleFormat != ""
    ensures ApplyDirective(h, ExampleFormat, conv) == Ok(h)
  {
    assert IsLineText(ExampleFormat) && ExampleFormat != "";
    var name := "FORMAT";
    var value := "32-bit_rle_rgbe";
    assert '=' !in name;
    assert '=' !in value;
    assert ExampleFormat == name + ['='] + value;
    DirectiveParts(name, value);
  }

  /** The row's runs expand to its eight component bytes. */
  lemma ExampleComponents()
    ensures ExpandAll(ExampleRow) == [10, 20, 30, 40, 50, 60, 137, 137]
  {
    var a: seq<byte> := [10, 20, 30, 40];
    var b: seq<byte> := [50, 60, 137, 137];
    assert ExpandAll(ExampleRow) == a + (b + []);
  }

  /** Exponent 137 doubles each component byte, with exposure 1 and no colour correction. */
  lemma ExampleValues()
    ensures RowsFill([ExampleRow], 2)
    ensures PictureValues([ExampleRow], 2, InitialHeader) == [20.0, 60.0, 100.0, 40.0, 80.0, 120.0]
  {
    var comps: seq<byte> := [10, 20, 30, 40, 50, 60, 137, 137];
    ExampleComponents();
    assert FillsExactly(ExampleRow, 0, 8);
    var rows := [ExampleRow];
    assert Components(rows) == [comps];
    var h := InitialHeader;
    ScaleSteps(136);
    assert Scale(137) == 2.0;
    var p0 := PixelOf(comps, 2, 0, h);
    var p1 := PixelOf(comps, 2, 1, h);
    assert p0 == [20.0, 60.0, 100.0];
    assert p1 == [40.0, 80.0, 120.0];
    assert RowValues(comps, 2, 2, h) == [] + p0 + p1;
    assert ImageValues([comps], 2, h) == RowValues(comps, 2, 2, h) + [];
  }

  /** The resolution line is header text. */
  lemma ExampleResolutionText()
    ensures IsLineText(ExampleResolution)
  {
    ResolutionLineText("-Y", "1", "+X", "2");
  }

  /** The resolution line is header text and gives a width of 2 and a height of 1. */
  lemma ExampleResolutionRead(conv: Conversions)
    requires conv.parseInt("1") == 1 && conv.parseInt("2") == 2
    ensures IsLineText(ExampleResolution)
    ensures ParseResolution(ExampleResolution, conv) == Size(2, 1)
  {
    ExampleResolutionText();
    StandardResolution("1", "2", conv);
  }

  /** Four words of header text make a resolution line of header text. */
  lemma ResolutionLineText(a: string, b: string, c: string, d: string)
    requires IsLineText(a) && IsLineText(b) && IsLineText(c) && IsLineText(d)
    ensures IsLineText(ResolutionLine(a, b, c, d))
  {
    assert IsLineText(" ");
    LineTextConcat(a, " ");
    LineTextConcat(a + " ", b);
    LineTextConcat(a + " " + b, " ");
    LineTextConcat(a + " " + b + " ", c);
    LineTextConcat(a + " " + b + " " + c, " ");
    LineTextConcat(a + " " + b + " " + c + " ", d);
  }

  /**
   * The example file decodes to a 2 by 1 picture whose pixels are (20, 60, 100) and
   * (40, 80, 120), given conversions that read "1" and "2" as those numbers.
   */
  lemma ExampleDecodes(conv: Conversions)
    requires conv.parseInt("1") == 1 && conv.parseInt("2") == 2
    ensures Decode(ExampleFile(), conv) == Ok(Image(2, 1, [20.0, 60.0, 100.0, 40.0, 80.0, 120.0]))
  {
    ExampleResolutionRead(conv);
    ExampleValues();
    ExampleLinesText();
    ExampleHeader(conv);
    PictureRoundTrip(ExampleFile(), RadianceSignature, ExampleLines, ExampleResolution, 2, [ExampleRow], [], conv,
                     InitialHeader, [20.0, 60.0, 100.0, 40.0, 80.0, 120.0]);
  }

  /** The example's directives leave the initial header as it is. */
  lemma ExampleHeader(conv: Conversions)
    ensures FoldDirectives(InitialHeader, ExampleLines, conv) == Ok(InitialHeader)
  {
    ExampleFormatRead(InitialHeader, conv);
    FoldStep(InitialHeader, ExampleLines, conv);
  }

  /** A FORMAT line with a value the decoder does not support. */
  const BadFormat := "FORMAT=bad"

  /** `#?RADIANCE`, then `FORMAT=bad`, and nothing more. */
  function BadFormatFile(): seq<byte> {
    BadFormatText();
    ToBytes(RadianceSignature) + [Newline] + (EncodeLines([BadFormat]) + [])
  }

  /** `FORMAT=bad` names the FORMAT directive and carries `bad`. */
  lemma BadFormatParts()
    ensures DirectiveOf(BadFormat) == Format && DirectiveValue(BadFormat) == Some("bad")
  {
    var name := "FORMAT";
    var value := "bad";
    assert '=' !in name;
    assert '=' !in value;
    assert BadFormat == name + ['='] + value;
    DirectiveParts(name, value);
  }

  /** `bad` is none of the supported formats. */
  lemma BadValueUnsupported()
    ensures "bad" !in SupportedFormats
  {
  }

  /** `FORMAT=bad` is non-empty header text. */
  lemma BadFormatText()
    ensures IsLineText(BadFormat) && BadFormat != ""
  {
  }

  /** `FORMAT=bad` is header text and a failing FORMAT line. */
  lemma BadFormatFails()
    ensures IsLineText(BadFormat) && BadFormat != ""
    ensures DirectiveFails(BadFormat) && DirectiveError(BadFormat) == IncorrectEncodingFormat
  {
    BadFormatParts();
    BadValueUnsupported();
    BadFormatText();
  }

  /**
   * The decoder stops at the FORMAT line of the bad-format file with its error, without
   * a blank line or a resolution line after it.
   */
  lemma ExampleBadFormat(conv: Conversions)
    ensures Decode(BadFormatFile(), conv) == Err(IncorrectEncodingFormat)
  {
    BadFormatFails();
    var lines := [BadFormat];
    assert FirstFailing(lines) == Some(0) by {
      assert DirectiveFails(lines[0]);
    }
    DirectiveFailureRejects(BadFormatFile(), RadianceSignature, lines, [], conv, 0, IncorrectEncodingFormat);
  }
}
