# Radiance HDR decoding and spherical-harmonics projection, modelled in Dafny

This project models the two core pieces of the `sh-generator` tool.

**The `.hdr` decoder** (`HDR.js`). It reads a Radiance RGBE picture from a byte buffer in these steps:
- the signature line (`#?RADIANCE` or `#?RGBE`);
- the directive lines up to the first blank line (`GAMMA`, `FORMAT`, `EXPOSURE`, `COLORCORR`);
- the resolution line;
- the pixel data in the adaptive run-length format: a `0x0202` marker, then one scanline per row, each starting with `0x0202` and the picture width, followed by runs that fill four component planes (R, G, B, shared exponent).

Each pixel channel is `component * 2^(E-136) * exposure * colorCorr[c]`, where an exponent byte `E` of 0 gives 0.

**The projector** (`SHGenerator.js`). It walks the decoded pixels in batches of 10000 and adds each pixel's weighted colour, times the nine real spherical-harmonic basis values, into nine coefficients. At the end it scales every coefficient by `4 pi / totalWeight`, and by the per-band irradiance factor when irradiance is on. It then reports progress 1 and completion.

Modules:

- `Results`, `Color`: the `Option`/`Result` wrappers and an RGB triple.
- `HdrBytes`: bytes, the line reader `_readLine` and its error when no newline is left, big-endian 16-bit reads, and JavaScript `split`.
- `HdrHeader`: the directive fold, the header loop, `_parseSize`, the resolution line and `_parseHeader`.
- `HdrRle`: the run reader and the run loop of `_parseNewRLE`, plus an encoder whose output the reader reads back.
- `HdrPixels`: the exponent scale and the per-scanline pixel reconstruction.
- `HdrDecoder`: the scanline loop, `_parseNewRLE`, `_parseData` and the whole decoder, plus the layout of an encoded picture.
- `HdrFile`: whole-file statements: error propagation, the round trip from an encoded picture to the decoded image, and a concrete two-pixel file.
- `ShTables`: the `irrConstants` and `shConstants` tables and the nine basis functions.
- `ShProjector`: `generate`, `_doPart`, `_accumulate` and `_finish` as a state machine. It comes with a reference definition of the sums, a lemma for the whole run, and the link between decoded pixels and what the projector reads.

Abstractions:
- Error throws become `Err` values, one constructor per throw site.
  - A `DataView` read past the end and a `Float32Array` length that is negative or above 2^53 - 1 (the limit of the ToIndex conversion, section 7.1.22 of ECMA-262) are all `OutOfRange`.
  - A `COLORCORR` line without `=` (a `TypeError` on `undefined.replace`) is `MissingColorCorr`.
- `parseFloat`, `parseInt` and the conversion of a `COLORCORR` value are fields of a `Conversions` record: uninterpreted total functions.
- The projector's trigonometry is the `Sampling` parameter:
  - the direction of pixel `(x, y)`;
  - its weight `cos(phi)`;
  - `pi`;
  - the normalisation constants, which are pinned by their squares.
- Each `setTimeout` hop is one explicit `Step` of the state machine.
- The `onProgress`/`onComplete` calls become a list of `Event`s.

## Model

| member | source | states |
|---|---|---|
| HdrBytes.ToChars | sh-generator/src/HDR.js:76 | each byte becomes the character with that code, one per byte |
| HdrBytes.ToBytesInverse | sh-generator/src/HDR.js:76 | reading the bytes of a Latin-1 text back as characters gives the text |
| HdrBytes.FindNewline | sh-generator/src/HDR.js:75 | a found position is at or after the start, inside the buffer, and holds a newline |
| HdrBytes.FindNewlineFirst | sh-generator/src/HDR.js:75 | the found newline is the first one from the offset; none found means none remains |
| HdrBytes.FindNewlineAt | sh-generator/src/HDR.js:75 | the first newline after a newline-free stretch is found exactly there |
| HdrBytes.ReadLine | sh-generator/src/HDR.js:72-79 | a line read ends one past its newline inside the buffer; the only failure is a read past the end |
| HdrBytes.ReadLineWithoutNewline | sh-generator/src/HDR.js:75 | with no newline left, reading a line is a range error |
| HdrBytes.ReadLineAt | sh-generator/src/HDR.js:72-79 | a text laid out before a newline is read back as that text, and the cursor moves past the newline |
| HdrBytes.ReadLineSuffix | sh-generator/src/HDR.js:72-79 | a line followed by a newline and anything is read back, leaving exactly the rest |
| HdrBytes.BigEndian16 | sh-generator/src/HDR.js:83 | a big-endian 16-bit read gives a value below 65536 |
| HdrBytes.Uint16Bytes | sh-generator/src/HDR.js:100-104 | encoder, not in the source; two bytes that a big-endian read turns back into the value |
| HdrBytes.SplitJoin | sh-generator/src/HDR.js:28 | the parts hold no separator and joined with it give the text back |
| HdrBytes.SplitAfter | sh-generator/src/HDR.js:47 | a separator-free prefix is the first part, and the rest splits on its own |
| HdrBytes.SplitWithout | sh-generator/src/HDR.js:47 | a text without the separator is a single part |
| HdrBytes.Part | sh-generator/src/HDR.js:28-29 | a part exists exactly for indices below the part count (otherwise `undefined`), and it is the part at that index |
| HdrHeader.ApplyDirective | sh-generator/src/HDR.js:28-43 | one directive line fails exactly when it is an unsupported FORMAT or a COLORCORR without value, with that error; unknown names change nothing; EXPOSURE multiplies the exposure; only COLORCORR changes the colour correction |
| HdrHeader.DirectiveParts | sh-generator/src/HDR.js:28-29 | a line `name=value` with no other `=` names the directive `name` and carries `value` |
| HdrHeader.ScaledByCons | sh-generator/src/HDR.js:38 | proof step: scaling by a list is scaling by its head, then by the rest |
| HdrHeader.HeaderLoop | sh-generator/src/HDR.js:25-44 | the loop ends strictly after its start inside the buffer, failing only by a range error, a bad format or a missing COLORCORR value |
| HdrHeader.FoldStep | sh-generator/src/HDR.js:25-44 | proof step: the first directive line is applied first, and its failure stops the fold with its error |
| HdrHeader.FoldAppend | sh-generator/src/HDR.js:25-44 | folding two line lists in a row is folding the second from the state the first leaves, and a failure in the first wins |
| HdrHeader.ExposureCompounds | sh-generator/src/HDR.js:37-39 | the final exposure is the initial one multiplied by every EXPOSURE value in order |
| HdrHeader.ExposureTwoAndThree | sh-generator/src/HDR.js:37-39 | EXPOSURE values 2 and 3 give six times the initial exposure |
| HdrHeader.ColorCorrUntouched | sh-generator/src/HDR.js:11 | without COLORCORR lines the colour correction keeps its initial value |
| HdrHeader.ColorCorrLastWins | sh-generator/src/HDR.js:40-42 | the last COLORCORR line alone decides the colour correction |
| HdrHeader.FirstFailing | sh-generator/src/HDR.js:33-42 | the index found is a failing line and all earlier lines pass; none found means all pass |
| HdrHeader.FoldFails | sh-generator/src/HDR.js:25-44 | the fold fails exactly when some line fails, with the error of the first failing line |
| HdrHeader.FoldFailsAt | sh-generator/src/HDR.js:25-44 | the first failing line's error is the fold's result |
| HdrHeader.HeaderLoopAfterLine | sh-generator/src/HDR.js:25-44 | proof step: after one line read, a failing directive stops the loop, a blank line ends it after being applied, and any other line continues it |
| HdrHeader.HeaderLoopReadsLines | sh-generator/src/HDR.js:25-44 | over directive lines ended by a blank line, the loop gives the fold of those lines and stops right after the blank line |
| HdrHeader.HeaderLoopOfLines | sh-generator/src/HDR.js:25-44 | the same, as one equation on the loop's result |
| HdrHeader.LinesEncodedRead | sh-generator/src/HDR.js:25-27 | encoded non-blank lines and a blank line are read back one by one by the line reader |
| HdrHeader.EncodedLinesAt | sh-generator/src/HDR.js:25-27 | a buffer holding the encoded lines and a newline lays them out and leaves the rest after them |
| HdrHeader.HeaderLoopStopsAtFailure | sh-generator/src/HDR.js:25-44 | over non-blank lines whose fold fails, the header loop fails with the fold's error; the failing line is the last one read |
| HdrHeader.SuffixLinesAt | sh-generator/src/HDR.js:25-27 | encoded non-blank lines followed by anything are read back one by one |
| HdrHeader.LinesAtCons | sh-generator/src/HDR.js:25-27 | proof step: lines read one by one, from the first line and the rest |
| HdrHeader.ParseSize | sh-generator/src/HDR.js:52-70 | `+X`/`-X` set the width, `-Y`/`+Y` the height, any other label leaves both |
| HdrHeader.ResolutionPairs | sh-generator/src/HDR.js:46-49 | the resolution line's first label/number pair is applied, then the second |
| HdrHeader.StandardResolution | sh-generator/src/HDR.js:46-49 | `-Y h +X w` yields width `parseInt(w)` and height `parseInt(h)` |
| HdrHeader.ParseHeader | sh-generator/src/HDR.js:19-50 | a parsed header ends inside the buffer; it fails only with a header error |
| HdrHeader.SignatureChecked | sh-generator/src/HDR.js:21-23 | "incorrect file format" exactly when a first line can be read and is neither signature |
| HdrHeader.ParseHeaderOk | sh-generator/src/HDR.js:19-50 | proof step: a signature, a completed header loop and a resolution line give that header, size and end |
| HdrHeader.ParseHeaderLoopErr | sh-generator/src/HDR.js:25-44 | proof step: an error of the header loop is the error of the header |
| HdrHeader.ParseHeaderOf | sh-generator/src/HDR.js:19-50 | an encoded header (signature, directives, blank line, resolution) followed by data parses to the fold of its directives, its resolution, and the offset of the data |
| HdrRle.Copies | sh-generator/src/HDR.js:119-121 | `n` copies of one byte |
| HdrRle.ParseRun | sh-generator/src/HDR.js:114-127 | a read run ends inside the buffer after its control byte and payload; any failure is a range error |
| HdrRle.ParseRunReads | sh-generator/src/HDR.js:114-127 | the bytes a run read consumes are exactly that run's encoding |
| HdrRle.ParseRunOf | sh-generator/src/HDR.js:114-127 | an encoded run is read back as that run |
| HdrRle.DecodeRuns | sh-generator/src/HDR.js:113-128 | the run loop yields at least the components needed, extending what it had, or fails with a range error |
| HdrRle.DecodeRunsStep | sh-generator/src/HDR.js:113-128 | proof step: short of the count, the loop reads one run and continues after it |
| HdrRle.DecodeRunsOf | sh-generator/src/HDR.js:113-128 | runs found one after another that just reach the count decode to their expansions and consume exactly their encodings |
| HdrRle.EncodedAtRunsAt | sh-generator/src/HDR.js:114-127 | encodings laid out back to back are read back as those runs |
| HdrRle.SuffixEncodedAt | sh-generator/src/HDR.js:114-127 | a buffer continuing with the runs' encodings lays them out back to back |
| HdrRle.RunsRoundTrip | sh-generator/src/HDR.js:113-128 | decoding encoded runs that just fill the count gives their expansions and stops right after them, whatever follows |
| HdrRle.FillsExactlyCovers | sh-generator/src/HDR.js:113 | runs that fill the count exactly hold at least that many components |
| HdrRle.DecodeLaidOutRuns | sh-generator/src/HDR.js:113-128 | runs laid out from an offset that fill the count decode to their expansions and the offset after them |
| HdrRle.RepeatLength | sh-generator/src/HDR.js:115-122 | encoder, not in the source; the longest prefix (at most 127) of bytes equal to the first |
| HdrRle.LiteralLength | sh-generator/src/HDR.js:123-127 | encoder, not in the source; a literal length between 1 and 128 that fits the data |
| HdrRle.FirstRun | sh-generator/src/HDR.js:113-127 | encoder, not in the source; the first run expands to a non-empty prefix of the data |
| HdrRle.Compress | sh-generator/src/HDR.js:113-127 | encoder, not in the source; runs with non-empty expansions that expand back to the data |
| HdrRle.NonEmptyRunsFill | sh-generator/src/HDR.js:113 | encoder, not in the source; non-empty runs adding up to the count fill it exactly |
| HdrRle.CompressRoundTrip | sh-generator/src/HDR.js:113-128 | the run loop decodes the encoder's output back to the original component bytes |
| HdrPixels.Pow2Succ | sh-generator/src/HDR.js:137 | each step of the exponent doubles |
| HdrPixels.Scale | sh-generator/src/HDR.js:137 | the exponent factor is never negative, and is zero exactly for exponent byte 0 |
| HdrPixels.ScaleSteps | sh-generator/src/HDR.js:136-137 | consecutive non-zero exponents double the factor, and 136 is the unit |
| HdrPixels.ScaleIsMantissaFraction | sh-generator/src/HDR.js:136-137 | bias 136 equals the usual bias 128 with the component read as a fraction of 256 |
| HdrPixels.RowValuesAt | sh-generator/src/HDR.js:131-141 | channel `c` of pixel `x` sits at `3x + c` and is the component of plane `c` times the exponent factor, the exposure and the colour correction |
| HdrPixels.ZeroExponentIsBlack | sh-generator/src/HDR.js:137-141 | a pixel with exponent byte 0 has three zero channels |
| HdrPixels.ZeroExponentChannel | sh-generator/src/HDR.js:137-141 | each channel of such a pixel is zero |
| HdrDecoder.ScanlineStart | sh-generator/src/HDR.js:100-106 | success exactly when four bytes are there, the first two are the 0x0202 marker and the next two the picture width, and then the runs start four bytes later; an incorrect scanline hash exactly when two bytes are there and are not the marker; a width mismatch exactly when four bytes are there, the marker is right and the width is not; any other failure is a read past the end |
| HdrDecoder.DecodeRow | sh-generator/src/HDR.js:99-142 | a decoded scanline has three values per pixel and ends after its header; it fails only with a scanline error |
| HdrDecoder.RowOffsetProduct | sh-generator/src/HDR.js:95 | `y` rows of `w` pixels hold `3 w y` values |
| HdrDecoder.RowOffsetBelow | sh-generator/src/HDR.js:139-141 | each earlier row ends no later than row `n` starts |
| HdrDecoder.DecodeRows | sh-generator/src/HDR.js:99-143 | the rows loop reads each scanline where the previous one ended; the rows decoded hold three values per pixel and end inside the buffer; any failure is a scanline error |
| HdrDecoder.RowAtReads | sh-generator/src/HDR.js:99-142 | the scanline decoder, as a reader, gives three values per pixel, stays inside the buffer and fails only with scanline errors |
| HdrDecoder.RowLoopSpec | sh-generator/src/HDR.js:99-143 | for a reader with those properties, `n` rows hold three values per pixel per row and fail only with scanline errors |
| HdrDecoder.Zeros | sh-generator/src/HDR.js:95 | a fresh output array is all zeros |
| HdrDecoder.NonNegativeWidth | sh-generator/src/HDR.js:93-99 | with a positive height and an array length that is not negative, the width is not negative |
| HdrDecoder.ParseNewRle | sh-generator/src/HDR.js:91-146 | a pixel count whose `3 * width * height` values are negative or above 2^53 - 1 is a range error; otherwise the output holds exactly that many values; failures are scanline errors |
| HdrDecoder.ParseData | sh-generator/src/HDR.js:81-89 | the same for the pixel data, plus the obsolete-version error when the marker is missing; an output length always lies within 2^53 - 1 |
| HdrDecoder.Decode | sh-generator/src/HDR.js:3-17 | a decoded image has three values per pixel; a failure is a header or data error |
| HdrDecoder.ComponentsAt | sh-generator/src/HDR.js:110-128 | component row `y` is the expansion of scanline `y`'s runs |
| HdrDecoder.LastStop | sh-generator/src/HDR.js:99-143 | the last scanline ends after the encoded length of all scanlines |
| HdrDecoder.RowsWide | sh-generator/src/HDR.js:107 | runs filling `4w` components give component rows of at least `4w` bytes |
| HdrDecoder.ImageValuesAt | sh-generator/src/HDR.js:130-142 | value `3 w y + 3 x + c` of the image is channel `c` of pixel `x` in row `y` |
| HdrDecoder.PictureValuesAt | sh-generator/src/HDR.js:130-142 | the image value of row `y`, pixel `x`, channel `c` is that channel of the row's expanded runs |
| HdrDecoder.ScanlineHead | sh-generator/src/HDR.js:100-104 | an encoded scanline header passes both checks |
| HdrDecoder.ScanlineSuffix | sh-generator/src/HDR.js:100-128 | an encoded scanline lays out its header and runs and leaves the rest after them |
| HdrDecoder.SuffixScanlinesAt | sh-generator/src/HDR.js:99-143 | encoded scanlines followed by anything are laid out one after another and end where their lengths add up |
| HdrDecoder.ScanlineRead | sh-generator/src/HDR.js:99-142 | a laid-out scanline whose runs fill `4w` decodes to the pixels of their expansion |
| HdrDecoder.ScanlinesRead | sh-generator/src/HDR.js:99-143 | laid-out scanlines are read one by one at their end offsets |
| HdrDecoder.DecodeRowsCons | sh-generator/src/HDR.js:99-143 | proof step: the rows loop is the first row, then the rest |
| HdrDecoder.RowsReadDecode | sh-generator/src/HDR.js:99-143 | scanlines read one by one give the concatenation of their values and the last end offset |
| HdrDecoder.RowsReadHead | sh-generator/src/HDR.js:99-143 | proof step: the first of the rows read, and where the others start |
| HdrDecoder.LoopStops | sh-generator/src/HDR.js:99-143 | once the reader fails after the rows it passes, the loop fails with that error and reads nothing more |
| HdrDecoder.RowsReadPasses | sh-generator/src/HDR.js:99-143 | proof step: rows the decoder reads are rows the scanline reader passes |
| HdrDecoder.FailingRowStops | sh-generator/src/HDR.js:99-104 | after any number of rows the decoder reads, a scanline that fails (bad start or runs past the end) fails the whole rows loop with its error, whatever follows it |
| HdrDecoder.ScanlinesDecode | sh-generator/src/HDR.js:99-143 | laid-out scanlines decode to the picture values and stop after the last one |
| HdrFile.DecodeOf | sh-generator/src/HDR.js:3-17 | proof step: a parsed header and parsed data make the image of the header's size |
| HdrFile.DecodeDataErr | sh-generator/src/HDR.js:15 | proof step: a data error is the decoder's error |
| HdrFile.DecodeHeaderErr | sh-generator/src/HDR.js:14 | proof step: a header error is the decoder's error; no data is read |
| HdrFile.DecodeSignature | sh-generator/src/HDR.js:21-23 | the decoder rejects the file format exactly when the first line is readable and not a signature |
| HdrFile.DirectivesReject | sh-generator/src/HDR.js:25-44 | a signature followed by non-blank directive lines whose fold fails makes the decoder fail with that error, whatever bytes follow them: no blank line or resolution line is needed |
| HdrFile.DirectiveFailureRejects | sh-generator/src/HDR.js:33-42 | the first unsupported FORMAT or valueless COLORCORR line decides the decoder's error, whatever bytes follow the lines |
| HdrFile.DataMarkerRequired | sh-generator/src/HDR.js:83-88 | "obsolete version" exactly when the two bytes after the header are readable and not `0x0202` |
| HdrFile.NegativeSizeRejected | sh-generator/src/HDR.js:93-95 | a negative pixel count is a range error |
| HdrFile.OversizedPictureRejected | sh-generator/src/HDR.js:93-95 | more than 2^53 - 1 output values is a range error, before any scanline is read |
| HdrFile.HugeWidthRejected | sh-generator/src/HDR.js:93-104 | a 4000000000000000 by 1 picture whose data is `02 02 00 00` fails with the range error, not with a width mismatch |
| HdrFile.EmptyPicture | sh-generator/src/HDR.js:95-99 | with height 0 or less and an output length within 2^53 - 1, no scanline is read and the output is all zeros |
| HdrFile.WidthMismatchStops | sh-generator/src/HDR.js:103-104 | a first scanline whose width differs from the picture width is rejected |
| HdrFile.ScanlineErrorStops | sh-generator/src/HDR.js:99-104 | after any number of rows the decoder reads, a scanline whose start fails rejects the pixel data with that error, whatever follows it |
| HdrFile.ScanlineHashChecked | sh-generator/src/HDR.js:99-101 | after any number of scanlines the decoder reads, one that does not start with the marker rejects the pixel data as an incorrect scanline hash, whatever follows it |
| HdrFile.WidthMismatchAtRow | sh-generator/src/HDR.js:103-104 | after any number of rows the decoder reads, a scanline with the marker but another width rejects the pixel data as a width mismatch |
| HdrFile.CorruptScanlineRejected | sh-generator/src/HDR.js:99-101 | encoded scanlines that do not exhaust the height, followed by two bytes other than the marker, are rejected as an incorrect scanline hash |
| HdrFile.ParseDataOf | sh-generator/src/HDR.js:81-89 | after the marker, the pixel data is the decoded rows |
| HdrFile.ScanlinesData | sh-generator/src/HDR.js:81-146 | encoded scanlines followed by anything parse to the picture values |
| HdrFile.PictureRoundTrip | sh-generator/src/HDR.js:3-146 | an encoded header followed by encoded scanlines decodes to the image of the resolution's size holding the scanlines' pixel values, when its `3 * width * height` values fit a typed array |
| HdrFile.CompressRowsFill | sh-generator/src/HDR.js:107-128 | encoder, not in the source; the encoder's runs fill each row's `4w` components and expand back to the rows |
| HdrFile.CompressedPictureRoundTrip | sh-generator/src/HDR.js:3-146 | component rows, encoded and wrapped in a header, decode to the image of those rows, when its `3 * width * height` values fit a typed array |
| HdrFile.ExampleComponents | sh-generator/src/HDR.js:113-127 | two literal runs expand to the planes R = 10 20, G = 30 40, B = 50 60, E = 137 137 |
| HdrFile.ExampleValues | sh-generator/src/HDR.js:130-142 | the runs fill the row, and exponent 137 doubles each component: the pixels are (20, 60, 100) and (40, 80, 120) |
| HdrFile.ExampleResolutionRead | sh-generator/src/HDR.js:46-49 | `-Y 1 +X 2` reads as width 2, height 1 |
| HdrFile.ExampleDecodes | sh-generator/src/HDR.js:3-146 | a file with the signature, `FORMAT=32-bit_rle_rgbe`, a blank line, `-Y 1 +X 2` and that one scanline decodes to the 2 by 1 image (20, 60, 100), (40, 80, 120) |
| HdrFile.ExampleLinesText | sh-generator/src/HDR.js:25-27 | proof step: the example's FORMAT line is non-empty header text |
| HdrFile.ExampleResolutionText | sh-generator/src/HDR.js:46 | proof step: `-Y 1 +X 2` is header text |
| HdrFile.ExampleFormatRead | sh-generator/src/HDR.js:33-36 | `FORMAT=32-bit_rle_rgbe` is accepted and changes nothing |
| HdrFile.ExampleHeader | sh-generator/src/HDR.js:25-44 | the example's directives leave the initial exposure and colour correction |
| HdrFile.BadFormatParts | sh-generator/src/HDR.js:28-29 | `FORMAT=bad` names FORMAT and carries `bad` |
| HdrFile.BadValueUnsupported | sh-generator/src/HDR.js:34 | proof step: `bad` is neither supported format |
| HdrFile.BadFormatText | sh-generator/src/HDR.js:25-27 | proof step: `FORMAT=bad` is non-empty header text |
| HdrFile.BadFormatFails | sh-generator/src/HDR.js:33-36 | `FORMAT=bad` is a failing line whose error is "incorrect encoding format" |
| HdrFile.ExampleBadFormat | sh-generator/src/HDR.js:33-36 | a file holding only the signature and `FORMAT=bad` is rejected with "incorrect encoding format", with no blank line or resolution after it |
| ShTables.BandSizes | sh-generator/src/SHGenerator.js:10-34 | band `l` holds coefficients `l*l` to `(l+1)^2 - 1` |
| ShTables.IrrConstantsByBand | sh-generator/src/SHGenerator.js:10-20 | each factor is its band's: pi, 2 pi / 3, pi / 4 |
| ShTables.IrrConstantsDecrease | sh-generator/src/SHGenerator.js:10-20 | a higher band has a smaller factor |
| ShTables.ShConstantsShared | sh-generator/src/SHGenerator.js:22-34 | band 1 shares `l1`; band 2 uses `l2_1` at 4, 5 and 7, `l2_2` at 6 and `l2_3` at 8 |
| ShTables.L2Ratio | sh-generator/src/SHGenerator.js:4-6 | `l2_1` is twice `l2_3` |
| ShTables.BasisParity | sh-generator/src/SHGenerator.js:96-106 | the band-1 values change sign with the direction and the others do not |
| ShProjector.RangeAt | sh-generator/src/SHGenerator.js:67-77 | entry `k` is `lo + k`: every index once, in increasing order |
| ShProjector.RangeAppend | sh-generator/src/SHGenerator.js:65-83 | consecutive intervals join into one |
| ShProjector.PixelPosition | sh-generator/src/SHGenerator.js:68-69 | for a positive width, the column is within the row and row times width plus column is the index |
| ShProjector.RowIsFloor | sh-generator/src/SHGenerator.js:69 | the row is the floor of `p / width` for either sign of the width |
| ShProjector.SumsAt | sh-generator/src/SHGenerator.js:111-116 | the accumulated coefficient `i` is the sum of the first `n` pixels' contributions |
| ShProjector.WeightSumPositive | sh-generator/src/SHGenerator.js:108-109 | with positive weights the total weight of at least one pixel is positive |
| ShProjector.Reset | sh-generator/src/SHGenerator.js:50-61 | nine black coefficients, cursor 0, zero weight, sample count `width * height`, nothing visited |
| ShProjector.ResetInvariant | sh-generator/src/SHGenerator.js:50-61 | a reset projector on an image with pixels satisfies the invariant |
| ShProjector.Accumulate | sh-generator/src/SHGenerator.js:85-117 | one sample changes only the coefficients and the total weight |
| ShProjector.Visit | sh-generator/src/SHGenerator.js:68-73 | visiting the pixel at the cursor keeps the sums equal to the reference sums, records that pixel and advances the cursor by one |
| ShProjector.VisitSums | sh-generator/src/SHGenerator.js:68-73 | accumulating pixel `p` at column `p % w`, row `floor(p / w)` with its three values extends the reference sums by pixel `p` |
| ShProjector.RunBatch | sh-generator/src/SHGenerator.js:67-77 | the batch loop stops at the batch end or the last pixel, and it finishes exactly when it reaches the last pixel |
| ShProjector.DoPart | sh-generator/src/SHGenerator.js:65-83 | one part advances the cursor by the batch size or to the end and visits exactly those pixels in order; at the end it reports nothing and schedules the finish, otherwise it reports progress `p / numSamples` |
| ShProjector.IrradianceFactor | sh-generator/src/SHGenerator.js:121-123 | with irradiance on, the scale is the band factor times the plain scale |
| ShProjector.FinalisedAt | sh-generator/src/SHGenerator.js:119-128 | final coefficient `i` is the reference sum times its factor and `4 pi / totalWeight`, with a positive total weight |
| ShProjector.Finish | sh-generator/src/SHGenerator.js:119-135 | finishing changes only the coefficients, to the finalised sums, then reports progress 1 and completion with them |
| ShProjector.Step | sh-generator/src/SHGenerator.js:65-83 | a step keeps the projector runnable; a finished projector does nothing |
| ShProjector.Run | sh-generator/src/SHGenerator.js:65-135 | any number of steps keeps the projector runnable |
| ShProjector.Generate | sh-generator/src/SHGenerator.js:50-63 | generate resets and runs the first part: the first `min(10000, N)` pixels, in order |
| ShProjector.BatchesBound | sh-generator/src/SHGenerator.js:67-76 | batch `k` starts before the last pixel exactly when `k` is below the number of parts |
| ShProjector.ProgressEvents | sh-generator/src/SHGenerator.js:79-80 | one progress report per part before the last |
| ShProjector.ProgressIncreasing | sh-generator/src/SHGenerator.js:79-80 | the reported fractions strictly increase |
| ShProjector.ProgressBelowOne | sh-generator/src/SHGenerator.js:79-80 | every report before the finish is below 1 |
| ShProjector.LastBatch | sh-generator/src/SHGenerator.js:73-76 | the last part, then the finish, complete the run with the finalised coefficients |
| ShProjector.RunCons | sh-generator/src/SHGenerator.js:82 | proof step: running `m` steps is one step, then `m - 1` more |
| ShProjector.MiddleBatch | sh-generator/src/SHGenerator.js:79-82 | a part that does not reach the end reports its progress and leaves a running projector 10000 pixels further on |
| ShProjector.RunFrom | sh-generator/src/SHGenerator.js:65-135 | from any batch boundary the remaining steps complete the run with the remaining progress reports, progress 1 and completion |
| ShProjector.WholeRun | sh-generator/src/SHGenerator.js:50-135 | generate is the first step; after `ceil(N / 10000) + 1` steps every pixel has been accumulated once, in order, and the reports are the progress fractions, then 1, then completion with the finalised coefficients |
| ShProjector.DoneStaysDone | sh-generator/src/SHGenerator.js:119-135 | after the finish, further steps change nothing and report nothing |
| ShProjector.CompletesOnce | sh-generator/src/SHGenerator.js:79-80 | completion is reported once, last, right after progress 1; every earlier report is progress below 1 |
| ShProjector.DecodedWellFormed | sh-generator/src/HDR.js:95 | a decoded picture of positive size gives the projector a well-formed image |
| ShProjector.DecodedPixel | sh-generator/src/SHGenerator.js:68-71 | for a decoded picture, the pixel at index `y w + x` is at column `x`, row `y`, and its three values are the decoded channels of that pixel |

## Left out

- Floating point: all values are mathematical reals.
  - The `Float32Array` rounding of pixel values is not modelled.
  - Nor is the order of the source's left-to-right real products: `HdrPixels.Channel` groups the factors after the component, which is equal over the reals.
  - NaN and infinities are not modelled.
- `Math.sqrt`, `Math.PI`, `Math.cos` and `Math.sin` are not computed.
  - `pi` is a positive real parameter.
  - The five normalisation constants are pinned by their squares (`ShTables.IsNorms`).
  - The direction and weight of each pixel are the uninterpreted `Sampling` functions.
  - The weight is assumed positive (`PositiveWeights`), since `cos(phi)` for `phi` in `[-pi/2, pi/2]` is positive in floating point: `Math.cos(Math.PI / 2)` is about 6.1e-17. The end `pi/2` is reached when the width and the height are both negative.
- `parseFloat`, `parseInt`, and the trim/split/coerce of a COLORCORR value are uninterpreted (`Conversions`).
- The `GAMMA` value is stored in the header state but is never used by the decoder.
- `console.warn` for `-X`/`+Y` is output only. The flipped orientation is not supported by the source either.
- `setTimeout` scheduling and the event loop are left out: every scheduled call is one `ShProjector.Step`, taken in order.
- The `onProgress`/`onComplete` null checks: both callbacks are taken as set, and their calls are recorded as events.
- ShProjector.WellFormed: requires an image with at least one pixel. With `width * height < 1` the source's `++p === numSamples` test never holds, so its parts never finish.
- `ShProjector.Projector.trace` is a record of the pixels passed to `_accumulate`. It exists so that coverage and order can be stated; the source keeps no such list.
- The module-level `sh` scratch array of `_accumulate` is modelled as the value `Basis(norms, dir(x, y))`.
- `main.js`, the bundled `build/` script, `gulpfile.js` and the page code that loads files and shows results are not part of this model.
- ShProjector.Reset: takes the `irradiance` flag when `generate` starts, whereas the source reads `this.irradiance` only in `_finish`. A flag changed in the middle of a run is not modelled.
- HdrDecoder.ParseNewRle: models only the 2^53 - 1 length limit of `new Float32Array`. An engine also throws a `RangeError` when it cannot allocate `4 * 3 * width * height` bytes, and that limit depends on the engine and the machine. The lemmas about what happens after the array is sized (the round trips, the empty picture and the scanline errors) require an output length within 2^53 - 1 and say nothing about memory.
- The encoders (`HdrRle.Compress`, `HdrDecoder.EncodeScanline`, `HdrHeader.EncodeHeader`) are not part of the source. They exist only to state the round trips.

Where the code and the format description differ, the model follows the code:
- `_parseData` checks the `0x0202` marker even when the height is 0.
- The first scanline's marker is checked twice.
- The last run of a scanline may produce more than `4 * width` components: the extra components are dropped, and the cursor still moves past them.
- A negative pixel count, or more than 2^53 - 1 output values, fails when the `Float32Array` is allocated, before any scanline is read. Within that bound, a negative height with a non-positive width gives an all-zero picture.
