/**
 * The textual header of a Radiance picture: directive lines folded into the decoder
 * state, the header loop that stops at the first blank line, and the resolution line.
 */
module HdrHeader {
  import opened Results
  import opened Color
  import opened HdrBytes

  /**
   * Text-to-number conversions the decoder leaves to the JavaScript runtime:
   * `parseFloat`, `parseInt`, and the trimming, splitting and coercion that turns
   * a COLORCORR value into three channel factors.
   */
  datatype Conversions = Conversions(
    parseFloat: string -> real,
    parseInt: string -> int,
    colorCorr: string -> Rgb)

  /** What the header contributes to decoding. */
  datatype Header = Header(exposure: real, colorCorr: Rgb, gamma: Option<real>)

  /** Exposure 1, unit colour correction, no gamma. */
  const InitialHeader := Header(1.0, Rgb(1.0, 1.0, 1.0), None)

  const RadianceSignature := "#?RADIANCE"
  const RgbeSignature := "#?RGBE"

  /** The first lines a Radiance picture may start with. */
  const Signatures: set<string> := {RadianceSignature, RgbeSignature}

  predicate IsSignature(line: string) {
    line in Signatures
  }

  const SupportedFormats: set<string> := {"32-bit_rle_rgbe", "32-bit_rle_xyze"}

  /** The directives the decoder acts on; any other name is ignored. */
  datatype Directive = Gamma | Format | Exposure | ColorCorr | Unknown

  function Classify(name: string): Directive {
    if name == "GAMMA" then Gamma
    else if name == "FORMAT" then Format
    else if name == "EXPOSURE" then Exposure
    else if name == "COLORCORR" then ColorCorr
    else Unknown
  }

  /** The text before the first '=' of a header line. */
  function DirectiveName(line: string): string {
    Split(line, '=')[0]
  }

  function DirectiveOf(line: string): Directive {
    Classify(DirectiveName(line))
  }

  /** The text between the first and second '=', if there is a first '='. */
  function DirectiveValue(line: string): Option<string> {
    Part(Split(line, '='), 1)
  }

  /** A line `name=value` with no other '=' names the directive `name` and carries `value`. */
  lemma DirectiveParts(name: string, value: string)
    requires '=' !in name && '=' !in value
    ensures DirectiveOf(name + ['='] + value) == Classify(name)
    ensures DirectiveValue(name + ['='] + value) == Some(value)
  {
    SplitAfter(name, '=', value);
    SplitWithout(value, '=');
  }

  /** The line is a FORMAT with an unsupported value, or a COLORCORR without a value. */
  predicate DirectiveFails(line: string) {
    || (DirectiveOf(line) == Format
        && (DirectiveValue(line).None? || DirectiveValue(line).value !in SupportedFormats))
    || (DirectiveOf(line) == ColorCorr && DirectiveValue(line).None?)
  }

  function DirectiveError(line: string): DecodeError {
    if DirectiveOf(line) == Format then IncorrectEncodingFormat else MissingColorCorr
  }

  /** The number an EXPOSURE line carries. */
  function ExposureValue(line: string, conv: Conversions): real {
    conv.parseFloat(TextOrEmpty(DirectiveValue(line)))
  }

  /** Folds one header line into the header state. */
  function ApplyDirective(h: Header, line: string, conv: Conversions): (r: Result<Header, DecodeError>)
    ensures r.Err? <==> DirectiveFails(line)
    ensures r.Err? ==> r.error == DirectiveError(line)
    ensures DirectiveOf(line) == Unknown ==> r == Ok(h)
    ensures r.Ok? && DirectiveOf(line) == Exposure ==> r.value.exposure == h.exposure * ExposureValue(line, conv)
    ensures r.Ok? && DirectiveOf(line) != Exposure ==> r.value.exposure == h.exposure
    ensures r.Ok? && DirectiveOf(line) != ColorCorr ==> r.value.colorCorr == h.colorCorr
  {
    var value := DirectiveValue(line);
    match DirectiveOf(line)
    case Gamma => Ok(h.(gamma := Some(conv.parseFloat(TextOrEmpty(value)))))
    case Format =>
      if value.Some? && value.value in SupportedFormats then Ok(h) else Err(IncorrectEncodingFormat)
    case Exposure => Ok(h.(exposure := h.exposure * ExposureValue(line, conv)))
    case ColorCorr =>
      if value.Some? then Ok(h.(colorCorr := conv.colorCorr(value.value))) else Err(MissingColorCorr)
    case Unknown => Ok(h)
  }

  /** Reference semantics of the header: the directive lines applied in order. */
  function FoldDirectives(h: Header, lines: seq<string>, conv: Conversions): Result<Header, DecodeError>
    decreases |lines|
  {
    if |lines| == 0 then Ok(h)
    else
      var h' :- ApplyDirective(h, lines[0], conv);
      FoldDirectives(h', lines[1..], conv)
  }

  /** The values of the EXPOSURE lines among `lines`, in order. */
  function ExposureValues(lines: seq<string>, conv: Conversions): (vs: seq<real>)
    ensures |vs| <= |lines|
  {
    if |lines| == 0 then []
    else if DirectiveOf(lines[0]) == Exposure then [ExposureValue(lines[0], conv)] + ExposureValues(lines[1..], conv)
    else ExposureValues(lines[1..], conv)
  }

  /** `e` multiplied by each of `xs` in turn. */
  function ScaledBy(e: real, xs: seq<real>): real
    decreases |xs|
  {
    if |xs| == 0 then e else ScaledBy(e * xs[0], xs[1..])
  }

  lemma ScaledByStep(e: real, xs: seq<real>, e1: real)
    requires |xs| > 0 && e1 == e * xs[0]
    ensures ScaledBy(e, xs) == ScaledBy(e1, xs[1..])
  {
  }

  /** Scaling by `v` first, then by the rest. */
  lemma ScaledByCons(e: real, v: real, rest: seq<real>, e1: real)
    requires e1 == e * v
    ensures ScaledBy(e, [v] + rest) == ScaledBy(e1, rest)
  {
    var xs := [v] + rest;
    assert xs[0] == v && xs[1..] == rest;
    ScaledByStep(e, xs, e1);
  }

  /**
   * Reads directive lines from `off` until a blank line, folding each into `h`;
   * returns the state and the offset just past the blank line.
   */
  function HeaderLoop(buf: seq<byte>, off: nat, h: Header, conv: Conversions)
    : (r: Result<(Header, nat), DecodeError>)
    requires off <= |buf|
    ensures r.Ok? ==> off < r.value.1 <= |buf|
    ensures r.Err? ==> r.error == OutOfRange || r.error == IncorrectEncodingFormat || r.error == MissingColorCorr
    decreases |buf| - off
  {
    var read :- ReadLine(buf, off);
    var h' :- ApplyDirective(h, read.0, conv);
    if read.0 == "" then Ok((h', read.1)) else HeaderLoop(buf, read.1, h', conv)
  }

  // ----- Properties of the directive fold -----

  /** The first line is applied first. */
  lemma FoldStep(h: Header, lines: seq<string>, conv: Conversions)
    requires |lines| > 0
    ensures var r := ApplyDirective(h, lines[0], conv);
            && (r.Err? ==> FoldDirectives(h, lines, conv) == Err(r.error))
            && (r.Ok? ==> FoldDirectives(h, lines, conv) == FoldDirectives(r.value, lines[1..], conv))
  {
  }

  /** Folding a concatenation is folding its halves in turn. */
  lemma {:induction false} FoldAppend(h: Header, a: seq<string>, b: seq<string>, conv: Conversions)
    ensures FoldDirectives(h, a, conv).Err? ==> FoldDirectives(h, a + b, conv) == FoldDirectives(h, a, conv)
    ensures FoldDirectives(h, a, conv).Ok? ==>
              FoldDirectives(h, a + b, conv) == FoldDirectives(FoldDirectives(h, a, conv).value, b, conv)
    decreases |a|
  {
    if |a| > 0 {
      assert (a + b)[0] == a[0] && (a + b)[1..] == a[1..] + b;
      var r := ApplyDirective(h, a[0], conv);
      if r.Ok? {
        FoldAppend(r.value, a[1..], b, conv);
        assert FoldDirectives(h, a + b, conv) == FoldDirectives(r.value, a[1..] + b, conv);
        assert FoldDirectives(h, a, conv) == FoldDirectives(r.value, a[1..], conv);
      } else {
        assert FoldDirectives(h, a + b, conv) == Err(r.error);
        assert FoldDirectives(h, a, conv) == Err(r.error);
      }
    } else {
      assert a + b == b;
    }
  }

  /**
   * Repeated EXPOSURE directives compound: the exposure is the initial one scaled by each
   * EXPOSURE value in turn, and no other directive changes it.
   */
  lemma {:induction false} ExposureCompounds(h: Header, lines: seq<string>, conv: Conversions)
    requires FoldDirectives(h, lines, conv).Ok?
    ensures FoldDirectives(h, lines, conv).value.exposure == ScaledBy(h.exposure, ExposureValues(lines, conv))
    decreases |lines|
  {
    if |lines| > 0 {
      FoldStep(h, lines, conv);
      var h' := ApplyDirective(h, lines[0], conv).value;
      ExposureCompounds(h', lines[1..], conv);
      if DirectiveOf(lines[0]) == Exposure {
        var v, rest := ExposureValue(lines[0], conv), ExposureValues(lines[1..], conv);
        assert ExposureValues(lines, conv) == [v] + rest;
        ScaledByCons(h.exposure, v, rest, h'.exposure);
      } else {
        assert ExposureValues(lines, conv) == ExposureValues(lines[1..], conv);
        assert h'.exposure == h.exposure;
      }
    }
  }

  /** Two EXPOSURE lines with values 2 and 3 and no other: the exposure is multiplied by 6. */
  lemma ExposureTwoAndThree(h: Header, lines: seq<string>, conv: Conversions)
    requires FoldDirectives(h, lines, conv).Ok? && ExposureValues(lines, conv) == [2.0, 3.0]
    ensures FoldDirectives(h, lines, conv).value.exposure == 6.0 * h.exposure
  {
    ExposureCompounds(h, lines, conv);
    assert ScaledBy(h.exposure, [2.0, 3.0]) == ScaledBy(h.exposure * 2.0, [3.0]);
    assert [3.0][1..] == [];
  }

  /** Without a COLORCORR line the colour correction is left as it was. */
  lemma {:induction false} ColorCorrUntouched(h: Header, lines: seq<string>, conv: Conversions)
    requires forall k | 0 <= k < |lines| :: DirectiveOf(lines[k]) != ColorCorr
    requires FoldDirectives(h, lines, conv).Ok?
    ensures FoldDirectives(h, lines, conv).value.colorCorr == h.colorCorr
    decreases |lines|
  {
    if |lines| > 0 {
      ColorCorrUntouched(ApplyDirective(h, lines[0], conv).value, lines[1..], conv);
    }
  }

  /** The last COLORCORR line decides the colour correction. */
  lemma ColorCorrLastWins(h: Header, lines: seq<string>, i: nat, conv: Conversions)
    requires i < |lines| && DirectiveOf(lines[i]) == ColorCorr
    requires forall k | i < k < |lines| :: DirectiveOf(lines[k]) != ColorCorr
    requires FoldDirectives(h, lines, conv).Ok?
    ensures DirectiveValue(lines[i]).Some?
    ensures FoldDirectives(h, lines, conv).value.colorCorr == conv.colorCorr(DirectiveValue(lines[i]).value)
  {
    var before, at, after := lines[..i], [lines[i]], lines[i + 1..];
    assert lines == before + (at + after);
    FoldAppend(h, before, at + after, conv);
    var hb := FoldDirectives(h, before, conv).value;
    FoldAppend(hb, at, after, conv);
    assert FoldDirectives(hb, at, conv) == ApplyDirective(hb, lines[i], conv);
    var hi := ApplyDirective(hb, lines[i], conv).value;
    ColorCorrUntouched(hi, after, conv);
  }

  /** The index of the first line that fails, if any. */
  function FirstFailing(lines: seq<string>): (k: Option<nat>)
    ensures k.Some? ==> && k.value < |lines| && DirectiveFails(lines[k.value])
                        && forall j | 0 <= j < k.value :: !DirectiveFails(lines[j])
    ensures k.None? ==> forall j | 0 <= j < |lines| :: !DirectiveFails(lines[j])
    decreases |lines|
  {
    if |lines| == 0 then None
    else if DirectiveFails(lines[0]) then Some(0)
    else
      var later := FirstFailing(lines[1..]);
      assert forall j | 1 <= j < |lines| :: lines[j] == lines[1..][j - 1];
      if later.None? then None else Some(later.value + 1)
  }

  /**
   * The fold fails exactly when some line fails, and then with the error of the first
   * failing line: the lines after it are not looked at.
   */
  lemma {:induction false} FoldFails(h: Header, lines: seq<string>, conv: Conversions)
    ensures FoldDirectives(h, lines, conv).Err? <==> FirstFailing(lines).Some?
    ensures FoldDirectives(h, lines, conv).Err? ==>
              FoldDirectives(h, lines, conv).error == DirectiveError(lines[FirstFailing(lines).value])
    decreases |lines|
  {
    if |lines| > 0 {
      var r := ApplyDirective(h, lines[0], conv);
      FoldStep(h, lines, conv);
      if r.Ok? {
        FoldFails(r.value, lines[1..], conv);
        var later := FirstFailing(lines[1..]);
        if later.Some? {
          assert lines[later.value + 1] == lines[1..][later.value];
        }
      }
    }
  }

  /** The first failing line, when known, names the fold's error. */
  lemma FoldFailsAt(h: Header, lines: seq<string>, conv: Conversions, k: nat, e: DecodeError)
    requires FirstFailing(lines) == Some(k) && e == DirectiveError(lines[k])
    ensures FoldDirectives(h, lines, conv) == Err(e)
  {
    FoldFails(h, lines, conv);
  }

  /** One turn of the header loop, given what `ReadLine` returned. */
  lemma HeaderLoopAfterLine(buf: seq<byte>, off: nat, line: string, next: nat, h: Header, conv: Conversions)
    requires off <= |buf|
    requires ReadLine(buf, off) == Ok((line, next))
    ensures var a := ApplyDirective(h, line, conv);
            && (a.Err? ==> HeaderLoop(buf, off, h, conv) == Err(a.error))
            && (a.Ok? && line == "" ==> HeaderLoop(buf, off, h, conv) == Ok((a.value, next)))
            && (a.Ok? && line != "" ==> HeaderLoop(buf, off, h, conv) == HeaderLoop(buf, next, a.value, conv))
  {
  }

  /**
   * From `off`, the reader returns the non-blank `lines` one after another and then a
   * blank line.
   */
  predicate LinesThenBlankAt(buf: seq<byte>, off: nat, lines: seq<string>)
    decreases |lines|
  {
    && off <= |buf|
    && if |lines| == 0 then ReadLine(buf, off) == Ok(("", off + 1))
       else
         && lines[0] != ""
         && ReadLine(buf, off) == Ok((lines[0], off + |lines[0]| + 1))
         && LinesThenBlankAt(buf, off + |lines[0]| + 1, lines[1..])
  }

  /** The number of bytes `lines` take with their line feeds. */
  function LinesLength(lines: seq<string>): nat {
    if |lines| == 0 then 0 else |lines[0]| + 1 + LinesLength(lines[1..])
  }

  /** The outcome of the directives, paired on success with the offset where reading resumes. */
  function AtOffset(f: Result<Header, DecodeError>, next: nat): (r: Result<(Header, nat), DecodeError>)
    ensures r.Ok? <==> f.Ok?
    ensures r.Ok? ==> r.value == (f.value, next)
    ensures r.Err? ==> r.error == f.error
  {
    match f
    case Ok(h) => Ok((h, next))
    case Err(e) => Err(e)
  }

  /** The loop over lines laid out as `LinesThenBlankAt` describes ends as their fold does. */
  lemma HeaderLoopOfLines(buf: seq<byte>, off: nat, lines: seq<string>, h: Header, conv: Conversions,
                          f: Result<Header, DecodeError>, next: nat)
    requires LinesThenBlankAt(buf, off, lines)
    requires f == FoldDirectives(h, lines, conv) && next == off + LinesLength(lines) + 1
    ensures HeaderLoop(buf, off, h, conv) == AtOffset(f, next)
  {
    HeaderLoopReadsLines(buf, off, lines, h, conv);
  }

  /**
   * The header loop over non-blank lines and a blank line reads exactly those lines,
   * folds them as `FoldDirectives` does, and stops just past the blank line: nothing
   * after it is read as a directive.
   */
  lemma {:induction false} HeaderLoopReadsLines(
    buf: seq<byte>, off: nat, lines: seq<string>, h: Header, conv: Conversions)
    requires LinesThenBlankAt(buf, off, lines)
    ensures off + LinesLength(lines) < |buf|
    ensures FoldDirectives(h, lines, conv).Err? ==>
              HeaderLoop(buf, off, h, conv) == Err(FoldDirectives(h, lines, conv).error)
    ensures FoldDirectives(h, lines, conv).Ok? ==>
              HeaderLoop(buf, off, h, conv) == Ok((FoldDirectives(h, lines, conv).value, off + LinesLength(lines) + 1))
    decreases |lines|
  {
    var next := if |lines| == 0 then off + 1 else off + |lines[0]| + 1;
    if |lines| == 0 {
      HeaderLoopAfterLine(buf, off, "", next, h, conv);
      assert Split("", '=') == [""];
    } else {
      HeaderLoopAfterLine(buf, off, lines[0], next, h, conv);
      FoldStep(h, lines, conv);
      var a := ApplyDirective(h, lines[0], conv);
      HeaderLoopReadsLines(buf, next, lines[1..], if a.Ok? then a.value else h, conv);
    }
  }

  /** The non-blank `lines`, each with its line feed, then a lone line feed, lie at `off`. */
  predicate LinesEncodedAt(buf: seq<byte>, off: nat, lines: seq<string>)
    decreases |lines|
  {
    && off < |buf|
    && if |lines| == 0 then buf[off] == Newline
       else
         && IsLineText(lines[0]) && lines[0] != ""
         && off + |lines[0]| < |buf|
         && buf[off..off + |lines[0]|] == ToBytes(lines[0]) && buf[off + |lines[0]|] == Newline
         && LinesEncodedAt(buf, off + |lines[0]| + 1, lines[1..])
  }

  /** Lines laid out with their line feeds and a blank line are read as such. */
  lemma {:induction false} LinesEncodedRead(buf: seq<byte>, off: nat, lines: seq<string>)
    requires LinesEncodedAt(buf, off, lines)
    ensures LinesThenBlankAt(buf, off, lines)
    decreases |lines|
  {
    if |lines| == 0 {
      ReadLineAt(buf, off, "", off + 1);
    } else {
      var next := off + |lines[0]| + 1;
      ReadLineAt(buf, off, lines[0], next);
      LinesEncodedRead(buf, next, lines[1..]);
      LinesThenBlankAtCons(buf, off, lines, next);
    }
  }

  /**
   * Lines encoded by `EncodeLines` and a blank line at the front of the bytes from `off`
   * are laid out as `LinesEncodedAt` says, and what follows starts after the blank line.
   */
  lemma {:induction false} EncodedLinesAt(buf: seq<byte>, off: nat, lines: seq<string>, rest: seq<byte>, stop: nat)
    requires forall k | 0 <= k < |lines| :: IsLineText(lines[k]) && lines[k] != ""
    requires off <= |buf| && buf[off..] == EncodeLines(lines) + [Newline] + rest
    requires stop == off + LinesLength(lines) + 1
    ensures LinesEncodedAt(buf, off, lines)
    ensures stop <= |buf| && buf[stop..] == rest
    decreases |lines|
  {
    if |lines| == 0 {
      assert buf[off] == buf[off..][0];
      assert buf[off + 1..] == buf[off..][1..];
    } else {
      var l0, ls := lines[0], lines[1..];
      assert IsLineText(l0) && l0 != "";
      assert forall k | 0 <= k < |ls| :: IsLineText(ls[k]) && ls[k] != "" by {
        forall k | 0 <= k < |ls| ensures IsLineText(ls[k]) && ls[k] != "" {
          assert ls[k] == lines[k + 1];
        }
      }
      var more := EncodeLines(ls) + [Newline] + rest;
      assert buf[off..] == ToBytes(l0) + [Newline] + more;
      LineSuffix(buf, off, l0, more);
      var next := off + |l0| + 1;
      EncodedLinesAt(buf, next, ls, rest, stop);
      LinesEncodedAtCons(buf, off, lines, next);
    }
  }

  /** `LinesEncodedAt` from its first line and the rest. */
  lemma LinesEncodedAtCons(buf: seq<byte>, off: nat, lines: seq<string>, next: nat)
    requires |lines| > 0 && IsLineText(lines[0]) && lines[0] != ""
    requires next == off + |lines[0]| + 1 <= |buf|
    requires buf[off..next - 1] == ToBytes(lines[0]) && buf[next - 1] == Newline
    requires LinesEncodedAt(buf, next, lines[1..])
    ensures LinesEncodedAt(buf, off, lines)
  {
  }

  /** Bytes, a line feed and a rest at the front of the suffix from `off`, taken apart. */
  lemma LineSuffix(buf: seq<byte>, off: nat, line: string, rest: seq<byte>)
    requires IsLatin1(line)
    requires off <= |buf| && buf[off..] == ToBytes(line) + [Newline] + rest
    ensures off + |line| < |buf| && buf[off..off + |line|] == ToBytes(line) && buf[off + |line|] == Newline
    ensures buf[off + |line| + 1..] == rest
  {
    var bs := ToBytes(line);
    assert buf[off..off + |line|] == buf[off..][..|bs|];
    assert buf[off + |line|] == buf[off..][|bs|];
    assert buf[off + |line| + 1..] == buf[off..][|bs| + 1..];
  }

  /** `LinesThenBlankAt` from its first line and the rest. */
  lemma LinesThenBlankAtCons(buf: seq<byte>, off: nat, lines: seq<string>, next: nat)
    requires off <= |buf| && |lines| > 0 && lines[0] != ""
    requires next == off + |lines[0]| + 1
    requires ReadLine(buf, off) == Ok((lines[0], next))
    requires LinesThenBlankAt(buf, next, lines[1..])
    ensures LinesThenBlankAt(buf, off, lines)
  {
  }

  /** From `off`, the reader returns the non-blank `lines` one after another; nothing is said of what follows. */
  predicate LinesAt(buf: seq<byte>, off: nat, lines: seq<string>)
    decreases |lines|
  {
    && off <= |buf|
    && (|lines| == 0 ||
        (&& lines[0] != ""
         && ReadLine(buf, off) == Ok((lines[0], off + |lines[0]| + 1))
         && LinesAt(buf, off + |lines[0]| + 1, lines[1..])))
  }

  /**
   * The header loop over non-blank lines whose directives fail stops with the fold's
   * error: the failing line is the last one read, and no blank line or resolution line
   * needs to follow it.
   */
  lemma {:induction false} HeaderLoopStopsAtFailure(buf: seq<byte>, off: nat, lines: seq<string>, h: Header,
                                                    conv: Conversions, e: DecodeError)
    requires LinesAt(buf, off, lines) && FoldDirectives(h, lines, conv) == Err(e)
    ensures HeaderLoop(buf, off, h, conv) == Err(e)
    decreases |lines|
  {
    if |lines| > 0 {
      var next := off + |lines[0]| + 1;
      HeaderLoopAfterLine(buf, off, lines[0], next, h, conv);
      FoldStep(h, lines, conv);
      var a := ApplyDirective(h, lines[0], conv);
      if a.Ok? {
        HeaderLoopStopsAtFailure(buf, next, lines[1..], a.value, conv, e);
      }
    }
  }

  /** Non-blank lines encoded at the front of the bytes from `off` are read back one by one. */
  lemma {:induction false} SuffixLinesAt(buf: seq<byte>, off: nat, lines: seq<string>, rest: seq<byte>)
    requires forall k | 0 <= k < |lines| :: IsLineText(lines[k]) && lines[k] != ""
    requires off <= |buf| && buf[off..] == EncodeLines(lines) + rest
    ensures LinesAt(buf, off, lines)
    decreases |lines|
  {
    if |lines| > 0 {
      var l0, ls := lines[0], lines[1..];
      assert IsLineText(l0) && l0 != "";
      assert forall k | 0 <= k < |ls| :: IsLineText(ls[k]) && ls[k] != "" by {
        forall k | 0 <= k < |ls| ensures IsLineText(ls[k]) && ls[k] != "" {
          assert ls[k] == lines[k + 1];
        }
      }
      var more := EncodeLines(ls) + rest;
      assert buf[off..] == ToBytes(l0) + [Newline] + more;
      ReadLineSuffix(buf, off, l0, more);
      var next := off + |l0| + 1;
      SuffixLinesAt(buf, next, ls, rest);
      LinesAtCons(buf, off, lines, next);
    }
  }

  /** `LinesAt` from its first line and the rest. */
  lemma LinesAtCons(buf: seq<byte>, off: nat, lines: seq<string>, next: nat)
    requires off <= |buf| && |lines| > 0 && lines[0] != ""
    requires next == off + |lines[0]| + 1
    requires ReadLine(buf, off).Ok? && ReadLine(buf, off).value.0 == lines[0] && ReadLine(buf, off).value.1 == next
    requires LinesAt(buf, next, lines[1..])
    ensures LinesAt(buf, off, lines)
  {
  }

  // ----- The resolution line -----

  /** Picture dimensions as set by the resolution line; both start at 0. */
  datatype Size = Size(width: int, height: int)

  predicate IsWidthLabel(tag: Option<string>) {
    tag == Some("+X") || tag == Some("-X")
  }

  predicate IsHeightLabel(tag: Option<string>) {
    tag == Some("-Y") || tag == Some("+Y")
  }

  /**
   * One `(tag, count)` pair: `+X`/`-X` set the width and `-Y`/`+Y` the height (the
   * flipped orientations only warn); any other tag changes nothing.
   */
  function ParseSize(tag: Option<string>, value: int, s: Size): (r: Size)
    ensures IsWidthLabel(tag) ==> r == Size(value, s.height)
    ensures IsHeightLabel(tag) ==> r == Size(s.width, value)
    ensures !IsWidthLabel(tag) && !IsHeightLabel(tag) ==> r == s
  {
    if tag == Some("+X") || tag == Some("-X") then s.(width := value)
    else if tag == Some("-Y") || tag == Some("+Y") then s.(height := value)
    else s
  }

  /** The resolution line, split on single spaces into tag/count pairs. */
  function ParseResolution(line: string, conv: Conversions): Size {
    var parts := Split(line, ' ');
    var first := ParseSize(Part(parts, 0), conv.parseInt(TextOrEmpty(Part(parts, 1))), Size(0, 0));
    ParseSize(Part(parts, 2), conv.parseInt(TextOrEmpty(Part(parts, 3))), first)
  }

  /** Four space-free words separated by single spaces. */
  function ResolutionLine(a: string, b: string, c: string, d: string): string {
    a + " " + b + " " + c + " " + d
  }

  /**
   * A resolution line of two pairs is read as those pairs, in order: a later pair for
   * the same axis overwrites an earlier one.
   */
  lemma ResolutionPairs(a: string, b: string, c: string, d: string, conv: Conversions)
    requires ' ' !in a && ' ' !in b && ' ' !in c && ' ' !in d
    ensures ParseResolution(ResolutionLine(a, b, c, d), conv)
            == ParseSize(Some(c), conv.parseInt(d), ParseSize(Some(a), conv.parseInt(b), Size(0, 0)))
  {
    var line := ResolutionLine(a, b, c, d);
    assert line == a + [' '] + (b + [' '] + (c + [' '] + d));
    SplitAfter(a, ' ', b + [' '] + (c + [' '] + d));
    SplitAfter(b, ' ', c + [' '] + d);
    SplitAfter(c, ' ', d);
    SplitWithout(d, ' ');
    assert Split(line, ' ') == [a, b, c, d];
  }

  /** The usual `-Y <height> +X <width>` line yields exactly that width and height. */
  lemma StandardResolution(hs: string, ws: string, conv: Conversions)
    requires ' ' !in hs && ' ' !in ws
    ensures ParseResolution(ResolutionLine("-Y", hs, "+X", ws), conv)
            == Size(conv.parseInt(ws), conv.parseInt(hs))
  {
    ResolutionPairs("-Y", hs, "+X", ws, conv);
  }

  // ----- The whole header -----

  /** The errors reading the header can raise. */
  predicate IsHeaderError(e: DecodeError) {
    e == IncorrectFileFormat || e == IncorrectEncodingFormat || e == MissingColorCorr || e == OutOfRange
  }

  /**
   * The signature line, the directive lines up to and including the first blank line,
   * then the resolution line; returns the header state, the picture size and the offset
   * of the first data byte.
   */
  function ParseHeader(buf: seq<byte>, conv: Conversions): (r: Result<(Header, Size, nat), DecodeError>)
    ensures r.Ok? ==> r.value.2 <= |buf|
    ensures r.Err? ==> IsHeaderError(r.error)
  {
    var sig :- ReadLine(buf, 0);
    if !IsSignature(sig.0) then Err(IncorrectFileFormat)
    else
      var loop :- HeaderLoop(buf, sig.1, InitialHeader, conv);
      var res :- ReadLine(buf, loop.1);
      Ok((loop.0, ParseResolution(res.0, conv), res.1))
  }

  /**
   * The header is rejected as not being a Radiance file exactly when a first line can be
   * read and is neither `#?RADIANCE` nor `#?RGBE`; the verdict then rests on that line alone.
   */
  lemma SignatureChecked(buf: seq<byte>, conv: Conversions)
    ensures ParseHeader(buf, conv) == Err(IncorrectFileFormat)
            <==> ReadLine(buf, 0).Ok? && !IsSignature(ReadLine(buf, 0).value.0)
  {
  }

  /** The outcome of the directives, paired on success with the size and the offset of the data. */
  function WithSize(f: Result<Header, DecodeError>, size: Size, end: nat): (r: Result<(Header, Size, nat), DecodeError>)
    ensures r.Ok? <==> f.Ok?
    ensures r.Ok? ==> r.value == (f.value, size, end)
    ensures r.Err? ==> r.error == f.error
  {
    match f
    case Ok(h) => Ok((h, size, end))
    case Err(e) => Err(e)
  }

  /**
   * A signature line, non-blank directive lines, a blank line and a resolution line are
   * read as such: the directives decide the header or its error, the resolution line the
   * size, and the data start right after it, whatever they hold.
   */
  lemma ParseHeaderOf(buf: seq<byte>, sig: string, lines: seq<string>, res: string, data: seq<byte>,
                      conv: Conversions, f: Result<Header, DecodeError>, end: nat)
    requires IsSignature(sig) && IsLineText(res)
    requires forall k | 0 <= k < |lines| :: IsLineText(lines[k]) && lines[k] != ""
    requires buf == EncodeHeader(sig, lines, res) + data
    requires f == FoldDirectives(InitialHeader, lines, conv) && end == |buf| - |data|
    ensures ParseHeader(buf, conv) == WithSize(f, ParseResolution(res, conv), end)
  {
    var start := |sig| + 1 + LinesLength(lines) + 1;
    HeaderLayout(buf, sig, lines, res, data, start);
    ParseHeaderLaidOut(buf, sig, lines, res, start, end, conv, f);
  }

  /** The header parse of bytes holding the header's lines where `HeaderLayout` puts them. */
  lemma ParseHeaderLaidOut(buf: seq<byte>, sig: string, lines: seq<string>, res: string, start: nat, end: nat,
                           conv: Conversions, f: Result<Header, DecodeError>)
    requires IsSignature(sig) && IsLineText(sig) && IsLineText(res)
    requires |sig| < |buf| && buf[0..|sig|] == ToBytes(sig) && buf[|sig|] == Newline
    requires LinesEncodedAt(buf, |sig| + 1, lines)
    requires start == |sig| + 1 + LinesLength(lines) + 1
    requires start + |res| < |buf| && buf[start..start + |res|] == ToBytes(res) && buf[start + |res|] == Newline
    requires end == start + |res| + 1
    requires f == FoldDirectives(InitialHeader, lines, conv)
    ensures ParseHeader(buf, conv) == WithSize(f, ParseResolution(res, conv), end)
  {
    HeaderReads(buf, sig, lines, res, start, end, conv, f);
    ParseHeaderFromReads(buf, conv, sig, start, res, end, f);
  }

  /** The header parse from the results of its reads and of the directive fold. */
  lemma ParseHeaderFromReads(buf: seq<byte>, conv: Conversions, sig: string, start: nat, res: string, end: nat,
                             f: Result<Header, DecodeError>)
    requires IsSignature(sig) && |sig| + 1 <= start <= |buf|
    requires ReadLine(buf, 0) == Ok((sig, |sig| + 1))
    requires ReadLine(buf, start) == Ok((res, end))
    requires HeaderLoop(buf, |sig| + 1, InitialHeader, conv) == AtOffset(f, start)
    ensures ParseHeader(buf, conv) == WithSize(f, ParseResolution(res, conv), end)
  {
    if f.Ok? {
      ParseHeaderOk(buf, conv, sig, |sig| + 1, f.value, start, res, end);
    } else {
      ParseHeaderLoopErr(buf, conv, sig, |sig| + 1, f.error);
    }
  }

  /** The header parse from the results of its three reads. */
  lemma ParseHeaderOk(buf: seq<byte>, conv: Conversions, sig: string, p1: nat, h: Header, p2: nat,
                      res: string, p3: nat)
    requires ReadLine(buf, 0) == Ok((sig, p1)) && IsSignature(sig)
    requires p1 <= |buf| && HeaderLoop(buf, p1, InitialHeader, conv) == Ok((h, p2))
    requires p2 <= |buf| && ReadLine(buf, p2) == Ok((res, p3))
    ensures ParseHeader(buf, conv) == Ok((h, ParseResolution(res, conv), p3))
  {
  }

  /** A failing header loop is the header's failure. */
  lemma ParseHeaderLoopErr(buf: seq<byte>, conv: Conversions, sig: string, p1: nat, e: DecodeError)
    requires ReadLine(buf, 0) == Ok((sig, p1)) && IsSignature(sig)
    requires p1 <= |buf| && HeaderLoop(buf, p1, InitialHeader, conv) == Err(e)
    ensures ParseHeader(buf, conv) == Err(e)
  {
  }

  /** Reading the lines of a header laid out as `HeaderLayout` describes. */
  lemma HeaderReads(buf: seq<byte>, sig: string, lines: seq<string>, res: string, start: nat, end: nat,
                    conv: Conversions, f: Result<Header, DecodeError>)
    requires IsLineText(sig) && IsLineText(res)
    requires |sig| < |buf| && buf[0..|sig|] == ToBytes(sig) && buf[|sig|] == Newline
    requires LinesEncodedAt(buf, |sig| + 1, lines)
    requires start == |sig| + 1 + LinesLength(lines) + 1
    requires start + |res| < |buf| && buf[start..start + |res|] == ToBytes(res) && buf[start + |res|] == Newline
    requires end == start + |res| + 1
    requires f == FoldDirectives(InitialHeader, lines, conv)
    ensures ReadLine(buf, 0) == Ok((sig, |sig| + 1))
    ensures ReadLine(buf, start) == Ok((res, end))
    ensures HeaderLoop(buf, |sig| + 1, InitialHeader, conv) == AtOffset(f, start)
  {
    ReadLineAt(buf, start, res, end);
    ReadLineAt(buf, 0, sig, |sig| + 1);
    LinesEncodedRead(buf, |sig| + 1, lines);
    HeaderLoopOfLines(buf, |sig| + 1, lines, InitialHeader, conv, f, start);
  }

  /**
   * The bytes of a header: the signature line, the directive lines, the blank line and
   * the resolution line.
   */
  function EncodeHeader(sig: string, lines: seq<string>, res: string): seq<byte>
    requires IsLineText(sig) && IsLineText(res)
    requires forall k | 0 <= k < |lines| :: IsLineText(lines[k])
  {
    ToBytes(sig) + [Newline] + EncodeLines(lines) + [Newline] + ToBytes(res) + [Newline]
  }

  /** Where the parts of an encoded header lie. */
  lemma HeaderLayout(buf: seq<byte>, sig: string, lines: seq<string>, res: string, data: seq<byte>, start: nat)
    requires IsLineText(sig) && IsLineText(res)
    requires forall k | 0 <= k < |lines| :: IsLineText(lines[k]) && lines[k] != ""
    requires buf == EncodeHeader(sig, lines, res) + data
    requires start == |sig| + 1 + LinesLength(lines) + 1
    ensures |sig| < |buf| && buf[0..|sig|] == ToBytes(sig) && buf[|sig|] == Newline
    ensures LinesEncodedAt(buf, |sig| + 1, lines)
    ensures start + |res| < |buf| && buf[start..start + |res|] == ToBytes(res) && buf[start + |res|] == Newline
    ensures start + |res| + 1 == |buf| - |data|
  {
    var c := ToBytes(res);
    HeaderSplit(buf, sig, EncodeLines(lines), c, data);
    EncodedLinesAt(buf, |sig| + 1, lines, c + [Newline] + data, start);
    LineSuffix(buf, start, res, data);
  }

  /** The first line of three-line-feed bytes, and what follows it. */
  lemma HeaderSplit(buf: seq<byte>, sig: string, b: seq<byte>, c: seq<byte>, d: seq<byte>)
    requires IsLatin1(sig)
    requires buf == ToBytes(sig) + [Newline] + b + [Newline] + c + [Newline] + d
    ensures |sig| < |buf| && buf[0..|sig|] == ToBytes(sig) && buf[|sig|] == Newline
    ensures buf[|sig| + 1..] == b + [Newline] + (c + [Newline] + d)
  {
    var a := ToBytes(sig);
    assert buf[0..|a|] == a;
    assert buf[|a| + 1..] == b + [Newline] + c + [Newline] + d;
  }
}
