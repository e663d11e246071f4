/**
 * Byte-level reading primitives of the Radiance decoder: the error kinds it raises,
 * newline-terminated line reading, big-endian 16-bit reads and string splitting.
 */
module HdrBytes {
  import opened Results

  type byte = b: int | 0 <= b < 256

  const Newline: byte := 0x0a

  /** One constructor per place the decoder throws. */
  datatype DecodeError =
    | IncorrectFileFormat      // first line is not a Radiance signature
    | IncorrectEncodingFormat  // FORMAT directive with an unsupported value
    | ObsoleteVersion          // data does not start with the 0x0202 marker
    | IncorrectScanlineHash    // a scanline does not start with 0x0202
    | ScanlineWidthMismatch    // a scanline's embedded width is not the picture width
    | OutOfRange               // a read past the end of the buffer, or an output length out of range
    | MissingColorCorr         // a COLORCORR line without '=' (the value is undefined)

  /** Bytes read as characters with char code = byte value. */
  function ToChars(bs: seq<byte>): (s: string)
    ensures |s| == |bs|
    ensures forall i | 0 <= i < |bs| :: s[i] as int == bs[i]
  {
    seq(|bs|, i requires 0 <= i < |bs| => bs[i] as char)
  }

  predicate IsLatin1(s: string) {
    forall i | 0 <= i < |s| :: s[i] as int < 256
  }

  /** Text of one header line: single-byte characters, no line feed. */
  predicate IsLineText(s: string) {
    IsLatin1(s) && '\n' !in s
  }

  /** Two pieces of line text make line text. */
  lemma LineTextConcat(a: string, b: string)
    requires IsLineText(a) && IsLineText(b)
    ensures IsLineText(a + b)
  {
    var s := a + b;
    forall i | 0 <= i < |s| ensures s[i] as int < 256 && s[i] != '\n' {
      if i < |a| { assert s[i] == a[i]; } else { assert s[i] == b[i - |a|]; }
    }
  }

  /** The bytes of a single-byte string; the inverse of `ToChars`. */
  function ToBytes(s: string): (bs: seq<byte>)
    requires IsLatin1(s)
    ensures |bs| == |s|
    ensures forall i | 0 <= i < |s| :: bs[i] == s[i] as int
  {
    seq(|s|, i requires 0 <= i < |s| => s[i] as int)
  }

  /** Reading back the bytes of a single-byte string gives the string. */
  lemma ToBytesInverse(s: string)
    requires IsLatin1(s)
    ensures ToChars(ToBytes(s)) == s
  {
    var t := ToChars(ToBytes(s));
    assert forall i | 0 <= i < |s| :: t[i] == s[i];
  }

  /** The index of the first line feed at or after `off`, if there is one. */
  function FindNewline(buf: seq<byte>, off: nat): (k: Option<nat>)
    requires off <= |buf|
    ensures k.Some? ==> off <= k.value < |buf| && buf[k.value] == Newline
    decreases |buf| - off
  {
    if off == |buf| then None
    else if buf[off] == Newline then Some(off)
    else FindNewline(buf, off + 1)
  }

  /**
   * Reads the bytes from `off` up to the first line feed, returning them as text
   * and the offset just past the line feed. Running off the end is a range error.
   */
  function ReadLine(buf: seq<byte>, off: nat): (r: Result<(string, nat), DecodeError>)
    requires off <= |buf|
    ensures r.Ok? ==> r.value.1 == off + |r.value.0| + 1 <= |buf|
    ensures r.Err? ==> r.error == OutOfRange
  {
    match FindNewline(buf, off)
    case None => Err(OutOfRange)
    case Some(k) => Ok((ToChars(buf[off..k]), k + 1))
  }

  /** The search finds the first line feed at or after `off`, and finds none only if there is none. */
  lemma {:induction false} FindNewlineFirst(buf: seq<byte>, off: nat)
    requires off <= |buf|
    ensures var k := FindNewline(buf, off);
            && (k.Some? ==> forall i | off <= i < k.value :: buf[i] != Newline)
            && (k.None? ==> forall i | off <= i < |buf| :: buf[i] != Newline)
    decreases |buf| - off
  {
    if off < |buf| && buf[off] != Newline {
      FindNewlineFirst(buf, off + 1);
    }
  }

  /** A line feed at `stop` with none between `off` and it is the one the search finds. */
  lemma {:induction false} FindNewlineAt(buf: seq<byte>, off: nat, stop: nat)
    requires off <= stop < |buf| && buf[stop] == Newline
    requires forall i | off <= i < stop :: buf[i] != Newline
    ensures FindNewline(buf, off) == Some(stop)
    decreases stop - off
  {
    if off < stop {
      FindNewlineAt(buf, off + 1, stop);
    }
  }

  /** Without a line feed ahead, reading a line is a range error. */
  lemma ReadLineWithoutNewline(buf: seq<byte>, off: nat)
    requires off <= |buf|
    requires forall i | off <= i < |buf| :: buf[i] != Newline
    ensures ReadLine(buf, off) == Err(OutOfRange)
  {
  }

  /** A line followed by a line feed is read back as exactly that line. */
  lemma ReadLineAt(buf: seq<byte>, off: nat, line: string, next: nat)
    requires IsLineText(line)
    requires off + |line| < |buf|
    requires buf[off..off + |line|] == ToBytes(line) && buf[off + |line|] == Newline
    requires next == off + |line| + 1
    ensures ReadLine(buf, off) == Ok((line, next))
  {
    var stop := off + |line|;
    forall i | off <= i < stop ensures buf[i] != Newline {
      assert buf[i] == buf[off..stop][i - off] == ToBytes(line)[i - off];
      assert line[i - off] != '\n';
    }
    FindNewlineAt(buf, off, stop);
    ToBytesInverse(line);
  }

  /**
   * A line and a line feed at the front of the bytes from `off` are read back as that
   * line, and reading resumes at what follows them.
   */
  lemma ReadLineSuffix(buf: seq<byte>, off: nat, line: string, rest: seq<byte>)
    requires IsLineText(line)
    requires off <= |buf| && buf[off..] == ToBytes(line) + [Newline] + rest
    ensures ReadLine(buf, off) == Ok((line, off + |line| + 1))
    ensures buf[off + |line| + 1..] == rest
  {
    var stop := off + |line|;
    assert buf[off..stop] == buf[off..][..|line|];
    assert buf[stop] == buf[off..][|line|];
    assert buf[stop + 1..] == buf[off..][|line| + 1..];
    ReadLineAt(buf, off, line, stop + 1);
  }

  /** The unsigned big-endian 16-bit value at `off`. */
  function BigEndian16(buf: seq<byte>, off: nat): (v: nat)
    requires off + 2 <= |buf|
    ensures v < 0x1_0000
  {
    var hi: int := buf[off];
    hi * 256 + buf[off + 1]
  }

  /** The two bytes that encode `v` big-endian. */
  function Uint16Bytes(v: nat): (bs: seq<byte>)
    requires v < 0x1_0000
    ensures |bs| == 2 && BigEndian16(bs, 0) == v
  {
    [v / 256, v % 256]
  }

  /** Joins `parts` with `sep` between neighbours. */
  function Join(parts: seq<string>, sep: char): string
    requires |parts| >= 1
  {
    if |parts| == 1 then parts[0] else parts[0] + [sep] + Join(parts[1..], sep)
  }

  /** Splits `s` at every occurrence of `sep`, keeping empty pieces. */
  function Split(s: string, sep: char): (parts: seq<string>)
    ensures |parts| >= 1
    decreases |s|
  {
    if |s| == 0 then [""]
    else
      var rest := Split(s[1..], sep);
      if s[0] == sep then [""] + rest
      else [[s[0]] + rest[0]] + rest[1..]
  }

  /** The pieces of a split hold no separator, and joining them gives the text back. */
  lemma {:induction false} SplitJoin(s: string, sep: char)
    ensures var parts := Split(s, sep);
            && (forall k | 0 <= k < |parts| :: sep !in parts[k])
            && Join(parts, sep) == s
    decreases |s|
  {
    if |s| > 0 {
      var rest := Split(s[1..], sep);
      SplitJoin(s[1..], sep);
      var parts := Split(s, sep);
      assert s == [s[0]] + s[1..];
      if s[0] == sep {
        assert parts[1..] == rest;
      } else {
        assert parts[1..] == rest[1..];
        assert parts[0] == [s[0]] + rest[0];
        if |rest| > 1 {
          assert Join(rest, sep) == rest[0] + [sep] + Join(rest[1..], sep);
        }
      }
    }
  }

  /** Splitting at a first separator peels off the text before it. */
  lemma {:induction false} SplitAfter(a: string, sep: char, b: string)
    requires sep !in a
    ensures Split(a + [sep] + b, sep) == [a] + Split(b, sep)
    decreases |a|
  {
    var s := a + [sep] + b;
    if |a| == 0 {
      assert s[1..] == b;
    } else {
      assert s[1..] == a[1..] + [sep] + b;
      SplitAfter(a[1..], sep, b);
      assert [a[0]] + a[1..] == a;
    }
  }

  /** Text without the separator splits into itself. */
  lemma {:induction false} SplitWithout(a: string, sep: char)
    requires sep !in a
    ensures Split(a, sep) == [a]
    decreases |a|
  {
    if |a| > 0 {
      SplitWithout(a[1..], sep);
      assert [a[0]] + a[1..] == a;
    }
  }

  /** The piece at index `i`, or None where JavaScript would give `undefined`. */
  function Part(parts: seq<string>, i: nat): (p: Option<string>)
    ensures p.Some? <==> i < |parts|
    ensures p.Some? ==> p.value == parts[i]
  {
    if i < |parts| then Some(parts[i]) else None
  }

  /**
   * The text handed to a number conversion. `parseInt` and `parseFloat` both give NaN
   * for `undefined` and for "", so a missing piece is passed as "".
   */
  function TextOrEmpty(p: Option<string>): string {
    if p.Some? then p.value else ""
  }

  /** Lines each followed by a line feed. */
  function EncodeLines(lines: seq<string>): (bs: seq<byte>)
    requires forall k | 0 <= k < |lines| :: IsLineText(lines[k])
  {
    if |lines| == 0 then []
    else
      assert IsLineText(lines[0]);
      ToBytes(lines[0]) + [Newline] + EncodeLines(lines[1..])
  }
}
