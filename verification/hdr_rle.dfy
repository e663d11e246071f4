/**
 * The adaptive run-length encoding of one Radiance scanline: a control byte above 128
 * repeats the following byte (control - 128) times; any other control byte is followed
 * by that many literal bytes.
 */
module HdrRle {
  import opened Results
  import opened HdrBytes

  /** The repeat counts a control byte above 128 can express. */
  type RepeatCount = n: int | 1 <= n <= 127 witness 1

  /** The literal payloads a control byte of at most 128 can announce. */
  type LiteralBytes = bs: seq<byte> | |bs| <= 128

  /** One run of the encoding, as decoded. */
  datatype Run = Repeat(count: RepeatCount, value: byte) | Literal(bytes: LiteralBytes)

  /** `n` copies of `v`. */
  function Copies(v: byte, n: nat): (out: seq<byte>)
    ensures |out| == n && forall i | 0 <= i < n :: out[i] == v
  {
    if n == 0 then [] else [v] + Copies(v, n - 1)
  }

  /** The component bytes a run stands for. */
  function Expand(r: Run): (out: seq<byte>)
  {
    match r
    case Repeat(n, v) => Copies(v, n)
    case Literal(bs) => bs
  }

  /** The number of bytes a run occupies in the stream. */
  function RunSize(r: Run): nat {
    match r
    case Repeat(_, _) => 2
    case Literal(bs) => 1 + |bs|
  }

  /** The bytes of a run in the stream: its control byte, then its payload. */
  function EncodeRun(r: Run): (bs: seq<byte>)
    ensures |bs| == RunSize(r)
  {
    match r
    case Repeat(n, v) => [128 + n, v]
    case Literal(bs) => [|bs|] + bs
  }

  /**
   * Reads one run at `off`. Reading the control byte, the repeated byte or any literal
   * byte past the end of the buffer is a range error.
   */
  function ParseRun(buf: seq<byte>, off: nat): (r: Result<(Run, nat), DecodeError>)
    requires off <= |buf|
    ensures r.Ok? ==> r.value.1 == off + RunSize(r.value.0) <= |buf|
    ensures r.Err? ==> r.error == OutOfRange
  {
    if off == |buf| then Err(OutOfRange)
    else
      var c := buf[off];
      if c > 128 then
        if off + 1 == |buf| then Err(OutOfRange)
        else Ok((Repeat(c - 128, buf[off + 1]), off + 2))
      else if off + 1 + c > |buf| then Err(OutOfRange)
      else Ok((Literal(buf[off + 1..off + 1 + c]), off + 1 + c))
  }

  /** The bytes a successful read consumes are exactly the encoding of the run it returns. */
  lemma ParseRunReads(buf: seq<byte>, off: nat)
    requires off <= |buf| && ParseRun(buf, off).Ok?
    ensures var (run, next) := ParseRun(buf, off).value;
            buf[off..next] == EncodeRun(run)
  {
    var c := buf[off];
    if c <= 128 {
      assert buf[off..off + 1 + c] == [c] + buf[off + 1..off + 1 + c];
    }
  }

  /** An encoded run is read back as that run. */
  lemma ParseRunOf(buf: seq<byte>, off: nat, run: Run)
    requires off + RunSize(run) <= |buf| && buf[off..off + RunSize(run)] == EncodeRun(run)
    ensures ParseRun(buf, off) == Ok((run, off + RunSize(run)))
  {
    var e := EncodeRun(run);
    assert buf[off] == e[0];
    match run
    case Repeat(n, v) =>
      assert buf[off + 1] == e[1];
    case Literal(bs) =>
      assert buf[off + 1..off + 1 + |bs|] == e[1..];
  }

  /**
   * Decodes runs from `off`, appending their expansions to `acc`, until at least `need`
   * components exist. The last run may overshoot `need`.
   */
  function DecodeRuns(buf: seq<byte>, off: nat, need: nat, acc: seq<byte>)
    : (r: Result<(seq<byte>, nat), DecodeError>)
    requires off <= |buf|
    ensures r.Ok? ==> off <= r.value.1 <= |buf| && |r.value.0| >= need && acc <= r.value.0
    ensures r.Err? ==> r.error == OutOfRange
    decreases |buf| - off
  {
    if |acc| >= need then Ok((acc, off))
    else
      var step :- ParseRun(buf, off);
      DecodeRuns(buf, step.1, need, acc + Expand(step.0))
  }

  /** All expansions, concatenated. */
  function ExpandAll(runs: seq<Run>): seq<byte> {
    if |runs| == 0 then [] else Expand(runs[0]) + ExpandAll(runs[1..])
  }

  /** The encodings of all runs, concatenated. */
  function EncodeRuns(runs: seq<Run>): seq<byte> {
    if |runs| == 0 then [] else EncodeRun(runs[0]) + EncodeRuns(runs[1..])
  }

  /** From `off`, the reader returns `runs` one after another. */
  predicate RunsAt(buf: seq<byte>, off: nat, runs: seq<Run>)
    decreases |runs|
  {
    && off <= |buf|
    && (|runs| == 0 ||
        var p := ParseRun(buf, off);
        p.Ok? && p.value.0 == runs[0] && RunsAt(buf, p.value.1, runs[1..]))
  }

  /** Starting from `have` components, every run but the last leaves fewer than `need`. */
  predicate FillsExactly(runs: seq<Run>, have: nat, need: nat)
    decreases |runs|
  {
    if |runs| == 0 then have >= need
    else have < need && FillsExactly(runs[1..], have + |Expand(runs[0])|, need)
  }

  /** The encoded length of all runs. */
  function RunsLength(runs: seq<Run>): nat
  {
    if |runs| == 0 then 0 else RunSize(runs[0]) + RunsLength(runs[1..])
  }

  /** Short of `need`, the decoder reads one run and carries on after it. */
  lemma DecodeRunsStep(buf: seq<byte>, off: nat, need: nat, acc: seq<byte>, run: Run, next: nat)
    requires off <= |buf| && |acc| < need
    requires ParseRun(buf, off) == Ok((run, next))
    ensures next <= |buf|
    ensures DecodeRuns(buf, off, need, acc) == DecodeRuns(buf, next, need, acc + Expand(run))
  {
  }

  lemma AppendAssoc(a: seq<byte>, b: seq<byte>, c: seq<byte>)
    ensures a + b + c == a + (b + c)
  {
  }

  /**
   * Decoding runs the reader finds, which just reach `need` components, yields the
   * concatenation of their expansions and consumes exactly their encodings.
   */
  lemma {:induction false} DecodeRunsOf(buf: seq<byte>, off: nat, runs: seq<Run>, need: nat, acc: seq<byte>,
                                        comps: seq<byte>, next: nat)
    requires RunsAt(buf, off, runs) && FillsExactly(runs, |acc|, need)
    requires comps == acc + ExpandAll(runs) && next == off + RunsLength(runs)
    ensures DecodeRuns(buf, off, need, acc) == Ok((comps, next))
    decreases |runs|
  {
    if |runs| == 0 {
      assert acc + [] == acc;
    } else {
      var run := runs[0];
      var after := ParseRun(buf, off).value.1;
      AppendAssoc(acc, Expand(run), ExpandAll(runs[1..]));
      DecodeRunsOf(buf, after, runs[1..], need, acc + Expand(run), comps, next);
      DecodeRunsStep(buf, off, need, acc, run, after);
    }
  }

  /** The encoding of runs is as long as their sizes add up to. */
  lemma {:induction false} EncodeRunsLength(runs: seq<Run>)
    ensures |EncodeRuns(runs)| == RunsLength(runs)
    decreases |runs|
  {
    if |runs| > 0 {
      EncodeRunsLength(runs[1..]);
    }
  }

  /** The runs' encodings lie back to back in `buf` from `off`. */
  predicate EncodedAt(buf: seq<byte>, off: nat, runs: seq<Run>)
    decreases |runs|
  {
    && off <= |buf|
    && (|runs| == 0 ||
        (&& off + RunSize(runs[0]) <= |buf|
         && buf[off..off + RunSize(runs[0])] == EncodeRun(runs[0])
         && EncodedAt(buf, off + RunSize(runs[0]), runs[1..])))
  }

  /** Encodings laid out back to back are read back by the reader as those runs. */
  lemma {:induction false} EncodedAtRunsAt(buf: seq<byte>, off: nat, runs: seq<Run>)
    requires EncodedAt(buf, off, runs)
    ensures RunsAt(buf, off, runs)
    decreases |runs|
  {
    if |runs| > 0 {
      ParseRunOf(buf, off, runs[0]);
      EncodedAtRunsAt(buf, off + RunSize(runs[0]), runs[1..]);
    }
  }

  /** A suffix that starts with `e` continues with `t`. */
  lemma SuffixSplit(buf: seq<byte>, off: nat, e: seq<byte>, t: seq<byte>)
    requires off <= |buf| && buf[off..] == e + t
    ensures off + |e| <= |buf| && buf[off..off + |e|] == e && buf[off + |e|..] == t
  {
    assert buf[off..off + |e|] == buf[off..][..|e|];
    assert buf[off + |e|..] == buf[off..][|e|..];
  }

  /** The encoding of runs, followed by anything, lays them out back to back. */
  lemma {:induction false} SuffixEncodedAt(buf: seq<byte>, off: nat, runs: seq<Run>, rest: seq<byte>)
    requires off <= |buf| && buf[off..] == EncodeRuns(runs) + rest
    ensures EncodedAt(buf, off, runs)
    decreases |runs|
  {
    if |runs| > 0 {
      var e, tail := EncodeRun(runs[0]), EncodeRuns(runs[1..]);
      assert buf[off..] == e + (tail + rest);
      SuffixSplit(buf, off, e, tail + rest);
      SuffixEncodedAt(buf, off + |e|, runs[1..], rest);
    }
  }

  /**
   * Decoding encoded runs that just reach `need` components gives their expansions back
   * and stops right after their encodings, whatever follows.
   */
  lemma RunsRoundTrip(buf: seq<byte>, off: nat, runs: seq<Run>, need: nat, rest: seq<byte>, next: nat)
    requires FillsExactly(runs, 0, need)
    requires off <= |buf| && buf[off..] == EncodeRuns(runs) + rest
    requires next == off + |EncodeRuns(runs)|
    ensures DecodeRuns(buf, off, need, []) == Ok((ExpandAll(runs), next))
  {
    EncodeRunsLength(runs);
    SuffixEncodedAt(buf, off, runs, rest);
    DecodeLaidOutRuns(buf, off, runs, need, ExpandAll(runs), next);
  }

  /** Runs that fill `need` components exactly hold at least that many. */
  lemma {:induction false} FillsExactlyCovers(runs: seq<Run>, have: nat, need: nat)
    requires FillsExactly(runs, have, need)
    ensures have + |ExpandAll(runs)| >= need
    decreases |runs|
  {
    if |runs| > 0 {
      FillsExactlyCovers(runs[1..], have + |Expand(runs[0])|, need);
    }
  }

  /** Encodings laid out from `off` end inside the buffer. */
  lemma {:induction false} EncodedAtEnd(buf: seq<byte>, off: nat, runs: seq<Run>)
    requires EncodedAt(buf, off, runs)
    ensures off + RunsLength(runs) <= |buf|
    decreases |runs|
  {
    if |runs| > 0 {
      EncodedAtEnd(buf, off + RunSize(runs[0]), runs[1..]);
    }
  }

  /**
   * Decoding runs laid out from `off` that fill `need` exactly gives their expansions
   * and the offset right after them.
   */
  lemma DecodeLaidOutRuns(buf: seq<byte>, off: nat, runs: seq<Run>, need: nat, comps: seq<byte>, next: nat)
    requires EncodedAt(buf, off, runs) && FillsExactly(runs, 0, need)
    requires comps == ExpandAll(runs) && next == off + RunsLength(runs)
    ensures DecodeRuns(buf, off, need, []) == Ok((comps, next))
  {
    EncodedAtRunsAt(buf, off, runs);
    assert [] + ExpandAll(runs) == ExpandAll(runs);
    DecodeRunsOf(buf, off, runs, need, [], comps, next);
  }

  // ----- An encoder -----

  /** The number of leading bytes equal to the first, capped at 127. */
  function RepeatLength(data: seq<byte>): (n: nat)
    requires |data| > 0
    ensures 1 <= n <= 127 && n <= |data|
    ensures forall i | 0 <= i < n :: data[i] == data[0]
    ensures n < 127 && n < |data| ==> data[n] != data[0]
    decreases |data|
  {
    if |data| == 1 || data[1] != data[0] then 1
    else
      var m := RepeatLength(data[1..]);
      if m == 127 then 127 else m + 1
  }

  /**
   * The length of a literal run at the front: up to 128 bytes, stopping before a byte
   * that starts a pair of equal bytes.
   */
  function LiteralLength(data: seq<byte>): (n: nat)
    requires |data| > 0
    ensures 1 <= n <= 128 && n <= |data|
    decreases |data|
  {
    if |data| == 1 || (|data| >= 3 && data[1] == data[2]) then 1
    else
      var m := LiteralLength(data[1..]);
      if m == 128 then 128 else m + 1
  }

  /** The run the encoder emits at the front of non-empty component bytes. */
  function FirstRun(data: seq<byte>): (run: Run)
    requires |data| > 0
    ensures 0 < |Expand(run)| <= |data| && Expand(run) == data[..|Expand(run)|]
  {
    var n := RepeatLength(data);
    if n >= 2 then
      var run := Repeat(n, data[0]);
      assert Expand(run) == data[..n];
      run
    else Literal(data[..LiteralLength(data)])
  }

  /** A run covering a prefix, in front of runs covering the rest, covers the whole. */
  lemma ConsRuns(data: seq<byte>, run: Run, rest: seq<Run>)
    requires 0 < |Expand(run)| <= |data| && Expand(run) == data[..|Expand(run)|]
    requires ExpandAll(rest) == data[|Expand(run)|..]
    requires forall k | 0 <= k < |rest| :: |Expand(rest[k])| > 0
    ensures var runs := [run] + rest;
            && ExpandAll(runs) == data
            && forall k | 0 <= k < |runs| :: |Expand(runs[k])| > 0
  {
    var runs := [run] + rest;
    assert runs[0] == run && runs[1..] == rest;
    assert data == data[..|Expand(run)|] + data[|Expand(run)|..];
  }

  /** Splits component bytes into runs: repeats for pairs of equal bytes, literals otherwise. */
  function Compress(data: seq<byte>): (runs: seq<Run>)
    ensures ExpandAll(runs) == data
    ensures forall k | 0 <= k < |runs| :: |Expand(runs[k])| > 0
    decreases |data|
  {
    if |data| == 0 then []
    else
      var run := FirstRun(data);
      var rest := Compress(data[|Expand(run)|..]);
      ConsRuns(data, run, rest);
      [run] + rest
  }

  /** Runs with non-empty expansions that make up exactly `need` components fill it exactly. */
  lemma {:induction false} NonEmptyRunsFill(runs: seq<Run>, have: nat, need: nat)
    requires forall k | 0 <= k < |runs| :: |Expand(runs[k])| > 0
    requires have + |ExpandAll(runs)| == need
    ensures FillsExactly(runs, have, need)
    decreases |runs|
  {
    if |runs| > 0 {
      assert forall k | 0 <= k < |runs[1..]| :: |Expand(runs[1..][k])| > 0 by {
        forall k | 0 <= k < |runs[1..]| ensures |Expand(runs[1..][k])| > 0 {
          assert runs[1..][k] == runs[k + 1];
        }
      }
      NonEmptyRunsFill(runs[1..], have + |Expand(runs[0])|, need);
    }
  }

  /** Compressing component bytes and decoding the result gives the same bytes back. */
  lemma CompressRoundTrip(data: seq<byte>, buf: seq<byte>, off: nat, rest: seq<byte>, next: nat)
    requires off <= |buf| && buf[off..] == EncodeRuns(Compress(data)) + rest
    requires next == off + |EncodeRuns(Compress(data))|
    ensures DecodeRuns(buf, off, |data|, []) == Ok((data, next))
  {
    var runs := Compress(data);
    NonEmptyRunsFill(runs, 0, |data|);
    RunsRoundTrip(buf, off, runs, |data|, rest, next);
  }
}
