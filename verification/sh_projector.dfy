/**
 * The spherical-harmonics projector: it walks the pixels of a decoded image in
 * batches, accumulates nine weighted colour coefficients and finally scales them.
 * Each batch and the final scaling are explicit steps of a state machine; the
 * position-to-direction trigonometry is a parameter (`Sampling`).
 */
module ShProjector {
  import opened Color
  import opened ShTables
  import opened HdrDecoder
  import HdrHeader
  import HdrPixels
  import HdrRle

  /** The number of pixels one step processes at most. */
  const BatchSize := 10000

  /**
   * What the trigonometry of the projector yields for pixel column `x` and row `y`
   * of the image being projected: the direction on the sphere and the solid-angle
   * weight `cos(phi)`. `pi` and the normalisation constants come with it.
   */
  datatype Sampling = Sampling(dir: (int, int) -> Dir, weight: (int, int) -> real, norms: Norms, pi: real)

  /**
   * `cos(phi)` for `phi` in [-pi/2, pi/2] is positive in floating point: `Math.cos` of
   * `Math.PI / 2` and of its negation is about 6.1e-17. The closed end is reached when the
   * width and the height are both negative.
   */
  ghost predicate PositiveWeights(smp: Sampling) {
    forall x: int, y: int :: smp.weight(x, y) > 0.0
  }

  /** An image the projector can finish: at least one pixel and three values per pixel. */
  predicate WellFormed(img: Image) {
    img.width * img.height >= 1 && |img.data| == 3 * (img.width * img.height)
  }

  function Samples(img: Image): int {
    img.width * img.height
  }

  function Min(a: int, b: int): int {
    if a <= b then a else b
  }

  /** The pixel indices `lo, lo + 1, ..., hi - 1`, in increasing order. */
  function Range(lo: nat, hi: nat): (r: seq<nat>)
    requires lo <= hi
    ensures |r| == hi - lo
    decreases hi - lo
  {
    if lo == hi then [] else Range(lo, hi - 1) + [hi - 1]
  }

  /** Entry `k` of the range is `lo + k`: each index once, in increasing order. */
  lemma {:induction false} RangeAt(lo: nat, hi: nat, k: nat)
    requires lo <= hi && k < hi - lo
    ensures Range(lo, hi)[k] == lo + k
    decreases hi - lo
  {
    if k < hi - 1 - lo {
      RangeAt(lo, hi - 1, k);
    }
  }

  lemma {:induction false} RangeAppend(lo: nat, mid: nat, hi: nat)
    requires lo <= mid <= hi
    ensures Range(lo, mid) + Range(mid, hi) == Range(lo, hi)
    decreases hi - mid
  {
    if mid < hi {
      RangeAppend(lo, mid, hi - 1);
      assert Range(lo, mid) + (Range(mid, hi - 1) + [hi - 1]) == (Range(lo, mid) + Range(mid, hi - 1)) + [hi - 1];
    }
  }

  // ---------------------------------------------------------------------------
  // Pixel positions

  /** The column of pixel `p`: the remainder of a truncating division, which for `p >= 0` is never negative. */
  function Column(p: nat, width: int): int
    requires width != 0
  {
    p % width
  }

  /** The row of pixel `p`: the floor of `p / width`. */
  function Row(p: nat, width: int): int
    requires width != 0
  {
    if width > 0 || p % width == 0 then p / width else p / width - 1
  }

  /** For a positive width pixel `p` is column `p mod width` of row `p div width`. */
  lemma PixelPosition(p: nat, width: int)
    requires width > 0
    ensures 0 <= Column(p, width) < width && Row(p, width) >= 0
    ensures Row(p, width) * width + Column(p, width) == p
  {
  }

  /** The row is the floor of the quotient for either sign of the width; the column lies in `[0, |width|)`. */
  lemma RowIsFloor(p: nat, width: int)
    requires width != 0
    ensures 0 <= Column(p, width) < (if width > 0 then width else -width)
    ensures width > 0 ==> Row(p, width) * width <= p < (Row(p, width) + 1) * width
    ensures width < 0 ==> (Row(p, width) + 1) * width < p <= Row(p, width) * width
  {
    var q, c := p / width, p % width;
    assert p == q * width + c;
    if width < 0 && c != 0 {
      assert (q - 1 + 1) * width == q * width;
      assert (q - 1) * width == q * width - width;
    }
  }

  /** The colour of pixel `p`: the three values starting at `3 p`. */
  function PixelColor(img: Image, p: nat): Rgb
    requires WellFormed(img) && p < Samples(img)
  {
    Rgb(img.data[3 * p], img.data[3 * p + 1], img.data[3 * p + 2])
  }

  // ---------------------------------------------------------------------------
  // Reference sums

  /** What one pixel adds to coefficient `i`: basis value times colour times weight. */
  function Contribution(smp: Sampling, x: int, y: int, c: Rgb, i: nat): Rgb
    requires i < Count
  {
    var b := Basis(smp.norms, smp.dir(x, y))[i];
    var w := smp.weight(x, y);
    Rgb(b * c.r * w, b * c.g * w, b * c.b * w)
  }

  function PixelWeight(smp: Sampling, img: Image, p: nat): real
    requires WellFormed(img) && p < Samples(img)
  {
    smp.weight(Column(p, img.width), Row(p, img.width))
  }

  function PixelContribution(smp: Sampling, img: Image, p: nat, i: nat): Rgb
    requires WellFormed(img) && p < Samples(img) && i < Count
  {
    Contribution(smp, Column(p, img.width), Row(p, img.width), PixelColor(img, p), i)
  }

  /** The weights of pixels `0 .. n - 1`, added in pixel order. */
  function WeightSum(smp: Sampling, img: Image, n: nat): real
    requires WellFormed(img) && n <= Samples(img)
  {
    if n == 0 then 0.0 else WeightSum(smp, img, n - 1) + PixelWeight(smp, img, n - 1)
  }

  /** The contributions of pixels `0 .. n - 1` to coefficient `i`, added in pixel order. */
  function CoefficientSum(smp: Sampling, img: Image, n: nat, i: nat): Rgb
    requires WellFormed(img) && n <= Samples(img) && i < Count
  {
    if n == 0 then Black else CoefficientSum(smp, img, n - 1, i).Plus(PixelContribution(smp, img, n - 1, i))
  }

  /** No coefficient accumulated yet. */
  function NoCoefficients(): (sh: seq<Rgb>)
    ensures |sh| == Count
  {
    seq(Count, i => Black)
  }

  /** The nine coefficients `sh` after adding what the sample at `(x, y)` with colour `c` contributes. */
  function AddSample(sh: seq<Rgb>, smp: Sampling, x: int, y: int, c: Rgb): (r: seq<Rgb>)
    requires |sh| == Count
    ensures |r| == Count
  {
    seq(Count, i requires 0 <= i < Count => sh[i].Plus(Contribution(smp, x, y, c, i)))
  }

  /** All nine coefficients over pixels `0 .. n - 1`, one pixel at a time. */
  function Sums(smp: Sampling, img: Image, n: nat): (sh: seq<Rgb>)
    requires WellFormed(img) && n <= Samples(img)
    ensures |sh| == Count
  {
    if n == 0 then NoCoefficients()
    else AddSample(Sums(smp, img, n - 1), smp, Column(n - 1, img.width), Row(n - 1, img.width), PixelColor(img, n - 1))
  }

  /** Coefficient `i` of the running sums is the sum of its own contributions. */
  lemma {:induction false} SumsAt(smp: Sampling, img: Image, n: nat, i: nat)
    requires WellFormed(img) && n <= Samples(img) && i < Count
    ensures Sums(smp, img, n)[i] == CoefficientSum(smp, img, n, i)
  {
    if n > 0 {
      SumsAt(smp, img, n - 1, i);
    }
  }

  /** With positive weights the total weight of a non-empty prefix is positive, so the final division is defined. */
  lemma {:induction false} WeightSumPositive(smp: Sampling, img: Image, n: nat)
    requires PositiveWeights(smp) && WellFormed(img) && 1 <= n <= Samples(img)
    ensures WeightSum(smp, img, n) > 0.0
  {
    assert PixelWeight(smp, img, n - 1) > 0.0;
    if n > 1 {
      WeightSumPositive(smp, img, n - 1);
    }
  }

  // ---------------------------------------------------------------------------
  // The state machine

  /** What is scheduled next: another batch, the final scaling, or nothing. */
  datatype Phase = Running | Finishing | Done

  /** A call of the progress or the completion callback. */
  datatype Event = Progress(fraction: real) | Complete(coefficients: seq<Rgb>)

  /**
   * The projector between two steps. `trace` lists the pixel indices accumulated so
   * far, in the order they were accumulated.
   */
  datatype Projector = Projector(
    image: Image,
    irradiance: bool,
    sh: seq<Rgb>,
    p: nat,
    numSamples: int,
    totalWeight: real,
    next: Phase,
    trace: seq<nat>)

  /** The result of one step: the new state and the callbacks it made, in order. */
  datatype Outcome = Outcome(state: Projector, events: seq<Event>)

  /** The accumulators hold the reference sums over exactly the pixels before the cursor. */
  predicate Accumulated(s: Projector, smp: Sampling) {
    && WellFormed(s.image)
    && s.numSamples == Samples(s.image)
    && |s.sh| == Count
    && s.p <= s.numSamples
    && s.trace == Range(0, s.p)
    && s.totalWeight == WeightSum(smp, s.image, s.p)
    && s.sh == Sums(smp, s.image, s.p)
  }

  /** A state from which a step is scheduled: a batch while pixels remain, the scaling once none do. */
  predicate Invariant(s: Projector, smp: Sampling) {
    && Accumulated(s, smp)
    && (s.next == Running ==> s.p < s.numSamples)
    && (s.next == Finishing ==> s.p == s.numSamples)
    && s.next != Done
  }

  /** The state `generate` sets up before its first batch. */
  function Reset(img: Image, irradiance: bool): (s: Projector)
    ensures |s.sh| == Count && forall i | 0 <= i < Count :: s.sh[i] == Black
    ensures s.p == 0 && s.totalWeight == 0.0 && s.numSamples == img.width * img.height
    ensures s.image == img && s.next == Running && s.trace == []
  {
    Projector(img, irradiance, NoCoefficients(), 0, img.width * img.height, 0.0, Running, [])
  }

  /** Before any pixel the accumulators are the empty sums. */
  lemma ResetInvariant(img: Image, irradiance: bool, smp: Sampling)
    requires WellFormed(img)
    ensures Invariant(Reset(img, irradiance), smp)
  {
  }

  /** One call of the accumulation: only the nine accumulators and the total weight change. */
  function Accumulate(s: Projector, smp: Sampling, x: int, y: int, c: Rgb): (r: Projector)
    requires |s.sh| == Count
    ensures |r.sh| == Count
    ensures r.(sh := s.sh, totalWeight := s.totalWeight) == s
  {
    s.(sh := AddSample(s.sh, smp, x, y, c),
       totalWeight := s.totalWeight + smp.weight(x, y))
  }

  /** One iteration of the batch loop: accumulate the pixel at the cursor, then advance the cursor. */
  function Visit(s: Projector, smp: Sampling): (r: Projector)
    requires Accumulated(s, smp) && s.p < s.numSamples
    ensures Accumulated(r, smp)
    ensures r.p == s.p + 1 && r.trace == s.trace + [s.p]
    ensures r.image == s.image && r.irradiance == s.irradiance
    ensures r.numSamples == s.numSamples && r.next == s.next
  {
    var x, y := Column(s.p, s.image.width), Row(s.p, s.image.width);
    var a := Accumulate(s, smp, x, y, PixelColor(s.image, s.p));
    var r := a.(p := s.p + 1, trace := s.trace + [s.p]);
    VisitSums(s, smp, a, r);
    r
  }

  lemma VisitSums(s: Projector, smp: Sampling, a: Projector, r: Projector)
    requires Accumulated(s, smp) && s.p < s.numSamples
    requires a == Accumulate(s, smp, Column(s.p, s.image.width), Row(s.p, s.image.width), PixelColor(s.image, s.p))
    requires r == a.(p := s.p + 1, trace := s.trace + [s.p])
    ensures Accumulated(r, smp)
  {
  }

  /**
   * The batch loop from iteration `i` on: it stops after the pixel that makes the
   * cursor reach the pixel count, scheduling the scaling, or after iteration 9999.
   */
  function RunBatch(s: Projector, smp: Sampling, i: nat): (r: Projector)
    requires Invariant(s, smp) && s.next == Running && i < BatchSize
    ensures Invariant(r, smp)
    ensures r.image == s.image && r.irradiance == s.irradiance && r.numSamples == s.numSamples
    ensures r.p == Min(s.p + (BatchSize - i), s.numSamples)
    ensures r.next == Finishing <==> r.p == s.numSamples
    decreases BatchSize - i
  {
    var v := Visit(s, smp);
    if v.p == v.numSamples then
      v.(next := Finishing)
    else if i == BatchSize - 1 then
      v
    else
      RunBatch(v, smp, i + 1)
  }

  /**
   * One `_doPart` step: a batch, then the progress callback unless the batch
   * reached the last pixel. Progress is reported only after a full batch.
   */
  function DoPart(s: Projector, smp: Sampling): (r: Outcome)
    requires Invariant(s, smp) && s.next == Running
    ensures Invariant(r.state, smp)
    ensures r.state.image == s.image && r.state.irradiance == s.irradiance
    ensures r.state.numSamples == s.numSamples
    ensures r.state.p == Min(s.p + BatchSize, s.numSamples)
    ensures r.state.trace == s.trace + Range(s.p, r.state.p)
    ensures r.state.next == Finishing <==> r.state.p == s.numSamples
    ensures r.state.next == Finishing ==> r.events == []
    ensures r.state.next == Running ==>
      r.state.p == s.p + BatchSize && r.events == [Progress(r.state.p as real / s.numSamples as real)]
  {
    var b := RunBatch(s, smp, 0);
    RangeAppend(0, s.p, b.p);
    if b.next == Finishing then Outcome(b, [])
    else Outcome(b, [Progress(b.p as real / b.numSamples as real)])
  }

  /** The final factor of coefficient `i`: its band's irradiance factor, if asked for, times `4 pi / totalWeight`. */
  function ScaleFactor(irradiance: bool, pi: real, totalWeight: real, i: nat): real
    requires totalWeight != 0.0 && i < Count
  {
    (if irradiance then IrrConstants(pi)[i] else 1.0) * (pi * 4.0 / totalWeight)
  }

  /** Irradiance only multiplies the plain factor by the band's convolution factor. */
  lemma IrradianceFactor(pi: real, totalWeight: real, i: nat)
    requires totalWeight != 0.0 && i < Count
    ensures ScaleFactor(true, pi, totalWeight, i) == BandFactor(pi, Band(i)) * ScaleFactor(false, pi, totalWeight, i)
  {
    IrrConstantsByBand(pi, i);
  }

  /** Every coefficient times its final factor. */
  function ScaleAll(sh: seq<Rgb>, irradiance: bool, pi: real, totalWeight: real): (r: seq<Rgb>)
    requires |sh| == Count && totalWeight != 0.0
    ensures |r| == Count
  {
    seq(Count, i requires 0 <= i < Count => sh[i].Times(ScaleFactor(irradiance, pi, totalWeight, i)))
  }

  /** The scaled coefficients `_finish` reports for a whole image. */
  function Finalised(smp: Sampling, img: Image, irradiance: bool): (f: seq<Rgb>)
    requires PositiveWeights(smp) && WellFormed(img)
    ensures |f| == Count
  {
    WeightSumPositive(smp, img, Samples(img));
    ScaleAll(Sums(smp, img, Samples(img)), irradiance, smp.pi, WeightSum(smp, img, Samples(img)))
  }

  /** Final coefficient `i` is the sum of its contributions over all pixels times its factor. */
  lemma FinalisedAt(smp: Sampling, img: Image, irradiance: bool, i: nat)
    requires PositiveWeights(smp) && WellFormed(img) && i < Count
    ensures WeightSum(smp, img, Samples(img)) > 0.0
    ensures Finalised(smp, img, irradiance)[i]
         == CoefficientSum(smp, img, Samples(img), i).Times(ScaleFactor(irradiance, smp.pi, WeightSum(smp, img, Samples(img)), i))
  {
    WeightSumPositive(smp, img, Samples(img));
    SumsAt(smp, img, Samples(img), i);
  }

  /**
   * The `_finish` step: every accumulator scaled by its factor, then progress 1,
   * then completion with the nine scaled triples. Nothing is scheduled after it.
   */
  function Finish(s: Projector, smp: Sampling): (r: Outcome)
    requires PositiveWeights(smp) && Invariant(s, smp) && s.next == Finishing
    ensures r.state.(sh := s.sh, next := s.next) == s && r.state.next == Done
    ensures r.state.sh == Finalised(smp, s.image, s.irradiance)
    ensures r.events == [Progress(1.0), Complete(r.state.sh)]
  {
    WeightSumPositive(smp, s.image, s.p);
    var sh := ScaleAll(s.sh, s.irradiance, smp.pi, s.totalWeight);
    Outcome(s.(sh := sh, next := Done), [Progress(1.0), Complete(sh)])
  }

  /** A state the scheduler can run: a scheduled step with its invariant, or a finished projector. */
  predicate Runnable(s: Projector, smp: Sampling) {
    s.next == Done || Invariant(s, smp)
  }

  /** Run whatever is scheduled; a finished projector does nothing. */
  function Step(s: Projector, smp: Sampling): (r: Outcome)
    requires PositiveWeights(smp) && Runnable(s, smp)
    ensures Runnable(r.state, smp)
    ensures s.next == Done ==> r == Outcome(s, [])
  {
    match s.next
    case Running => DoPart(s, smp)
    case Finishing => Finish(s, smp)
    case Done => Outcome(s, [])
  }

  /** `n` scheduled steps in order, with all their callbacks. */
  function Run(s: Projector, smp: Sampling, n: nat): (r: Outcome)
    requires PositiveWeights(smp) && Runnable(s, smp)
    ensures Runnable(r.state, smp)
    decreases n
  {
    if n == 0 then Outcome(s, [])
    else
      var a := Step(s, smp);
      var b := Run(a.state, smp, n - 1);
      Outcome(b.state, a.events + b.events)
  }

  /** `generate`: reset, then the first batch straight away. */
  function Generate(img: Image, irradiance: bool, smp: Sampling): (r: Outcome)
    requires WellFormed(img)
    ensures Invariant(r.state, smp) && r.state.image == img && r.state.irradiance == irradiance
    ensures r.state.p == Min(BatchSize, img.width * img.height) && r.state.trace == Range(0, r.state.p)
  {
    ResetInvariant(img, irradiance, smp);
    DoPart(Reset(img, irradiance), smp)
  }

  // ---------------------------------------------------------------------------
  // Whole runs

  /** The number of batches for `n` pixels: `ceil(n / 10000)`. */
  function Batches(n: nat): nat {
    (n + BatchSize - 1) / BatchSize
  }

  /** The cursor `k * 10000` is before the last pixel exactly when batch `k` is not the last one. */
  lemma BatchesBound(n: nat, k: nat)
    ensures k * BatchSize < n <==> k < Batches(n)
  {
  }

  /** The intermediate progress values of a run over `n` pixels: `10000 (j + 1) / n`. */
  function ProgressEvents(n: nat): (es: seq<Event>)
    requires n >= 1
    ensures |es| == Batches(n) - 1
  {
    seq(Batches(n) - 1, j requires 0 <= j < Batches(n) - 1 => Progress(((j + 1) * BatchSize) as real / n as real))
  }

  /** Intermediate progress is strictly increasing. */
  lemma ProgressIncreasing(n: nat, j: nat, k: nat)
    requires n >= 1 && j < k < Batches(n) - 1
    ensures ProgressEvents(n)[j].fraction < ProgressEvents(n)[k].fraction
  {
    var a, b := ((j + 1) * BatchSize) as real, ((k + 1) * BatchSize) as real;
    DivideMonotone(a, b, n as real);
  }

  /** Intermediate progress stays below 1: every reported cursor is before the last pixel. */
  lemma ProgressBelowOne(n: nat, j: nat)
    requires n >= 1 && j < Batches(n) - 1
    ensures ProgressEvents(n)[j].fraction < 1.0
  {
    BatchesBound(n, j + 1);
    FractionBelowOne(((j + 1) * BatchSize) as real, n as real);
  }

  lemma DivideMonotone(a: real, b: real, d: real)
    requires a < b && d > 0.0
    ensures a / d < b / d
  {
  }

  lemma FractionBelowOne(a: real, d: real)
    requires 0.0 <= a < d
    ensures a / d < 1.0
  {
  }

  /** The completed projector over `img`: every pixel traced once in order, the scaled sums in the accumulators. */
  predicate Completed(s: Projector, img: Image, irradiance: bool, f: seq<Rgb>) {
    && s.next == Done && s.image == img && s.irradiance == irradiance
    && s.p == Samples(img) && s.trace == Range(0, Samples(img))
    && s.sh == f
  }

  /** The callbacks of a whole run from batch `k` on: the remaining progress values, progress 1, completion. */
  function RunEvents(n: nat, k: nat, f: seq<Rgb>): seq<Event>
    requires n >= 1 && k < Batches(n)
  {
    ProgressEvents(n)[k..] + [Progress(1.0), Complete(f)]
  }

  /** The last batch followed by the scaling. */
  lemma LastBatch(s: Projector, smp: Sampling, k: nat, m: nat, f: seq<Rgb>)
    requires PositiveWeights(smp) && Invariant(s, smp) && s.next == Running
    requires s.p == k * BatchSize && s.numSamples <= s.p + BatchSize
    requires m == Batches(s.numSamples) - k + 1
    requires f == Finalised(smp, s.image, s.irradiance)
    ensures Completed(Run(s, smp, m).state, s.image, s.irradiance, f)
    ensures Run(s, smp, m).events == RunEvents(s.numSamples, k, f)
  {
    BatchesBound(s.numSamples, k);
    BatchesBound(s.numSamples, k + 1);
    assert m == 2;
    var a := DoPart(s, smp);
    var b := Finish(a.state, smp);
    assert Run(a.state, smp, 1) == Outcome(b.state, b.events + []);
    RangeAppend(0, s.p, s.numSamples);
  }

  /** A run of `m` steps is the scheduled step followed by a run of `m - 1` steps. */
  lemma RunCons(s: Projector, smp: Sampling, m: nat, a: Outcome)
    requires PositiveWeights(smp) && Runnable(s, smp) && m >= 1 && a == Step(s, smp)
    ensures Run(s, smp, m).state == Run(a.state, smp, m - 1).state
    ensures Run(s, smp, m).events == a.events + Run(a.state, smp, m - 1).events
  {
  }

  /** A batch that is not the last one reports progress `10000 (k + 1) / n` and leaves the rest of the run. */
  lemma MiddleBatch(s: Projector, smp: Sampling, k: nat, m: nat) returns (t: Projector)
    requires PositiveWeights(smp) && Invariant(s, smp) && s.next == Running
    requires s.p == k * BatchSize && s.p + BatchSize < s.numSamples && m >= 1
    ensures Invariant(t, smp) && t.next == Running && t.p == (k + 1) * BatchSize
    ensures t.image == s.image && t.irradiance == s.irradiance && t.numSamples == s.numSamples
    ensures k + 1 < Batches(s.numSamples)
    ensures Run(s, smp, m).state == Run(t, smp, m - 1).state
    ensures Run(s, smp, m).events == [ProgressEvents(s.numSamples)[k]] + Run(t, smp, m - 1).events
  {
    BatchesBound(s.numSamples, k + 1);
    var a := DoPart(s, smp);
    t := a.state;
    RunCons(s, smp, m, a);
  }

  lemma EventsCons(es: seq<Event>, k: nat, rest: seq<Event>)
    requires k < |es|
    ensures [es[k]] + (es[k + 1..] + rest) == es[k..] + rest
  {
  }

  /**
   * From the batch starting at pixel `10000 k`, the remaining batches and the scaling
   * finish the projector and make exactly the remaining callbacks.
   */
  lemma {:induction false} RunFrom(s: Projector, smp: Sampling, k: nat, m: nat, f: seq<Rgb>)
    requires PositiveWeights(smp) && Invariant(s, smp) && s.next == Running && s.p == k * BatchSize
    requires m == Batches(s.numSamples) - k + 1
    requires f == Finalised(smp, s.image, s.irradiance)
    ensures k < Batches(s.numSamples)
    ensures Completed(Run(s, smp, m).state, s.image, s.irradiance, f)
    ensures Run(s, smp, m).events == RunEvents(s.numSamples, k, f)
    decreases s.numSamples - s.p
  {
    BatchesBound(s.numSamples, k);
    if s.numSamples <= s.p + BatchSize {
      LastBatch(s, smp, k, m, f);
    } else {
      var t := MiddleBatch(s, smp, k, m);
      RunFrom(t, smp, k + 1, m - 1, f);
      EventsCons(ProgressEvents(s.numSamples), k, [Progress(1.0), Complete(f)]);
    }
  }

  /**
   * A whole projection: `generate` runs the first batch, and `ceil(n / 10000)` more
   * scheduled steps accumulate every pixel once in order, report the `ceil(n / 10000) - 1`
   * intermediate progress values, then progress 1 and the scaled coefficients.
   */
  lemma WholeRun(img: Image, irradiance: bool, smp: Sampling)
    requires PositiveWeights(smp) && WellFormed(img)
    ensures Generate(img, irradiance, smp) == Step(Reset(img, irradiance), smp)
    ensures Completed(Run(Reset(img, irradiance), smp, Batches(Samples(img)) + 1).state, img, irradiance, Finalised(smp, img, irradiance))
    ensures Run(Reset(img, irradiance), smp, Batches(Samples(img)) + 1).events
         == ProgressEvents(Samples(img)) + [Progress(1.0), Complete(Finalised(smp, img, irradiance))]
  {
    ResetInvariant(img, irradiance, smp);
    RunFrom(Reset(img, irradiance), smp, 0, Batches(Samples(img)) + 1, Finalised(smp, img, irradiance));
  }

  /** A finished projector stays finished and makes no further callbacks. */
  lemma {:induction false} DoneStaysDone(s: Projector, smp: Sampling, n: nat)
    requires PositiveWeights(smp) && s.next == Done
    ensures Run(s, smp, n) == Outcome(s, [])
    decreases n
  {
    if n > 0 {
      DoneStaysDone(s, smp, n - 1);
    }
  }

  /** In a whole run the completion callback comes last and exactly once, right after progress 1. */
  lemma CompletesOnce(img: Image, irradiance: bool, smp: Sampling, es: seq<Event>)
    requires PositiveWeights(smp) && WellFormed(img)
    requires es == Run(Reset(img, irradiance), smp, Batches(Samples(img)) + 1).events
    ensures |es| >= 2 && es[|es| - 1].Complete? && es[|es| - 2] == Progress(1.0)
    ensures forall j | 0 <= j < |es| - 1 :: es[j].Progress?
    ensures forall j | 0 <= j < |es| - 2 :: es[j].fraction < 1.0
  {
    WholeRun(img, irradiance, smp);
    var n := Samples(img);
    var pe := ProgressEvents(n);
    assert es == pe + [Progress(1.0), Complete(Finalised(smp, img, irradiance))];
    forall j | 0 <= j < |es| - 2
      ensures es[j].Progress? && es[j].fraction < 1.0
    {
      assert es[j] == pe[j];
      ProgressBelowOne(n, j);
    }
  }

  // ---------------------------------------------------------------------------
  // Decoded images

  lemma MulBounded(a: int, w: int)
    requires w > 0 && -w < a * w < w
    ensures a == 0
  {
  }

  lemma DivModOf(p: nat, w: int, y: int, x: int)
    requires w > 0 && 0 <= x < w && p == y * w + x
    ensures p / w == y && p % w == x
  {
    var q, r := p / w, p % w;
    assert q * w + r == p;
    assert (q - y) * w == q * w - y * w;
    MulBounded(q - y, w);
  }

  lemma PixelIndex(w: nat, n: nat, y: nat, x: nat)
    requires y < n && x < w
    ensures y * w + x < w * n
    ensures 3 * (y * w + x) == 3 * w * y + 3 * x
  {
    assert (y + 1) * w <= n * w;
  }

  /** A decoded picture has three values per pixel and at least one pixel when it has a column and a row. */
  lemma DecodedWellFormed(rows: seq<seq<HdrRle.Run>>, w: nat, h: HdrHeader.Header)
    requires w > 0 && |rows| > 0 && RowsFill(rows, w)
    ensures WellFormed(Image(w, |rows|, PictureValues(rows, w, h)))
  {
    RowOffsetProduct(w, |rows|);
    assert w * |rows| >= 1;
  }

  lemma PixelColorAt(img: Image, p: nat, c: nat)
    requires WellFormed(img) && p < Samples(img) && c < 3
    ensures 3 * p + c < |img.data| && PixelColor(img, p).At(c) == img.data[3 * p + c]
  {
  }

  /** Pixel `y * w + x` of an image with `n` rows of `w` pixels is at column `x` of row `y`. */
  lemma DecodedPosition(w: nat, n: nat, y: nat, x: nat, p: nat)
    requires w > 0 && y < n && x < w && p == y * w + x
    ensures p < w * n && Column(p, w) == x && Row(p, w) == y
  {
    PixelIndex(w, n, y, x);
    DivModOf(p, w, y, x);
  }

  lemma DataIndex(w: nat, y: nat, x: nat, c: nat, p: nat, base: nat)
    requires p == y * w + x && base == 3 * w * y
    ensures 3 * p + c == base + 3 * x + c
  {
    assert 3 * (y * w) == 3 * w * y;
  }

  /**
   * The projector's pixel `p = y * w + x` of a decoded picture is column `x` of scanline
   * `y` as the decoder reconstructed it: the row-major layout of the two halves agrees.
   */
  lemma DecodedPixel(rows: seq<seq<HdrRle.Run>>, w: nat, h: HdrHeader.Header, img: Image, y: nat, x: nat, c: nat, p: nat)
    requires w > 0 && RowsFill(rows, w) && y < |rows| && x < w && c < 3
    requires img == Image(w, |rows|, PictureValues(rows, w, h)) && p == y * w + x
    ensures WellFormed(img) && p < Samples(img)
    ensures Column(p, w) == x && Row(p, w) == y
    ensures |HdrRle.ExpandAll(rows[y])| >= 4 * w
    ensures PixelColor(img, p).At(c) == HdrPixels.Channel(HdrRle.ExpandAll(rows[y]), w, x, c, h)
  {
    DecodedWellFormed(rows, w, h);
    DecodedPosition(w, |rows|, y, x, p);
    var base := RowOffset(w, y);
    RowOffsetProduct(w, y);
    DataIndex(w, y, x, c, p, base);
    PictureValuesAt(rows, w, h, y, x, c, base);
    PixelColorAt(img, p, c);
  }
}
