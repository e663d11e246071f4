/**
 * Reconstruction of pixels from one decoded scanline. The scanline's component bytes
 * form four planes of `width` bytes each (R, G, B, then the shared exponent E), and each
 * channel is `component * 2^(E - 136) * exposure * colorCorr[c]`, with E = 0 meaning 0.
 */
module HdrPixels {
  import opened Color
  import opened HdrBytes
  import opened HdrHeader

  /** 2 to the power `k`, for any integer `k`. */
  function Pow2(k: int): (r: real)
    ensures r > 0.0
    decreases if k >= 0 then k else -k
  {
    if k == 0 then 1.0
    else if k > 0 then 2.0 * Pow2(k - 1)
    else Pow2(k + 1) / 2.0
  }

  lemma Pow2Succ(k: int)
    ensures Pow2(k + 1) == 2.0 * Pow2(k)
  {
  }

  /** Eight doublings multiply by 256. */
  lemma Pow2Plus8(k: int)
    ensures Pow2(k + 8) == 256.0 * Pow2(k)
  {
    Pow2Succ(k);
    Pow2Succ(k + 1);
    Pow2Succ(k + 2);
    Pow2Succ(k + 3);
    Pow2Succ(k + 4);
    Pow2Succ(k + 5);
    Pow2Succ(k + 6);
    Pow2Succ(k + 7);
  }

  /** The exponent bias of the decoder. */
  const ExponentBias := 136

  /** The factor an exponent byte stands for: 0 for E = 0, else 2^(E - 136). */
  function Scale(e: byte): (s: real)
    ensures s >= 0.0
    ensures s == 0.0 <==> e == 0
  {
    if e == 0 then 0.0 else Pow2(e - ExponentBias)
  }

  /** Each step of a non-zero exponent doubles the scale; E = 136 is the unit scale. */
  lemma ScaleSteps(e: byte)
    requires 1 <= e < 255
    ensures Scale(e + 1) == 2.0 * Scale(e)
    ensures Scale(ExponentBias) == 1.0
  {
    Pow2Succ(e - ExponentBias);
  }

  /**
   * The bias 136 is the usual Radiance bias 128 plus the 8 bits of the component byte:
   * a component `m` with exponent E stands for `(m / 256) * 2^(E - 128)`.
   */
  lemma ScaleIsMantissaFraction(m: byte, e: byte)
    requires e != 0
    ensures m as real * Scale(e) == (m as real / 256.0) * Pow2(e - 128)
  {
    Pow2Plus8(e - ExponentBias);
  }

  /** Where plane `c` of a scanline of `w` pixels starts: `c * w`, spelled out per plane. */
  function PlaneStart(c: nat, w: nat): (p: nat)
    requires c < 4
    ensures p <= 3 * w
  {
    if c == 0 then 0 else if c == 1 then w else if c == 2 then 2 * w else 3 * w
  }

  /**
   * Channel `c` of pixel `x` in a scanline of `w` pixels, read from plane `c` and the
   * exponent plane. The decoder multiplies left to right; over the reals the grouping
   * does not matter, and the factors after the component are grouped together here.
   */
  function Channel(comps: seq<byte>, w: nat, x: nat, c: nat, h: Header): real
    requires x < w && c < 3 && |comps| >= 4 * w
  {
    comps[x + PlaneStart(c, w)] as real * (Scale(comps[x + PlaneStart(3, w)]) * (h.exposure * h.colorCorr.At(c)))
  }

  /** The three channels of pixel `x`, in R, G, B order. */
  function PixelOf(comps: seq<byte>, w: nat, x: nat, h: Header): seq<real>
    requires x < w && |comps| >= 4 * w
  {
    seq(3, c requires 0 <= c < 3 => Channel(comps, w, x, c, h))
  }

  /**
   * The first `n` pixels of a scanline, three values per pixel, built pixel by pixel as
   * the decoder's column loop does.
   */
  function RowValues(comps: seq<byte>, w: nat, n: nat, h: Header): (vals: seq<real>)
    requires n <= w && |comps| >= 4 * w
    ensures |vals| == 3 * n
    decreases n
  {
    if n == 0 then [] else RowValues(comps, w, n - 1, h) + PixelOf(comps, w, n - 1, h)
  }

  /** A pixel whose exponent byte is 0 is black, whatever its other components. */
  lemma ZeroExponentIsBlack(comps: seq<byte>, w: nat, x: nat, h: Header)
    requires x < w && |comps| >= 4 * w && comps[x + 3 * w] == 0
    ensures var vals := RowValues(comps, w, w, h);
            vals[3 * x] == 0.0 && vals[3 * x + 1] == 0.0 && vals[3 * x + 2] == 0.0
  {
    RowValuesAt(comps, w, w, h, x, 0);
    RowValuesAt(comps, w, w, h, x, 1);
    RowValuesAt(comps, w, w, h, x, 2);
    ZeroExponentChannel(comps, w, x, 0, h);
    ZeroExponentChannel(comps, w, x, 1, h);
    ZeroExponentChannel(comps, w, x, 2, h);
  }

  lemma ZeroExponentChannel(comps: seq<byte>, w: nat, x: nat, c: nat, h: Header)
    requires x < w && c < 3 && |comps| >= 4 * w && comps[x + 3 * w] == 0
    ensures Channel(comps, w, x, c, h) == 0.0
  {
    assert Scale(comps[x + 3 * w]) == 0.0;
  }

  /** Channel `c` of pixel `x` sits at index `3 * x + c` of the row. */
  lemma {:induction false} RowValuesAt(comps: seq<byte>, w: nat, n: nat, h: Header, x: nat, c: nat)
    requires n <= w && |comps| >= 4 * w && x < n && c < 3
    ensures RowValues(comps, w, n, h)[3 * x + c] == Channel(comps, w, x, c, h)
    decreases n
  {
    var prev := RowValues(comps, w, n - 1, h);
    var pixel := PixelOf(comps, w, n - 1, h);
    assert RowValues(comps, w, n, h) == prev + pixel;
    if x < n - 1 {
      RowValuesAt(comps, w, n - 1, h, x, c);
      assert (prev + pixel)[3 * x + c] == prev[3 * x + c];
    } else {
      assert (prev + pixel)[3 * x + c] == pixel[c];
    }
  }
}
