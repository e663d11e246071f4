/**
 * The constant tables of the spherical-harmonics projector and the nine real
 * harmonics up to band 2. Square roots and pi are not computed: pi is a positive real
 * and the normalisation constants are pinned by their squares.
 */
module ShTables {
  import opened Color

  /** The number of coefficients, bands 0 to 2. */
  const Count := 9

  /** The band of coefficient `i`: one coefficient for band 0, three for band 1, five for band 2. */
  function Band(i: nat): (l: nat)
    requires i < Count
    ensures l <= 2
  {
    if i == 0 then 0 else if i < 4 then 1 else 2
  }

  /** Each band holds `2 * l + 1` coefficients, the first of band `l` at index `l * l`. */
  lemma BandSizes(i: nat)
    requires i < Count
    ensures Band(i) * Band(i) <= i < (Band(i) + 1) * (Band(i) + 1)
  {
  }

  /** The irradiance convolution factor per band: pi, 2 pi / 3 and pi / 4. */
  function BandFactor(pi: real, l: nat): real
    requires l <= 2
  {
    if l == 0 then pi else if l == 1 then pi * 2.0 / 3.0 else pi / 4.0
  }

  /** The irradiance factors, one per coefficient, as the projector lists them. */
  function IrrConstants(pi: real): (t: seq<real>)
    ensures |t| == Count
  {
    [pi,
     pi * 2.0 / 3.0, pi * 2.0 / 3.0, pi * 2.0 / 3.0,
     pi / 4.0, pi / 4.0, pi / 4.0, pi / 4.0, pi / 4.0]
  }

  /** The table groups as 1, 3 and 5 entries: entry `i` is the factor of its band. */
  lemma IrrConstantsByBand(pi: real, i: nat)
    requires i < Count
    ensures IrrConstants(pi)[i] == BandFactor(pi, Band(i))
  {
  }

  /** For a positive pi the factors decrease with the band. */
  lemma IrrConstantsDecrease(pi: real, i: nat, j: nat)
    requires pi > 0.0 && i < j < Count && Band(i) < Band(j)
    ensures IrrConstants(pi)[i] > IrrConstants(pi)[j]
  {
    IrrConstantsByBand(pi, i);
    IrrConstantsByBand(pi, j);
  }

  /** The five normalisation constants of the real harmonics. */
  datatype Norms = Norms(l0: real, l1: real, l2_1: real, l2_2: real, l2_3: real)

  /**
   * The constants are `0.5 sqrt(1/pi)`, `0.5 sqrt(3/pi)`, `0.5 sqrt(15/pi)`,
   * `0.25 sqrt(5/pi)` and `0.25 sqrt(15/pi)`: positive, with these squares times pi.
   */
  predicate IsNorms(n: Norms, pi: real) {
    && pi > 0.0
    && n.l0 > 0.0 && n.l0 * n.l0 * pi == 0.25
    && n.l1 > 0.0 && n.l1 * n.l1 * pi == 0.75
    && n.l2_1 > 0.0 && n.l2_1 * n.l2_1 * pi == 3.75
    && n.l2_2 > 0.0 && n.l2_2 * n.l2_2 * pi == 0.3125
    && n.l2_3 > 0.0 && n.l2_3 * n.l2_3 * pi == 0.9375
  }

  /** The normalisation constant of each coefficient, as the projector lists them. */
  function ShConstants(n: Norms): (t: seq<real>)
    ensures |t| == Count
  {
    [n.l0, n.l1, n.l1, n.l1, n.l2_1, n.l2_1, n.l2_2, n.l2_1, n.l2_3]
  }

  /**
   * Band 1 shares one constant; in band 2 indices 4, 5 and 7 use `l2_1`, index 6 `l2_2`
   * and index 8 `l2_3`.
   */
  lemma ShConstantsShared(n: Norms, i: nat)
    requires i < Count
    ensures Band(i) == 1 ==> ShConstants(n)[i] == n.l1
    ensures i == 4 || i == 5 || i == 7 ==> ShConstants(n)[i] == n.l2_1
    ensures ShConstants(n)[6] == n.l2_2 && ShConstants(n)[8] == n.l2_3
  {
  }

  lemma SquaresEqual(a: real, b: real)
    requires a > 0.0 && b > 0.0 && a * a == b * b
    ensures a == b
  {
  }

  /** `0.5 sqrt(15/pi)` is twice `0.25 sqrt(15/pi)`: the two band-2 constants differ by 2. */
  lemma L2Ratio(n: Norms, pi: real)
    requires IsNorms(n, pi)
    ensures n.l2_1 == 2.0 * n.l2_3
  {
    var d := 2.0 * n.l2_3;
    assert d * d * pi == 4.0 * (n.l2_3 * n.l2_3 * pi);
    assert n.l2_1 * n.l2_1 * pi == d * d * pi;
    assert n.l2_1 * n.l2_1 == d * d by {
      var a, b := n.l2_1 * n.l2_1, d * d;
      assert a * pi == b * pi;
    }
    SquaresEqual(n.l2_1, d);
  }

  /** A direction on the sphere, as the projector computes it from the pixel position. */
  datatype Dir = Dir(x: real, y: real, z: real)

  function Neg(d: Dir): Dir {
    Dir(-d.x, -d.y, -d.z)
  }

  /**
   * The basis value of coefficient `i` for direction `d`: its normalisation constant
   * times its polynomial, in the projector's order (y, z, x for band 1).
   */
  function Harmonic(n: Norms, d: Dir, i: nat): real
    requires i < Count
  {
    var c := ShConstants(n)[i];
    match i
    case 0 => c
    case 1 => c * d.y
    case 2 => c * d.z
    case 3 => c * d.x
    case 4 => c * d.x * d.y
    case 5 => c * d.y * d.z
    case 6 => c * (3.0 * d.z * d.z - 1.0)
    case 7 => c * d.z * d.x
    case _ => c * (d.x * d.x - d.y * d.y)
  }

  /** The nine basis values for direction `d`. */
  function Basis(n: Norms, d: Dir): (b: seq<real>)
    ensures |b| == Count
  {
    seq(Count, i requires 0 <= i < Count => Harmonic(n, d, i))
  }

  /** Band-1 values change sign with the direction; bands 0 and 2 do not. */
  lemma BasisParity(n: Norms, d: Dir, i: nat)
    requires i < Count
    ensures Band(i) == 1 ==> Basis(n, Neg(d))[i] == -Basis(n, d)[i]
    ensures Band(i) != 1 ==> Basis(n, Neg(d))[i] == Basis(n, d)[i]
  {
    var c := ShConstants(n)[i];
    var e := Neg(d);
    if i == 4 {
      assert c * e.x * e.y == c * d.x * d.y;
    } else if i == 5 {
      assert c * e.y * e.z == c * d.y * d.z;
    } else if i == 6 {
      assert e.z * e.z == d.z * d.z;
    } else if i == 7 {
      assert c * e.z * e.x == c * d.z * d.x;
    } else if i == 8 {
      assert e.x * e.x == d.x * d.x && e.y * e.y == d.y * d.y;
    }
  }
}
