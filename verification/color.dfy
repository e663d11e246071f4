/** Colour triples over exact reals. */
module Color {

  /** One red/green/blue value; used for decoded pixels, colour correction and SH coefficients. */
  datatype Rgb = Rgb(r: real, g: real, b: real) {

    /** Channel `c` (0 = red, 1 = green, 2 = blue). */
    function At(c: nat): real
      requires c < 3
    {
      if c == 0 then r else if c == 1 then g else b
    }

    function Plus(o: Rgb): Rgb {
      Rgb(r + o.r, g + o.g, b + o.b)
    }

    function Times(k: real): Rgb {
      Rgb(r * k, g * k, b * k)
    }
  }

  const Black := Rgb(0.0, 0.0, 0.0)
}
