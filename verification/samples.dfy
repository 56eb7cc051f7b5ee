/**
  The complex samples of the transform, kept abstract. The model never looks
  inside a sample: it only combines samples with the operations of an
  `Arith` record, so what it proves is about the data movement of the
  algorithm and holds for any arithmetic, exact or floating-point.
*/
module Samples {

  /**
    Sample arithmetic: `u + t`, `u - t`, `w * x`, the constant `complex(1, 0)`
    and the division `x / complex(float64(N), 0)` of the inverse transform.
  */
  datatype Arith<!T> = Arith(
    add: (T, T) -> T,
    sub: (T, T) -> T,
    mul: (T, T) -> T,
    one: T,
    divN: (T, nat) -> T)

  /**
    The principal root used by a stage of block size m:
    `cmplx.Exp(complex(0, sign*2*math.Pi/float64(m)))` for `sign` in {-1, 1}.
  */
  type Root<T> = (int, nat) -> T

  /** wm^j, built as the running product `w := 1; w *= wm` repeated j times. */
  function Pow<T>(a: Arith<T>, wm: T, j: nat): (r: T)
    ensures j == 0 ==> r == a.one
  {
    if j == 0 then a.one else a.mul(Pow(a, wm, j - 1), wm)
  }
}
