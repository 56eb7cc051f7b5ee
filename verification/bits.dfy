/**
  Index arithmetic of the iterative FFT: powers of two, the floor base-2
  logarithm (`log2` in fft.go) and the reversal of the low bits of an index
  (`reverse` in fft.go).

  Go's `int` is modelled as an unbounded `int`. For a non-negative `i`, Go's
  `i >> b` is `i / Pow2(b)` and `x & 1` is `x % 2`; Dafny's Euclidean `/` and
  `%` by a positive divisor round toward minus infinity, which is also what
  an arithmetic shift does on a negative `i`, so the model agrees with the
  shifts for every `int`.
*/
module Bits {

  /** 2^k, that is `1 << k`. */
  function Pow2(k: nat): (r: nat)
    ensures r >= 1
  {
    if k == 0 then 1 else 2 * Pow2(k - 1)
  }

  /** `log2(N)`: the number of times N can be halved while it exceeds 1. */
  function Log2(n: int): (r: nat)
    ensures n <= 1 ==> r == 0
    ensures n >= 1 ==> Pow2(r) <= n < Pow2(r + 1)
    decreases n
  {
    if n > 1 then 1 + Log2(n / 2) else 0
  }

  /** n is a power of two: the only lengths the transform is defined for. */
  predicate IsPow2(n: int) {
    n >= 1 && Pow2(Log2(n)) == n
  }

  /** Bit b of i, that is `(i >> b) & 1`. */
  function Bit(i: int, b: nat): int {
    (i / Pow2(b)) % 2
  }

  /** `x | (1 << p)` for a non-negative x. */
  function OrBit(x: nat, p: nat): nat {
    if Bit(x, p) == 1 then x else x + Pow2(p)
  }

  /**
    Reference definition of bit reversal: the low w bits of i, read from the
    least significant end, written from the most significant end.
  */
  function RevBits(i: int, w: nat): (r: nat)
    ensures r < Pow2(w)
    decreases w
  {
    if w == 0 then 0
    else (if i % 2 == 1 then Pow2(w - 1) else 0) + RevBits(i / 2, w - 1)
  }

  /**
    `reverse(i, n)`: loops over the low log2(n) bits of i and, for each set
    bit b, sets bit `bits - 1 - b` of the result.
  */
  method Reverse(i: int, n: int) returns (r: int)
    ensures r == RevBits(i, Log2(n))
    ensures 0 <= r < Pow2(Log2(n))
    ensures n >= 1 ==> r < n
    ensures n <= 1 ==> r == 0
  {
    var bits := Log2(n);
    var result: nat := 0;
    for b := 0 to bits
      invariant result % Pow2(bits - b) == 0
      invariant result + RevBits(i / Pow2(b), bits - b) == RevBits(i, bits)
    {
      DivTwice(i, Pow2(b));
      if Bit(i, b) != 1 {
        MultipleOfDoubleIsMultiple(result, bits - 1 - b);
        continue;
      }
      OrFreshBit(result, bits - 1 - b);
      result := OrBit(result, bits - 1 - b);
    }
    r := result;
  }

  // ----- arithmetic helpers -----

  lemma DivUnique(i: int, d: int, q: int, r: int)
    requires d > 0 && 0 <= r < d && i == q * d + r
    ensures i / d == q && i % d == r
  {
    var q0, r0 := i / d, i % d;
    assert q0 * d + r0 == q * d + r;
    if q0 < q {
      assert (q - q0) * d == q * d - q0 * d;
      MulAtLeast(q - q0, d);
    } else if q < q0 {
      assert (q0 - q) * d == q0 * d - q * d;
      MulAtLeast(q0 - q, d);
    }
  }

  lemma MulAtLeast(a: int, d: int)
    requires a >= 1 && d > 0
    ensures a * d >= d
  {
    assert a * d == (a - 1) * d + d;
  }

  lemma DivMod(i: int, d: int)
    requires d > 0
    ensures i == (i / d) * d + i % d && 0 <= i % d < d
  {
  }

  lemma MulMonotone(x: int, y: int, m: int)
    requires x <= y && m >= 0
    ensures x * m <= y * m
  {
    assert y * m - x * m == (y - x) * m;
  }

  /** Two successive shifts compose: `(i >> b) >> 1 == i >> (b + 1)`. */
  lemma DivTwice(i: int, d: int)
    requires d > 0
    ensures i / d / 2 == i / (2 * d)
  {
    var q, r := i / d, i % d;
    var h, e := q / 2, q % 2;
    assert q * d == h * (2 * d) + e * d;
    DivUnique(i, 2 * d, h, e * d + r);
  }

  lemma MultipleOfDoubleIsMultiple(x: nat, p: nat)
    requires x % Pow2(p + 1) == 0
    ensures x % Pow2(p) == 0
  {
    var c := x / Pow2(p + 1);
    DivUnique(x, Pow2(p), 2 * c, 0);
  }

  /** Setting a bit that is clear in x adds 2^p and keeps x a multiple of 2^p. */
  lemma OrFreshBit(x: nat, p: nat)
    requires x % Pow2(p + 1) == 0
    ensures Bit(x, p) == 0
    ensures OrBit(x, p) == x + Pow2(p)
    ensures OrBit(x, p) % Pow2(p) == 0
  {
    var c := x / Pow2(p + 1);
    DivUnique(x, Pow2(p), 2 * c, 0);
    DivUnique(x + Pow2(p), Pow2(p), 2 * c + 1, 0);
  }

  /** `m >> 1` for m = 2^s, s >= 1, is 2^(s-1). */
  lemma Pow2Half(s: nat)
    requires s >= 1
    ensures Pow2(s) / 2 == Pow2(s - 1) && Pow2(s) == 2 * (Pow2(s) / 2)
  {
    DivUnique(Pow2(s), 2, Pow2(s - 1), 0);
  }

  /** The number of times 2 divides n >= 1. */
  function Twos(n: nat): nat
    requires n >= 1
    decreases n
  {
    if n % 2 == 0 then 1 + Twos(n / 2) else 0
  }

  /** n >= 1 with every factor 2 removed. */
  function OddPart(n: nat): nat
    requires n >= 1
    decreases n
  {
    if n % 2 == 0 then OddPart(n / 2) else n
  }

  /** Every n >= 1 is 2^a times an odd number, a = `Twos(n)`. */
  lemma {:induction false} TwosSplit(n: nat)
    requires n >= 1
    ensures n == Pow2(Twos(n)) * OddPart(n) && OddPart(n) % 2 == 1
    decreases n
  {
    if n % 2 == 0 {
      var h := n / 2;
      TwosSplit(h);
      var t, o := Twos(h), OddPart(h);
      assert Pow2(t + 1) * o == 2 * (Pow2(t) * o);
    }
  }

  /** A length that is not a power of two has an odd part of at least 3. */
  lemma OddPartOfNonPow2(n: nat)
    requires n >= 1 && !IsPow2(n)
    ensures OddPart(n) >= 3
  {
    TwosSplit(n);
    if OddPart(n) == 1 {
      Log2OfPow2(Twos(n));
      assert false;
    }
  }

  /** n = p * (2c + 1) less p is c whole blocks of 2p. */
  lemma OddMultipleLess(n: int, p: int, o: int, c: int)
    requires n == p * o && o == 2 * c + 1
    ensures n - p == c * (2 * p)
  {
  }

  // ----- properties of the logarithm -----

  /** log2 is at least s once N reaches 2^s. */
  lemma {:induction false} Log2AtLeast(n: int, s: nat)
    requires n >= Pow2(s)
    ensures Log2(n) >= s
  {
    if s > 0 {
      Log2AtLeast(n / 2, s - 1);
    }
  }

  /** log2 is exact on powers of two. */
  lemma {:induction false} Log2OfPow2(k: nat)
    ensures Log2(Pow2(k)) == k
    ensures IsPow2(Pow2(k))
  {
    if k > 0 {
      Log2OfPow2(k - 1);
      assert Pow2(k) / 2 == Pow2(k - 1);
    }
  }

  /** A smaller power of two divides a larger one. */
  lemma {:induction false} Pow2Divides(s: nat, l: nat)
    requires s <= l
    ensures Pow2(l) % Pow2(s) == 0
    ensures Pow2(l) == Pow2(l - s) * Pow2(s)
  {
    if s < l {
      Pow2Divides(s, l - 1);
      assert Pow2(l) == 2 * Pow2(l - 1 - s) * Pow2(s);
      assert Pow2(l - s) == 2 * Pow2(l - 1 - s);
    }
    DivUnique(Pow2(l), Pow2(s), Pow2(l - s), 0);
  }

  // ----- properties of bit reversal -----

  /** Reversing w+1 bits moves the top bit (set when c holds) to the bottom. */
  lemma {:induction false} RevBitsTop(x: int, c: bool, w: nat)
    requires 0 <= x < Pow2(w)
    ensures RevBits(x + (if c then Pow2(w) else 0), w + 1) == 2 * RevBits(x, w) + (if c then 1 else 0)
  {
    var j := x + (if c then Pow2(w) else 0);
    if w > 0 {
      var h := if c then Pow2(w - 1) else 0;
      DivUnique(j, 2, x / 2 + h, x % 2);
      RevBitsTop(x / 2, c, w - 1);
    }
  }

  /** Reversing the low w bits twice gives back every index below 2^w. */
  lemma {:induction false} RevBitsInvolution(i: int, w: nat)
    requires 0 <= i < Pow2(w)
    ensures RevBits(RevBits(i, w), w) == i
  {
    if w > 0 {
      RevBitsInvolution(i / 2, w - 1);
      RevBitsTop(RevBits(i / 2, w - 1), i % 2 == 1, w - 1);
    }
  }

  /**
    For N a power of two, `reverse(., N)` is an involution of [0, N), hence a
    bijection of [0, N).
  */
  lemma ReverseInvolution(n: int)
    requires IsPow2(n)
    ensures forall i :: 0 <= i < n ==> RevBits(RevBits(i, Log2(n)), Log2(n)) == i
    ensures forall i, j :: 0 <= i < n && 0 <= j < n && RevBits(i, Log2(n)) == RevBits(j, Log2(n)) ==> i == j
  {
    var l := Log2(n);
    forall i | 0 <= i < n
      ensures RevBits(RevBits(i, l), l) == i
    {
      RevBitsInvolution(i, l);
    }
    forall i, j | 0 <= i < n && 0 <= j < n && RevBits(i, l) == RevBits(j, l)
      ensures i == j
    {
      assert RevBits(RevBits(i, l), l) == RevBits(RevBits(j, l), l);
    }
  }

  /**
    The swap guard `j > i` of the bit-reversal loop: no index belongs to two
    of the pairs (i, reverse(i)) that it lets through, so every pair is
    swapped once and no element is moved twice.
  */
  lemma SwapPairsDisjoint(n: int, i: int, i': int)
    requires IsPow2(n) && 0 <= i < n && 0 <= i' < n
    requires RevBits(i, Log2(n)) > i && RevBits(i', Log2(n)) > i'
    requires i == i' || i == RevBits(i', Log2(n)) || RevBits(i, Log2(n)) == i' || RevBits(i, Log2(n)) == RevBits(i', Log2(n))
    ensures i == i'
  {
    ReverseInvolution(n);
  }
}
