/**
  `FFT` and `IFFT` of fft.go: copy the input, permute the copy into
  bit-reversed order, run the butterfly stages s = 1 .. log2(N), and, for the
  inverse transform, divide every sample by N.

  The caller's sequence is a value here, so it cannot be changed by the
  transform: all work is done on the returned copy. Go's `nil` result for an
  empty input is the empty sequence.
*/
module Fft {
  import opened Bits
  import opened Samples
  import opened Butterfly

  /** The direction of the transform, in place of the variadic `inverse ...bool`. */
  datatype Direction = Forward | Inverse

  /** The direction the variadic flag selects: `len(inverse) > 0 && inverse[0]`. */
  function DirectionOf(inverse: seq<bool>): (d: Direction)
    ensures d == Inverse <==> |inverse| > 0 && inverse[0]
  {
    if |inverse| > 0 && inverse[0] then Inverse else Forward
  }

  /** No flag means forward, and only the first flag is looked at. */
  lemma FirstFlagDecides(b: bool, rest: seq<bool>)
    ensures DirectionOf([]) == Forward
    ensures DirectionOf([b] + rest) == DirectionOf([b]) == if b then Inverse else Forward
  {
  }

  /** `sign`: -1 for the forward transform, +1 for the inverse one. */
  function Sign(d: Direction): (r: int)
    ensures r == 1 || r == -1
    ensures r == 1 <==> d == Inverse
  {
    if d == Inverse then 1 else -1
  }

  /** The root with the opposite sign convention: exp(-sign*2*pi*i/m) for exp(sign*2*pi*i/m). */
  function Mirror<T>(root: Root<T>): Root<T> {
    (sign: int, m: nat) => root(-sign, m)
  }

  /** Reference definition of the bit-reversal permutation: index i holds x[reverse(i, N)]. */
  function BitReversed<T>(x: seq<T>): (r: seq<T>)
    ensures |r| == |x|
  {
    seq(|x|, i requires 0 <= i < |x| => x[RevBits(i, Log2(|x|))])
  }

  /** Every sample divided by N, the last step of the inverse transform. */
  function Scaled<T>(a: Arith<T>, Y: seq<T>, n: nat): (r: seq<T>)
    ensures |r| == |Y|
  {
    seq(|Y|, i requires 0 <= i < |Y| => a.divN(Y[i], n))
  }

  /**
    Reference definition of the stages s, s+1, ..., l of the butterfly loop,
    stage s using the root of block size 2^s with the given sign.
  */
  function Stages<T>(a: Arith<T>, root: Root<T>, sign: int, X: seq<T>, s: nat, l: nat): (Y: seq<T>)
    requires 1 <= s && |X| == Pow2(l)
    ensures |Y| == |X|
    decreases l + 1 - s
  {
    if s > l then X
    else
      Pow2Half(s);
      Stages(a, root, sign, StageSpec(a, root(sign, Pow2(s)), Pow2(s), Pow2(s) / 2, X), s + 1, l)
  }

  /**
    Reference definition of the transform: empty for an empty input;
    otherwise the bit-reversed input taken through stages 1 .. log2(N) with
    the direction's sign, then divided by N for the inverse direction.
  */
  function Transform<T>(a: Arith<T>, root: Root<T>, x: seq<T>, d: Direction): (X: seq<T>)
    requires |x| == 0 || IsPow2(|x|)
    ensures |X| == |x|
  {
    if |x| == 0 then []
    else
      var Y := Stages(a, root, Sign(d), BitReversed(x), 1, Log2(|x|));
      if d == Inverse then Scaled(a, Y, |x|) else Y
  }

  /** The partners of the bit-reversal loop: entry i is j = reverse(i, N). */
  function Partners(n: nat): (P: seq<nat>)
    ensures |P| == n
  {
    seq(n, i requires 0 <= i < n => RevBits(i, Log2(n)))
  }

  /**
    Every entry of P indexes P, and partners pair up: P[P[p]] == p. The
    second quantifier fires on P[P[p]] only, so that using it creates no new
    entries of P to fire on.
  */
  predicate IsInvolution(P: seq<nat>) {
    && (forall p :: 0 <= p < |P| ==> P[p] < |P|)
    && (forall p {:trigger P[P[p]]} :: 0 <= p < |P| ==> P[P[p]] == p)
  }

  /** For N a power of two, the partners of the bit-reversal loop pair up. */
  lemma PartnersInvolution(n: nat)
    requires IsPow2(n)
    ensures IsInvolution(Partners(n))
  {
    ReverseInvolution(n);
    var P := Partners(n);
    forall p | 0 <= p < n
      ensures P[p] < n && P[P[p]] == p
    {
      assert P[p] == RevBits(p, Log2(n));
    }
  }

  /** One step of the bit-reversal loop: `X[i], X[j] = X[j], X[i]` when j > i. */
  function SwapIf<T>(X: seq<T>, i: nat, j: nat): (Y: seq<T>)
    requires i < |X| && j < |X|
    ensures |Y| == |X|
  {
    if j > i then X[i := X[j]][j := X[i]] else X
  }

  /**
    A step with j > i exchanges the samples at i and j and leaves every
    other index alone; a step with j <= i changes nothing.
  */
  lemma SwapIfSwaps<T>(X: seq<T>, i: nat, j: nat)
    requires i < |X| && j < |X|
    ensures j > i ==> SwapIf(X, i, j)[i] == X[j] && SwapIf(X, i, j)[j] == X[i]
    ensures j > i ==> forall p :: 0 <= p < |X| && p != i && p != j ==> SwapIf(X, i, j)[p] == X[p]
    ensures j <= i ==> SwapIf(X, i, j) == X
  {
  }

  /** A step moves samples and never changes them: the multiset is kept. */
  lemma SwapIfPermutes<T>(X: seq<T>, Y: seq<T>, i: nat, j: nat)
    requires i < |X| && j < |X| && Y == SwapIf(X, i, j)
    ensures multiset(Y) == multiset(X)
  {
  }

  /** The buffer after the first i steps of the swap loop with partners P. */
  function SwapSteps<T>(x: seq<T>, P: seq<nat>, i: nat): (X: seq<T>)
    requires |P| == |x| && IsInvolution(P) && i <= |x|
    ensures |X| == |x|
  {
    if i == 0 then x
    else SwapIf(SwapSteps(x, P, i - 1), i - 1, P[i - 1])
  }

  /**
    The state of the swap loop after i steps: every index p that the loop
    has passed (p < i) or whose partner it has passed (P[p] < i) holds
    x[P[p]], and every other index still holds x[p].
  */
  ghost predicate SwappedUpTo<T>(x: seq<T>, P: seq<nat>, X: seq<T>, i: nat)
    requires |P| == |x| && IsInvolution(P)
  {
    |X| == |x| && forall p :: 0 <= p < |x| ==> X[p] == if p < i || P[p] < i then x[P[p]] else x[p]
  }

  /** Step i of the loop moves the loop state from i to i + 1. */
  lemma SwapIfStep<T>(x: seq<T>, P: seq<nat>, X: seq<T>, Y: seq<T>, i: nat, i': nat)
    requires |P| == |x| && IsInvolution(P) && i < |x| && i' == i + 1 && SwappedUpTo(x, P, X, i)
    requires Y == SwapIf(X, i, P[i])
    ensures SwappedUpTo(x, P, Y, i')
  {
    var j := P[i];
    forall p | 0 <= p < |x|
      ensures Y[p] == if p < i + 1 || P[p] < i + 1 then x[P[p]] else x[p]
    {
      if p == i {
        assert P[j] == i;
      } else if p == j {
        assert P[j] == i;
      } else {
        assert P[p] != i;
      }
    }
  }

  /** After i steps the buffer is in the loop state of i. */
  lemma {:induction false} SwapStepsState<T>(x: seq<T>, P: seq<nat>, i: nat)
    requires |P| == |x| && IsInvolution(P) && i <= |x|
    ensures SwappedUpTo(x, P, SwapSteps(x, P, i), i)
  {
    if i > 0 {
      var k := i - 1;
      SwapStepsState(x, P, k);
      SwapIfStep(x, P, SwapSteps(x, P, k), SwapSteps(x, P, i), k, i);
    }
  }

  /** Each step swaps two samples or none, so the buffer stays a permutation of x. */
  lemma {:induction false} SwapStepsPermutes<T>(x: seq<T>, P: seq<nat>, i: nat)
    requires |P| == |x| && IsInvolution(P) && i <= |x|
    ensures multiset(SwapSteps(x, P, i)) == multiset(x)
  {
    if i > 0 {
      var k := i - 1;
      SwapStepsPermutes(x, P, k);
      SwapIfPermutes(SwapSteps(x, P, k), SwapSteps(x, P, i), k, P[k]);
    }
  }

  /** The whole loop of N steps with the partners reverse(i, N) produces the reference bit-reversed order. */
  lemma SwapStepsAll<T>(x: seq<T>)
    requires IsPow2(|x|)
    ensures IsInvolution(Partners(|x|))
    ensures SwapSteps(x, Partners(|x|), |x|) == BitReversed(x)
  {
    PartnersInvolution(|x|);
    SwapStepsState(x, Partners(|x|), |x|);
  }

  /** In bit-reversed order, x[i] sits at reverse(i, N). */
  lemma BitReversedPlaces<T>(x: seq<T>)
    requires IsPow2(|x|)
    ensures forall i :: 0 <= i < |x| ==> BitReversed(x)[RevBits(i, Log2(|x|))] == x[i]
  {
    ReverseInvolution(|x|);
  }

  /** Bit-reversed order is a permutation of x: the same samples, each as often. */
  lemma BitReversedPermutes<T>(x: seq<T>)
    requires IsPow2(|x|)
    ensures multiset(BitReversed(x)) == multiset(x)
  {
    SwapStepsAll(x);
    SwapStepsPermutes(x, Partners(|x|), |x|);
  }

  /**
    The bit-reversal loop of `FFT`: for each i, swap the samples at i and
    j = reverse(i, N) when j > i. The result is the reference bit-reversed
    order.
  */
  method BitReverse<T>(x: seq<T>) returns (X: seq<T>)
    requires IsPow2(|x|)
    ensures X == BitReversed(x)
  {
    var n := |x|;
    ghost var P := Partners(n);
    PartnersInvolution(n);
    X := x;
    for i := 0 to n
      invariant X == SwapSteps(x, P, i)
    {
      var j := Reverse(i, n);
      assert j == P[i];
      if j > i {
        X := X[i := X[j]][j := X[i]];
      }
    }
    SwapStepsAll(x);
  }

  /**
    `FFT(x, inverse...)` with the flag made explicit: the empty input gives
    the empty result, any other input of power-of-two length gives a result
    of the same length equal to `Transform`.
  */
  method Fft<T>(a: Arith<T>, root: Root<T>, x: seq<T>, d: Direction) returns (X: seq<T>)
    requires |x| == 0 || IsPow2(|x|)
    ensures |X| == |x|
    ensures |x| == 0 ==> X == []
    ensures X == Transform(a, root, x, d)
  {
    var n := |x|;
    if n == 0 {
      return [];
    }
    X := BitReverse(x);
    var sign := -1;
    if d == Inverse {
      sign := 1;
    }
    ghost var permuted := X;
    var l := Log2(n);
    for s := 1 to l + 1
      invariant |X| == n
      invariant Stages(a, root, sign, X, s, l) == Stages(a, root, sign, permuted, 1, l)
    {
      var m := Pow2(s);
      var m2 := m / 2;
      var wm := root(sign, m);
      Pow2Half(s);
      Pow2Divides(s, l);
      MultipleIsMod(n, m);
      X := ButterflyStage(a, wm, m, m2, X);
    }
    if d == Inverse {
      ghost var Y := X;
      for i := 0 to n
        invariant |X| == n
        invariant forall p :: 0 <= p < i ==> X[p] == a.divN(Y[p], n)
        invariant forall p :: i <= p < n ==> X[p] == Y[p]
      {
        X := X[i := a.divN(X[i], n)];
      }
    }
  }

  /** `IFFT(X)` is `FFT(X, true)`. */
  method Ifft<T>(a: Arith<T>, root: Root<T>, X: seq<T>) returns (x: seq<T>)
    requires |X| == 0 || IsPow2(|X|)
    ensures |x| == |X|
    ensures x == Transform(a, root, X, DirectionOf([true]))
  {
    x := Fft(a, root, X, Inverse);
  }

  /**
    Stages are decided by the roots they are handed: two root functions that
    agree on the roots with the signs used give the same stages.
  */
  lemma {:induction false} StagesSameRoots<T>(a: Arith<T>, root: Root<T>, sign: int, root': Root<T>, sign': int, X: seq<T>, s: nat, l: nat)
    requires 1 <= s && |X| == Pow2(l)
    requires forall m: nat :: root'(sign', m) == root(sign, m)
    ensures Stages(a, root, sign, X, s, l) == Stages(a, root', sign', X, s, l)
    decreases l + 1 - s
  {
    if s <= l {
      Pow2Half(s);
      var Y := StageSpec(a, root(sign, Pow2(s)), Pow2(s), Pow2(s) / 2, X);
      assert root'(sign', Pow2(s)) == root(sign, Pow2(s));
      StagesSameRoots(a, root, sign, root', sign', Y, s + 1, l);
    }
  }

  /**
    The direction decides nothing but the sign handed to the root and
    whether the 1/N scaling runs: the inverse transform is the forward
    transform over the mirrored root, scaled by 1/N.
  */
  lemma InverseIsScaledMirroredForward<T>(a: Arith<T>, root: Root<T>, x: seq<T>)
    requires |x| == 0 || IsPow2(|x|)
    ensures Transform(a, root, x, Inverse) == Scaled(a, Transform(a, Mirror(root), x, Forward), |x|)
  {
    if |x| > 0 {
      StagesSameRoots(a, root, 1, Mirror(root), -1, BitReversed(x), 1, Log2(|x|));
    }
  }

  /** A single sample is its own forward transform, and is divided by 1 by the inverse one. */
  lemma OnePointTransform<T>(a: Arith<T>, root: Root<T>, v: T, d: Direction)
    ensures Transform(a, root, [v], d) == if d == Inverse then [a.divN(v, 1)] else [v]
  {
    assert BitReversed([v]) == [v];
  }

  /**
    Two samples take one stage with one butterfly whose twiddle is the
    running product's initial value 1: the result is [x0 + 1*x1, x0 - 1*x1].
  */
  lemma TwoPointTransform<T>(a: Arith<T>, root: Root<T>, x0: T, x1: T)
    ensures Transform(a, root, [x0, x1], Forward) ==
      [a.add(x0, a.mul(a.one, x1)), a.sub(x0, a.mul(a.one, x1))]
  {
    assert Log2(2) == 1;
    assert RevBits(1, 1) == 1;
    assert BitReversed([x0, x1]) == [x0, x1];
    assert Pow2(1) == 2;
    var S := StageSpec(a, root(-1, 2), 2, 1, [x0, x1]);
    assert [x0, x1][..2] == [x0, x1];
    assert S == BlockSpec(a, root(-1, 2), 1, [x0, x1]) + StageSpec(a, root(-1, 2), 2, 1, []);
  }
}
