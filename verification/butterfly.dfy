/**
  One butterfly stage of the iterative FFT (the body of the `s` loop of `FFT`
  in fft.go): block starts k = 0, m, 2m, ... below N, offsets j in [0, m/2),
  and the pair of indices (k+j, k+j+m/2) each butterfly reads and writes.
*/
module Butterfly {
  import opened Bits
  import opened Samples

  /** Index p lies in the block starting at p - p % m, which ends inside [0, n). */
  lemma BlockEnd(p: int, n: int, m: int)
    requires 0 <= p < n && m > 0 && n % m == 0
    ensures 0 <= p % m <= p
    ensures p - p % m + m <= n
  {
    var c, b := p / m, n / m;
    assert p == c * m + p % m;
    assert n == b * m;
    if b <= c {
      MulMonotone(b, c, m);
      assert false;
    }
    MulMonotone(c + 1, b, m);
    assert (c + 1) * m == c * m + m;
  }

  // ----- sequence slicing facts, kept apart from the stage definitions -----

  lemma SliceConcat<T>(X: seq<T>, i: int, j: int)
    requires 0 <= i <= j <= |X|
    ensures X[..i] + X[i..j] == X[..j]
  {
  }

  lemma SplitAt<T>(X: seq<T>, k: int)
    requires 0 <= k <= |X|
    ensures X[..k] + X[k..] == X
  {
  }

  lemma DropSlices<T>(X: seq<T>, k: int, m: int)
    requires 0 <= k && 0 <= m && k + m <= |X|
    ensures X[k..][..m] == X[k..k + m] && X[k..][m..] == X[k + m..]
  {
  }

  lemma AppendSlices<T>(A: seq<T>, B: seq<T>, m: int)
    requires 0 <= m <= |A|
    ensures (A + B)[..m] == A[..m] && (A + B)[m..] == A[m..] + B
  {
  }

  lemma WholeSlices<T>(B: seq<T>, m: int)
    requires m == |B|
    ensures B[..m] == B && B[m..] == []
  {
  }

  lemma AppendEmpty<T>(x: seq<T>, e: seq<T>)
    requires |e| == 0
    ensures x + e == x && e + x == x
  {
  }

  lemma AppendAssoc<T>(x: seq<T>, y: seq<T>, z: seq<T>)
    ensures x + (y + z) == (x + y) + z
  {
  }

  /**
    The buffer of the `k` loop is D followed by the untouched X[k..]. Its
    block at k is still X's, and replacing that block by C turns the buffer
    into D + C followed by the untouched X[k'..], k' = k + m.
  */
  lemma SpliceStep<T>(X: seq<T>, D: seq<T>, Y: seq<T>, Y': seq<T>, C: seq<T>, k: int, m: int, k': int)
    requires |D| == k && 0 <= k && 0 <= m && k' == k + m && k' <= |X|
    requires Y == D + X[k..] && Y' == Y[..k] + C + Y[k + m..]
    ensures Y[k..k + m] == X[k..k + m]
    ensures Y' == (D + C) + X[k'..]
  {
    assert Y[..k] == D;
    assert Y[k + m..] == X[k'..];
  }


  /** Inside a block that starts at a multiple k of m, `% m` is the offset from k. */
  lemma OffsetInBlock(k: int, m: int, q: int)
    requires k >= 0 && m > 0 && k % m == 0 && 0 <= q < m
    ensures (k + q) % m == q
    ensures k + q - (k + q) % m == k
  {
    DivUnique(k + q, m, k / m, q);
  }

  /** (k, j) is a butterfly of the stage with block size 2^s over n samples. */
  predicate IsButterfly(n: int, s: nat, k: int, j: int) {
    0 <= k < n && k % Pow2(s) == 0 && 0 <= j < Pow2(s) / 2
  }

  /** The butterfly (k, j) reads and writes index p. */
  predicate Touches(n: int, s: nat, k: int, j: int, p: int) {
    IsButterfly(n, s, k, j) && (p == k + j || p == k + j + Pow2(s) / 2)
  }

  /**
    In every stage s in 1..log2(N), both indices a butterfly touches lie in
    [0, N), the first strictly below the second.
  */
  lemma ButterflyInRange(n: int, s: nat, k: int, j: int)
    requires IsPow2(n) && 1 <= s <= Log2(n)
    requires IsButterfly(n, s, k, j)
    ensures 0 <= k + j < k + j + Pow2(s) / 2 < n
  {
    Pow2Divides(s, Log2(n));
    BlockEnd(k, n, Pow2(s));
  }

  /**
    The converse for the lengths the transform excludes: for N >= 1 not a
    power of two, some stage s in 1..log2(N) has a butterfly (k, 0) whose
    second index k + m2 is N or more, so the loop indexes past the end of
    the slice. With N = 2^a * b, b odd, it is the last block of stage a + 1.
  */
  lemma OutOfRangeUnlessPow2(n: int)
    requires n >= 1 && !IsPow2(n)
    ensures exists s: nat, k :: 1 <= s <= Log2(n) && IsButterfly(n, s, k, 0) && k + Pow2(s) / 2 >= n
  {
    var a, o := Twos(n), OddPart(n);
    TwosSplit(n);
    OddPartOfNonPow2(n);
    var s, m2, c := a + 1, Pow2(a), (o - 1) / 2;
    var d := Pow2(s);
    assert d == 2 * m2 && d / 2 == m2;
    OddMultipleLess(n, m2, o, c);
    var k := n - m2;
    DivUnique(k, d, c, 0);
    MulAtLeast(c, d);
    Log2AtLeast(n, s);
    assert IsButterfly(n, s, k, 0);
  }

  /** Index p is touched by the butterfly of its own block, at its offset within the half block. */
  lemma TouchedByOwnBlock(n: int, s: nat, p: int)
    requires IsPow2(n) && 1 <= s <= Log2(n) && 0 <= p < n
    ensures Touches(n, s, p - p % Pow2(s), p % Pow2(s) % (Pow2(s) / 2), p)
  {
    var m := Pow2(s);
    var m2 := m / 2;
    Pow2Half(s);
    Pow2Divides(s, Log2(n));
    BlockEnd(p, n, m);
    var r := p % m;
    var k0 := p - r;
    DivMod(p, m);
    DivUnique(k0, m, p / m, 0);
    var j0 := r % m2;
    if r < m2 {
      DivUnique(r, m2, 0, r);
      assert p == k0 + j0;
    } else {
      DivUnique(r, m2, 1, r - m2);
      assert p == k0 + j0 + m2;
    }
    assert IsButterfly(n, s, k0, j0);
  }

  /** Index p is touched by no butterfly other than the one of its own block. */
  lemma TouchedOnlyByOwnBlock(n: int, s: nat, k: int, j: int, p: int)
    requires s >= 1 && Touches(n, s, k, j, p)
    ensures k == p - p % Pow2(s) && j == p % Pow2(s) % (Pow2(s) / 2)
  {
    var m := Pow2(s);
    var m2 := m / 2;
    Pow2Half(s);
    var e := if p == k + j then 0 else m2;
    OffsetInBlock(k, m, j + e);
    DivUnique(j + e, m2, e / m2, j);
  }

  /**
    Every index of the buffer is touched by exactly one butterfly of a
    stage: the one whose block contains it, at its offset within the half
    block.
  */
  lemma StageTouchesOnce(n: int, s: nat, p: int)
    requires IsPow2(n) && 1 <= s <= Log2(n) && 0 <= p < n
    ensures forall k, j :: Touches(n, s, k, j, p) <==>
      k == p - p % Pow2(s) && j == p % Pow2(s) % (Pow2(s) / 2)
  {
    TouchedByOwnBlock(n, s, p);
    forall k, j | Touches(n, s, k, j, p)
      ensures k == p - p % Pow2(s) && j == p % Pow2(s) % (Pow2(s) / 2)
    {
      TouchedOnlyByOwnBlock(n, s, k, j, p);
    }
  }

  /**
    k is a whole number of blocks of m samples: one of 0, m, 2m, ..., the
    values `k += m` visits from 0. The loops and the stage definitions use
    this form because it unfolds by one block at a time; the index lemmas
    (`IsButterfly`, `ButterflyOutputs`) compute offsets p % m and use the
    equivalent `k % m == 0`. `MultipleIsMod` proves the two agree.
  */
  predicate Multiple(k: nat, m: nat)
    requires m >= 1
    decreases k
  {
    k == 0 || (k >= m && Multiple(k - m, m))
  }

  /** One more block is again a whole number of blocks. */
  lemma MultipleNext(k: nat, m: nat)
    requires m >= 1 && Multiple(k, m)
    ensures Multiple(k + m, m)
  {
    assert k + m - m == k;
  }

  /** A non-empty whole number of blocks holds a first block, and the rest is whole blocks. */
  lemma MultipleRest(k: nat, m: nat)
    requires m >= 1 && Multiple(k, m) && k > 0
    ensures k >= m && Multiple(k - m, m)
  {
  }

  /** Being a whole number of blocks is being divisible by the block size. */
  lemma {:induction false} MultipleIsMod(k: nat, m: nat)
    requires m >= 1
    ensures Multiple(k, m) <==> k % m == 0
    decreases k
  {
    if k < m {
      DivUnique(k, m, 0, k);
    } else {
      DivMod(k - m, m);
      var q := (k - m) / m;
      assert k == (q + 1) * m + (k - m) % m;
      DivUnique(k, m, q + 1, (k - m) % m);
      MultipleIsMod(k - m, m);
    }
  }

  /**
    Reference definition of one block of a stage with m = 2 * m2 samples:
    the first half receives u + t and the second half u - t, where, for the
    offset j in [0, m2), u = B[j] and t = wm^j * B[j + m2] are the values
    the block held before the stage.
  */
  function BlockSpec<T>(a: Arith<T>, wm: T, m2: nat, B: seq<T>): (C: seq<T>)
    requires |B| == 2 * m2
    ensures |C| == |B|
  {
    Tops(a, wm, m2, B, m2) + Bottoms(a, wm, m2, B, m2)
  }

  /** The sums u + t of the first j butterflies of a block, in order of j. */
  function Tops<T>(a: Arith<T>, wm: T, m2: nat, B: seq<T>, j: nat): (r: seq<T>)
    requires |B| == 2 * m2 && j <= m2
    ensures |r| == j
  {
    if j == 0 then []
    else Tops(a, wm, m2, B, j - 1) + [a.add(B[j - 1], a.mul(Pow(a, wm, j - 1), B[j - 1 + m2]))]
  }

  /** The differences u - t of the first j butterflies of a block, in order of j. */
  function Bottoms<T>(a: Arith<T>, wm: T, m2: nat, B: seq<T>, j: nat): (r: seq<T>)
    requires |B| == 2 * m2 && j <= m2
    ensures |r| == j
  {
    if j == 0 then []
    else Bottoms(a, wm, m2, B, j - 1) + [a.sub(B[j - 1], a.mul(Pow(a, wm, j - 1), B[j - 1 + m2]))]
  }

  /**
    Reference definition of the stage with block size m = 2 * m2: the
    buffer, cut into consecutive blocks of m samples, each replaced by its
    `BlockSpec`. (A tail shorter than m, which never occurs when m divides
    the length, is left as it is.)
  */
  function StageSpec<T>(a: Arith<T>, wm: T, m: nat, m2: nat, X: seq<T>): (Y: seq<T>)
    requires m == 2 * m2 && m2 >= 1
    ensures |Y| == |X|
    decreases |X|
  {
    if |X| < m then X
    else BlockSpec(a, wm, m2, X[..m]) + StageSpec(a, wm, m, m2, X[m..])
  }

  /** The stage of a concatenation whose first part is whole blocks is the concatenation of the stages. */
  lemma {:induction false} StageSpecConcat<T>(a: Arith<T>, wm: T, m: nat, m2: nat, A: seq<T>, B: seq<T>)
    requires m == 2 * m2 && m2 >= 1 && Multiple(|A|, m)
    ensures StageSpec(a, wm, m, m2, A + B) == StageSpec(a, wm, m, m2, A) + StageSpec(a, wm, m, m2, B)
    decreases |A|
  {
    if |A| == 0 {
      AppendEmpty(B, A);
      AppendEmpty(StageSpec(a, wm, m, m2, B), A);
    } else {
      AppendSlices(A, B, m);
      var AB := A + B;
      assert StageSpec(a, wm, m, m2, AB) == BlockSpec(a, wm, m2, A[..m]) + StageSpec(a, wm, m, m2, A[m..] + B);
      assert StageSpec(a, wm, m, m2, A) == BlockSpec(a, wm, m2, A[..m]) + StageSpec(a, wm, m, m2, A[m..]);
      StageSpecConcat(a, wm, m, m2, A[m..], B);
      AppendAssoc(BlockSpec(a, wm, m2, A[..m]), StageSpec(a, wm, m, m2, A[m..]), StageSpec(a, wm, m, m2, B));
    }
  }

  /** On exactly one block, the stage is that block's butterflies. */
  lemma StageSpecOneBlock<T>(a: Arith<T>, wm: T, m: nat, m2: nat, B: seq<T>)
    requires m == 2 * m2 && m2 >= 1 && |B| == m
    ensures StageSpec(a, wm, m, m2, B) == BlockSpec(a, wm, m2, B)
  {
    WholeSlices(B, m);
    AppendEmpty(BlockSpec(a, wm, m2, B), B[m..]);
  }

  /** On a buffer that holds at least one block, the stage is the first block's butterflies, then the stage of the rest. */
  lemma StageSpecFirst<T>(a: Arith<T>, wm: T, m: nat, m2: nat, X: seq<T>, k: int)
    requires m == 2 * m2 && m2 >= 1 && 0 <= k && k + m <= |X|
    ensures StageSpec(a, wm, m, m2, X[k..]) == BlockSpec(a, wm, m2, X[k..k + m]) + StageSpec(a, wm, m, m2, X[k + m..])
  {
    DropSlices(X, k, m);
  }

  /** The stage splits at a block start k into the stage before k, the block at k, and the stage after it. */
  lemma StageSpecSplit<T>(a: Arith<T>, wm: T, m: nat, m2: nat, X: seq<T>, k: int)
    requires m == 2 * m2 && m2 >= 1 && 0 <= k && Multiple(k, m) && k + m <= |X|
    ensures StageSpec(a, wm, m, m2, X) ==
      StageSpec(a, wm, m, m2, X[..k]) + (BlockSpec(a, wm, m2, X[k..k + m]) + StageSpec(a, wm, m, m2, X[k + m..]))
  {
    SplitAt(X, k);
    StageSpecConcat(a, wm, m, m2, X[..k], X[k..]);
    StageSpecFirst(a, wm, m, m2, X, k);
  }

  /** Stages of growing prefixes: adding the block at a block start k adds its butterflies. */
  lemma StageSpecExtend<T>(a: Arith<T>, wm: T, m: nat, m2: nat, X: seq<T>, k: int, k': int)
    requires m == 2 * m2 && m2 >= 1 && 0 <= k && Multiple(k, m) && k' == k + m && k' <= |X|
    ensures StageSpec(a, wm, m, m2, X[..k']) == StageSpec(a, wm, m, m2, X[..k]) + BlockSpec(a, wm, m2, X[k..k + m])
  {
    var B := X[k..k + m];
    SliceConcat(X, k, k');
    assert X[k..k'] == B;
    StageSpecConcat(a, wm, m, m2, X[..k], B);
    StageSpecOneBlock(a, wm, m, m2, B);
  }

  /**
    What the butterfly (k, j) leaves in the stage's output: u + t at k+j and
    u - t at k+j+m2, from u = X[k+j] and t = wm^j * X[k+j+m2], the values
    read before the stage wrote anything.
  */
  lemma ButterflyOutputs<T>(a: Arith<T>, wm: T, m: nat, m2: nat, X: seq<T>, k: int, j: int)
    requires m == 2 * m2 && m2 >= 1 && |X| % m == 0
    requires 0 <= k < |X| && k % m == 0 && 0 <= j < m2
    ensures k + j + m2 < |X|
    ensures StageSpec(a, wm, m, m2, X)[k + j] == a.add(X[k + j], a.mul(Pow(a, wm, j), X[k + j + m2]))
    ensures StageSpec(a, wm, m, m2, X)[k + j + m2] == a.sub(X[k + j], a.mul(Pow(a, wm, j), X[k + j + m2]))
  {
    BlockEnd(k, |X|, m);
    MultipleIsMod(k, m);
    StageSpecSplit(a, wm, m, m2, X, k);
    BlockOutputsInPlace(a, wm, m, m2, X, k, j, StageSpec(a, wm, m, m2, X),
      StageSpec(a, wm, m, m2, X[..k]), StageSpec(a, wm, m, m2, X[k + m..]));
  }

  /**
    In a buffer Z made of k samples P, then the butterflies of the block of X
    at k, then anything Q, butterfly j's outputs sit at k + j and k + j + m2.
  */
  lemma BlockOutputsInPlace<T>(a: Arith<T>, wm: T, m: nat, m2: nat, X: seq<T>, k: int, j: int, Z: seq<T>, P: seq<T>, Q: seq<T>)
    requires m == 2 * m2 && 0 <= k && k + m <= |X| && 0 <= j < m2 && |P| == k
    requires Z == P + (BlockSpec(a, wm, m2, X[k..k + m]) + Q)
    ensures Z[k + j] == a.add(X[k + j], a.mul(Pow(a, wm, j), X[k + j + m2]))
    ensures Z[k + j + m2] == a.sub(X[k + j], a.mul(Pow(a, wm, j), X[k + j + m2]))
  {
    var B := X[k..k + m];
    var C := BlockSpec(a, wm, m2, B);
    BlockSpecAt(a, wm, m2, B, j);
    assert B[j] == X[k + j] && B[j + m2] == X[k + j + m2];
    PickFromMiddle(Z, P, C, Q, j, k + j);
    PickFromMiddle(Z, P, C, Q, j + m2, k + j + m2);
  }

  /** Index p = |P| + i of P + (C + Q) holds C[i]. */
  lemma PickFromMiddle<T>(Z: seq<T>, P: seq<T>, C: seq<T>, Q: seq<T>, i: int, p: int)
    requires Z == P + (C + Q) && 0 <= i < |C| && p == |P| + i
    ensures 0 <= p < |Z| && Z[p] == C[i]
  {
  }

  /** Butterfly q of the first j leaves u + t at offset q of `Tops` and u - t at offset q of `Bottoms`. */
  lemma {:induction false} TopsAt<T>(a: Arith<T>, wm: T, m2: nat, B: seq<T>, j: nat, q: nat)
    requires |B| == 2 * m2 && q < j <= m2
    ensures Tops(a, wm, m2, B, j)[q] == a.add(B[q], a.mul(Pow(a, wm, q), B[q + m2]))
    ensures Bottoms(a, wm, m2, B, j)[q] == a.sub(B[q], a.mul(Pow(a, wm, q), B[q + m2]))
  {
    if q < j - 1 {
      TopsAt(a, wm, m2, B, j - 1, q);
    }
  }

  /** The two entries of a block's output that butterfly q writes. */
  lemma BlockSpecAt<T>(a: Arith<T>, wm: T, m2: nat, B: seq<T>, q: nat)
    requires |B| == 2 * m2 && q < m2
    ensures BlockSpec(a, wm, m2, B)[q] == a.add(B[q], a.mul(Pow(a, wm, q), B[q + m2]))
    ensures BlockSpec(a, wm, m2, B)[q + m2] == a.sub(B[q], a.mul(Pow(a, wm, q), B[q + m2]))
  {
    TopsAt(a, wm, m2, B, m2, q);
  }

  /**
    The state of the `j` loop of the block starting at k after j steps: the
    first j butterflies hold their outputs C, every other index its input.
  */
  ghost predicate BlockDone<T>(X: seq<T>, Y: seq<T>, C: seq<T>, k: nat, m2: nat, j: nat) {
    && |Y| == |X| && k + 2 * m2 <= |X| && |C| == 2 * m2 && j <= m2
    && forall p :: 0 <= p < |X| ==>
         Y[p] == if k <= p < k + j || k + m2 <= p < k + m2 + j then C[p - k] else X[p]
  }

  /** One butterfly of the block: reading u and t before writing keeps `BlockDone`. */
  lemma BlockStep<T>(a: Arith<T>, X: seq<T>, Y: seq<T>, C: seq<T>, k: nat, m2: nat, j: nat, w: T)
    requires j < m2 && BlockDone(X, Y, C, k, m2, j)
    requires C[j] == a.add(X[k + j], a.mul(w, X[k + j + m2]))
    requires C[j + m2] == a.sub(X[k + j], a.mul(w, X[k + j + m2]))
    ensures var t, u := a.mul(w, Y[k + j + m2]), Y[k + j];
      BlockDone(X, Y[k + j := a.add(u, t)][k + j + m2 := a.sub(u, t)], C, k, m2, j + 1)
  {
    var t, u := a.mul(w, Y[k + j + m2]), Y[k + j];
    assert u == X[k + j] && Y[k + j + m2] == X[k + j + m2];
    var Y' := Y[k + j := a.add(u, t)][k + j + m2 := a.sub(u, t)];
    forall p | 0 <= p < |X|
      ensures Y'[p] == if k <= p < k + j + 1 || k + m2 <= p < k + m2 + j + 1 then C[p - k] else X[p]
    {
      if p != k + j && p != k + j + m2 {
        assert Y'[p] == Y[p];
      }
    }
  }

  /** A buffer that agrees with C on [k, k+|C|) and with X elsewhere is X with C spliced in. */
  lemma Splice<T>(X: seq<T>, Y: seq<T>, C: seq<T>, k: nat)
    requires |Y| == |X| && k + |C| <= |X|
    requires forall p :: 0 <= p < |X| ==> Y[p] == if k <= p < k + |C| then C[p - k] else X[p]
    ensures Y == X[..k] + C + X[k + |C|..]
  {
  }

  /**
    The `j` loop of the block starting at k: m2 butterflies, each reading
    u = X[k+j] and t = w * X[k+j+m2] before writing u + t and u - t, with
    the running twiddle `w *= wm` equal to wm^j at step j. Nothing outside
    the block changes.
  */
  method Block<T>(a: Arith<T>, wm: T, m: nat, m2: nat, k: nat, X: seq<T>) returns (Y: seq<T>)
    requires m == 2 * m2 && k + m <= |X|
    ensures |Y| == |X|
    ensures Y == X[..k] + BlockSpec(a, wm, m2, X[k..k + m]) + X[k + m..]
  {
    ghost var B := X[k..k + m];
    ghost var C := BlockSpec(a, wm, m2, B);
    Y := X;
    var w := a.one;
    for j := 0 to m2
      invariant w == Pow(a, wm, j)
      invariant BlockDone(X, Y, C, k, m2, j)
    {
      assert B[j] == X[k + j] && B[j + m2] == X[k + j + m2];
      BlockSpecAt(a, wm, m2, B, j);
      BlockStep(a, X, Y, C, k, m2, j, w);
      var t, u := a.mul(w, Y[k + j + m2]), Y[k + j];
      Y := Y[k + j := a.add(u, t)][k + j + m2 := a.sub(u, t)];
      w := a.mul(w, wm);
    }
    Splice(X, Y, C, k);
  }

  /** From block start k, with whole blocks left up to n, the next block start k' = k + m is again one. */
  lemma MultipleStep(n: nat, k: nat, k': nat, m: nat)
    requires m >= 1 && k < n && k' == k + m && Multiple(k, m) && Multiple(n - k, m)
    ensures k' <= n && Multiple(k', m) && Multiple(n - k', m)
  {
    MultipleRest(n - k, m);
    assert n - k - m == n - k';
    MultipleNext(k, m);
  }

  /**
    The `k` loop of one stage: blocks of m = 2 * m2 samples starting at
    k = 0, m, 2m, ... below N, which is a whole number of blocks. The blocks are disjoint and every butterfly
    reads before it writes, so the stage maps the buffer to `StageSpec`:
    each written value is computed from the values the stage started with.
  */
  method ButterflyStage<T>(a: Arith<T>, wm: T, m: nat, m2: nat, X: seq<T>) returns (Y: seq<T>)
    requires m == 2 * m2 && m2 >= 1 && Multiple(|X|, m)
    ensures Y == StageSpec(a, wm, m, m2, X)
  {
    var n := |X|;
    Y := X;
    var k := 0;
    ghost var done: seq<T> := [];
    while k < n
      invariant 0 <= k <= n && Multiple(k, m) && Multiple(n - k, m)
      invariant done == StageSpec(a, wm, m, m2, X[..k])
      invariant Y == done + X[k..]
      decreases n - k
    {
      var next := k + m;
      MultipleStep(n, k, next, m);
      ghost var Y0 := Y;
      Y := Block(a, wm, m, m2, k, Y);
      SpliceStep(X, done, Y0, Y, BlockSpec(a, wm, m2, Y0[k..k + m]), k, m, next);
      StageSpecExtend(a, wm, m, m2, X, k, next);
      done := done + BlockSpec(a, wm, m2, X[k..k + m]);
      k := next;
    }
    WholeSlices(X, n);
  }
}
