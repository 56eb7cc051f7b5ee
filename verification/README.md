# Iterative Cooley-Tukey FFT: index skeleton in Dafny

This project models the in-place iterative radix-2 FFT of the Go package
`fft` (file `fft.go`). It covers these parts:

- `log2`, the floor base-2 logarithm computed by repeated halving.
- `reverse`, which reverses the low `log2(N)` bits of an index.
- The bit-reversal swap loop of `FFT`.
- The three nested butterfly loops of `FFT`: stages `s`, block starts `k`, and offsets `j`.
- The direction handling: the exponent's sign and the final division by N.
- `IFFT` as `FFT(X, true)`.

Samples stay abstract. An `Arith<T>` record supplies `+`, `-`, `*`, the
constant 1 and the division by N. A `Root<T>` function stands for
`cmplx.Exp(complex(0, sign*2*math.Pi/float64(m)))`. The proofs are
therefore about data movement: which value ends up where, computed from which
values. They hold for any arithmetic plugged in.

Modules:

- `Bits` (`bits.dfy`) holds `Pow2`, `Log2`, and `RevBits`, a recursive reference definition of bit reversal. It also holds `Reverse`, the bit loop of `reverse`, along with the lemmas about them.
- `Samples` (`samples.dfy`) holds the abstract sample arithmetic and `Pow`, the running product `w *= wm`.
- `Butterfly` (`butterfly.dfy`) holds `BlockSpec` and `StageSpec`, which give the output of one block or stage in terms of its input. A block of m = 2 * m2 samples becomes its sums u + t (`Tops`) followed by its differences u - t (`Bottoms`). A stage is the buffer cut into blocks of m, each replaced by its `BlockSpec`. The module also holds the `j` loop (`Block`), the `k` loop (`ButterflyStage`) and the index lemmas of a stage.
  The stage's block size m and half size m2 (`m >> 1` in the source) are passed together with m == 2 * m2; `Fft` derives both from `1 << s`.
- `Fft` (`fft.dfy`) holds the `Direction` datatype, which replaces the variadic `inverse ...bool`. It also holds the bit-reversal loop (`BitReverse`), the reference `Transform`, `Fft` and `Ifft`. The swap loop's state is `SwapSteps`, the buffer after its first i steps, taken over the table `Partners` of the values reverse(i, N) that the loop computes.

Go's slices become Dafny sequences. Because a sequence is a value, the
caller's input is never changed; every write goes to the working copy the
method returns. The in-place writes `X[i], X[j] = X[j], X[i]` and
`X[k+j], X[k+j+m2] = u+t, u-t` become point updates of that working sequence.
Go's `nil` result for an empty input is the empty sequence. `FFT` requires a
power-of-two length, as its doc comment says. The model makes this a
`requires`; the source does not check it.

## Model

| member | source | states |
|---|---|---|
| Bits.Log2 | fft.go:81-89 | `log2(N)` is 0 for every N <= 1; for N >= 1 it is the floor logarithm: 2^r <= N < 2^(r+1) |
| Bits.Log2OfPow2 | fft.go:81-89 | `log2(2^k) == k`, so every 2^k counts as a power of two |
| Bits.RevBits | fft.go:66-79 | reversing the low w bits of any integer gives a value in [0, 2^w) |
| Bits.Reverse | fft.go:66-79 | the bit loop, which sets bit bits-1-b of the result for each set bit b of i, computes the reference reversal `RevBits(i, log2(n))`. The result lies in [0, 2^log2(n)) and, for n >= 1, in [0, n), whether or not n is a power of two. It is 0 when n <= 1 (no bits, loop never runs) |
| Bits.RevBitsInvolution | fft.go:66-79 | reversing the low w bits twice returns every index below 2^w |
| Bits.ReverseInvolution | fft.go:66-79 | for N a power of two, `reverse(., N)` is an involution of [0, N) and is injective there, hence a bijection of [0, N) |
| Bits.SwapPairsDisjoint | fft.go:27-32 | under the guard `j > i`, two swapped pairs (i, reverse(i)) that share an index are the same pair: each pair is swapped once |
| Fft.BitReversed | fft.go:26-32 | reference order after the swap loop: a sequence of length N whose index i holds x[reverse(i, N)]. `Fft.BitReverse` is proved equal to it |
| Fft.SwapIf | fft.go:29-31 | one step of the swap loop, `X[i], X[j] = X[j], X[i]` only when j > i. It keeps the length |
| Fft.SwapIfSwaps | fft.go:29-31 | a step with j > i exchanges the samples at i and j, both read before either is written (Go's tuple assignment), and leaves every other index alone. A step with j <= i changes nothing |
| Fft.PartnersInvolution | fft.go:27-28 | for N a power of two, the partners j = reverse(i, N) that the loop computes lie in [0, N) and pair up: the partner of j is i |
| Fft.SwapStepsState | fft.go:27-32 | after the first i steps of the swap loop, every index p with p < i or reverse(p) < i holds x[reverse(p)] and every other index still holds x[p]: each pair is swapped once, at the step of its smaller index, and a fixed point is never moved |
| Fft.SwapStepsPermutes | fft.go:29-31 | every step swaps two samples or none, so after any number of steps the buffer is a permutation (same multiset) of x |
| Fft.BitReverse | fft.go:26-32 | the swap loop, calling `reverse(i, N)` at every step and swapping when j > i, leaves the bit-reversed order: index p holds x[reverse(p, N)] |
| Fft.BitReversedPlaces | fft.go:26-32 | in bit-reversed order, x[i] sits at reverse(i, N) for every i |
| Fft.BitReversedPermutes | fft.go:26-32 | bit-reversed order is a permutation (same multiset) of x |
| Butterfly.ButterflyInRange | fft.go:39-50 | in every stage s in 1..log2(N), with m = 2^s and m2 = m >> 1 = m/2, each butterfly (k, j) has 0 <= k+j < k+j+m2 < N |
| Butterfly.OutOfRangeUnlessPow2 | fft.go:39-50 | the power-of-two requirement on len(x) (fft.go:15) cannot be dropped. For every length N >= 1 that is not a power of two, some stage s <= log2(N) has a butterfly (k, 0) with k + m2 >= N, so `X[k+j+m2]` reads past the end of the slice. Writing N = 2^a * b with b odd, this is the last block of stage a + 1 |
| Butterfly.StageTouchesOnce | fft.go:39-55 | in every stage, each index p in [0, N) is touched by exactly one butterfly (k, j): the one with k = p - p % m and j = p % m % m2 (both directions of the iff) |
| Butterfly.ButterflyOutputs | fft.go:47-52 | in the stage's output, index k+j holds u + t and index k+j+m2 holds u - t, where u = X[k+j] and t = wm^j * X[k+j+m2] are the values before the stage |
| Butterfly.MultipleIsMod | fft.go:46 | the block starts visited by `k += m` from 0 are exactly the multiples of m (both directions of the iff), so the loop reaches N exactly when m divides N |
| Samples.Pow | fft.go:47-52 | the twiddle of butterfly j: the running product `w := complex(1, 0)`, then `w *= wm` after each butterfly, i.e. wm^j. It is 1 at j = 0. `Butterfly.Block` is proved to keep w equal to it |
| Butterfly.BlockSpec | fft.go:47-53 | reference output of one block of m = 2 * m2 samples: offset j < m2 gets u + t and offset j + m2 gets u - t, with u = B[j] and t = wm^j * B[j+m2] taken from the block before the stage. It keeps the length. `Butterfly.Block` is proved equal to it |
| Butterfly.StageSpec | fft.go:46-54 | reference output of one stage: the buffer cut into consecutive blocks of m, each replaced by its `BlockSpec`. It keeps the length. `Butterfly.ButterflyStage` is proved equal to it |
| Butterfly.BlockSpecAt | fft.go:47-52 | in a block's reference output, offset j < m2 holds u + t and offset j + m2 holds u - t, with u = B[j] and t = wm^j * B[j+m2] |
| Butterfly.StageSpecConcat | fft.go:46-54 | the stage output of a buffer whose first part is whole blocks is the stage output of that part followed by the stage output of the rest: blocks are independent |
| Butterfly.StageSpecSplit | fft.go:46-54 | at any block start k, the stage output is the output before k, then the butterflies of the block at k, then the output after the block |
| Butterfly.StageSpecExtend | fft.go:46-54 | the stage output of a prefix extended by one block is the old output followed by that block's butterflies |
| Butterfly.Block | fft.go:47-53 | the `j` loop, with its running twiddle `w *= wm` starting at 1, replaces the block [k, k+m) by its butterfly outputs built from wm^j. Every index outside the block is left unchanged |
| Butterfly.ButterflyStage | fft.go:39-55 | when N is a whole number of blocks (`Multiple`, i.e. m divides N), the `k` loop over blocks k = 0, m, 2m, ... below N maps the buffer to the reference stage output, in which each value is computed from the values the stage started with |
| Fft.DirectionOf | fft.go:35 | the variadic flags select the inverse transform exactly when there is at least one flag and the first one is true |
| Fft.FirstFlagDecides | fft.go:35 | no flag means forward, and flags after the first are ignored |
| Fft.Sign | fft.go:34-37 | `sign` is -1 or +1, and it is +1 exactly for the inverse direction |
| Fft.Scaled | fft.go:57-61 | the final loop of the inverse transform: every sample divided by N, the length kept. `Fft.Fft` is proved to compute it for the inverse direction |
| Fft.Stages | fft.go:39-55 | reference output of stages s .. log2(N): stage s is `StageSpec` with m = 2^s, m2 = m/2 and root wm = root(sign, m). The length is kept |
| Fft.Transform | fft.go:16-64 | reference transform: empty for the empty input; otherwise bit-reversed order, then `Stages` 1 .. log2(N) with the direction's sign, then `Scaled` by N only for the inverse. The length is kept. `Fft.Fft` is proved equal to it |
| Fft.Fft | fft.go:16-64 | an empty input gives an empty result; otherwise the result has length N and equals the reference transform: bit-reversed input, stages 1..log2(N) with sign -1 (forward) or +1 (inverse), then division by N only for the inverse |
| Fft.Ifft | fft.go:8-11 | `IFFT(X)` equals the transform with the direction that the flag list `[true]` selects, i.e. `FFT(X, true)`; the length is preserved |
| Fft.StagesSameRoots | fft.go:39-44 | the stages depend on the sign only through the roots `wm` they compute from it |
| Fft.InverseIsScaledMirroredForward | fft.go:34-37 | the inverse transform equals the forward transform with the root's sign flipped, scaled by 1/N; direction decides only the sign and the scaling (fft.go:57-61) |
| Fft.OnePointTransform | fft.go:17-63 | for N = 1 no swap and no stage runs: the forward transform of [v] is [v] and the inverse is [v / 1] |
| Fft.TwoPointTransform | fft.go:39-55 | for N = 2 one stage with one butterfly and twiddle 1 runs: the forward result is [x0 + 1*x1, x0 - 1*x1] |

## Left out

- Floating-point complex arithmetic is not modelled, and neither are `cmplx.Exp`, `math.Pi` and the division `X[i] /= complex(float64(N), 0)`. They are abstract operations (`Arith`, `Root`), so no numeric accuracy is claimed.
- Full DFT correctness is not proved: that the output equals the sum-of-exponentials definition, linearity, and `IFFT(FFT(x)) ≈ x`. These need a model of roots of unity over a ring or field, which the abstract arithmetic does not provide.
- Lengths that are not a power of two are excluded by a `requires`. The source documents this precondition but does not check it. For such a length the stage loop reads past the end of the slice, which `Butterfly.OutOfRangeUnlessPow2` states. `Reverse` itself is modelled for every n.
- Go's `int` (32 or 64 bits) is modelled as an unbounded integer. `1 << s` with s <= log2(N) cannot overflow for any slice length Go can allocate.
- `StageSpec` leaves a tail shorter than one block as it is. Such a tail never occurs, because `ButterflyStage` requires that m divides N, as it does for N a power of two and m = 2^s <= N.
- A divide-and-conquer recursive variant of the transform is not part of this model.
- The examples in fft_test.go are not modelled. Their printed spectra depend on floating-point rounding and formatting. They call `fft.Compute` and `fft.Inverse`, which are not defined in fft.go. Their only shape claim is that an empty input gives an empty result, and `Fft.Fft` states that.
- The copy `make` + `copy` (fft.go:23-24) is not observable in the model. Sequences are values, so the caller's input stays unchanged by construction, and the model cannot tell a copy from an alias.
- `nil` and an empty, non-nil slice are not distinguished; both are the empty sequence.
