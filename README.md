# IEEE 754 decomposition of a real number

This project models `double2ieee` from `ieee754.c` of the newton-raphson-ieee
repository. The routine splits a number into the three fields of an IEEE 754
binary64 value, written through three out-pointers:

- a sign flag, 1 for a negative input and 0 otherwise;
- an exponent stored with the binary64 bias of 1023 (`BIAS`, the exponent
  bias of section 3.4 of IEEE 754-2008);
- a mantissa in [0, 1): the significand with its implicit leading 1 dropped.

Zero is special-cased to the all-zero triple. For any other input the routine
takes the absolute value, sets the exponent to `floor(log2(|v|))`, the
mantissa to `|v| / 2^e - 1`, and only then adds the bias to the exponent.

The model works over exact Dafny `real`s:

- `powers.dfy` (module `Powers`): `Pow2(k)`, 2^k for every integer k, which
  stands for `pow(2, e)`; the predicate `IsFloorLog2(x, k)`, meaning
  2^k <= x < 2^(k+1); and the method `FloorLog2`, an exponent search that
  stands for `floor(log2(x))`. It doubles 2^k from 2^0 for x >= 1
  (`SearchUp`). For x < 1 it doubles a scaled copy x / 2^k until that copy
  reaches 1 (`SearchDown`).
- `ieee754.dfy` (module `Ieee754`): the constant `Bias`, the method
  `Double2Ieee` with the source's three out-parameters, and the
  specification `IsDecomposition(v, s, e, m)`. The specification says what a
  decomposition is, independently of how it is computed. It is the all-zero
  triple for 0. For any other v it is a sign flag that is 1 exactly when v is
  negative, a mantissa in [0, 1), and v == (-1)^s * (1 + m) * 2^(e - 1023)
  exactly. `Recompose` turns a triple back into the value it stands for. The
  source has no such routine; it is used only to state the round trip.

`Double2Ieee` is proved to produce a decomposition. The lemmas show that a
decomposition is unique, so the specification determines the routine's
result. They then derive the exponent, sign and power-of-two properties from
it.

## Model

| member | source | states |
|---|---|---|
| `Ieee754.Double2Ieee` | ieee754.c:6-21 | The three outputs form a decomposition of the input: (0, 0, 0) for 0.0; otherwise sign 1 exactly for negative input, mantissa in [0, 1), and input == (-1)^sign * (1 + mantissa) * 2^(exponent - 1023) exactly. For non-zero input, exponent - 1023 is floor(log2 of the magnitude). |
| `Powers.FloorLog2` | ieee754.c:17 | For every x > 0, returns the k with 2^k <= x < 2^(k+1): floor(log2(x)) over exact reals. |
| `Powers.SearchUp` | ieee754.c:17 | For x >= 1, returns a k >= 0 with 2^k <= x < 2^(k+1). |
| `Powers.SearchDown` | ieee754.c:17 | For 0 < x < 1, returns a k < 0 with 2^k <= x < 2^(k+1). |
| `Powers.Pow2` | ieee754.c:18 | 2^k is positive for every integer k, including negative k (the divisor `pow(2, *expoent)` is never zero). |
| `Powers.Pow2StrictlyIncreasing` | ieee754.c:17 | a < b exactly when 2^a < 2^b. |
| `Powers.FloorLog2Unique` | ieee754.c:17 | At most one integer k satisfies 2^k <= x < 2^(k+1), so floor(log2(x)) is well defined. |
| `Powers.FloorLog2OfPow2` | ieee754.c:17 | floor(log2(2^k)) == k. |
| `Ieee754.MantissaOfBracket` | ieee754.c:18 | If 2^k <= v < 2^(k+1), then v / 2^k - 1 lies in [0, 1) and v == (1 + (v / 2^k - 1)) * 2^k. |
| `Ieee754.MagnitudeOfDecomposition` | ieee754.c:16-18 | For non-zero v, the magnitude of v is (1 + m) * 2^(e - 1023). |
| `Ieee754.DecompositionExponent` | ieee754.c:17-19 | In any decomposition of a non-zero v, e - 1023 is the integer k with 2^k <= abs(v) < 2^(k+1). |
| `Ieee754.DecompositionUnique` | ieee754.c:8-19 | Two decompositions of the same value agree on sign, exponent and mantissa. |
| `Ieee754.NegationDecomposition` | ieee754.c:16 | If (s, e, m) decomposes v, then -v decomposes to the same e and m with the sign flag flipped (both 0 for v == 0). |
| `Ieee754.NegationKeepsMagnitudeFields` | ieee754.c:16-18 | Any decompositions of v and -v have equal exponent and mantissa. Their sign flags are opposite for non-zero v and both 0 for zero. |
| `Ieee754.PowerOfTwoDecomposition` | ieee754.c:17-19 | 2^k decomposes to (0, k + 1023, 0) and to no other triple. |
| `Ieee754.RecomposeRoundTrip` | ieee754.c:8-19 | Recomposing the decomposition of v gives back v, for every v except 2^-1023, whose decomposition is the all-zero triple reserved for 0. |
| `Ieee754.DemoDecomposition` | ieee754.c:27 | -9.5 decomposes to (1, 1026, 0.1875), and to no other triple. |

## Left out

- `main` and its `printf` (ieee754.c:23-30) are demonstration I/O. The input -9.5 of ieee754.c:27 appears only in `DemoDecomposition`.
- The rounding of `log2`, `pow`, `floor` and the division on doubles (ieee754.c:17-18). The model uses exact reals and an exact exponent search. It therefore captures the intended arithmetic, not libm's results. With a real libm, `floor(log2(x))` can be one too high just below a power of two.
- NaN, infinities, negative zero and subnormal numbers. The routine does not handle them, and the model's input is any exact real. Over the reals, 2^-1023 decomposes to the same all-zero triple as 0.0; `RecomposeRoundTrip` states this exception instead of excluding it.
- The declared `double` return type of `double2ieee` (ieee754.c:6). The routine never returns a value, so the model returns only its three outputs.
- The C `int` width of the exponent. The model's exponent is an unbounded integer; the exponents of finite doubles fit an `int` anyway.
- Packing the three fields into a 64-bit word. The routine never does this.
- Record multiplication, addition, division, the zero predicate, the normaliser and the two square-root routines of the wider design. Their source files are not part of this model. `ieee754.c` holds only the decomposition, so this model stops there.
- An error result for a non-positive magnitude. The source has none, and none is needed: the zero check on ieee754.c:8 guarantees that `log2` only receives a positive argument, and `FloorLog2` requires exactly that.
