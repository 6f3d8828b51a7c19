# Bit extraction and association coefficients of the Keccak numerical study

The numerical study hashes many inputs with Keccak-256. It turns each 256-bit
digest into a row of 256 bits, most significant bit first. It then measures
how independent the bit positions are. This project models the two
deterministic pieces of that script and proves properties about them:

- **Bit extraction** (`hashToBinary`, `split`, and `helper` without the hash
  call). The hex digest is parsed as `int(s, 16)` does it (module `Hex`). It is
  rendered as `bin(n)[2:]` and left-padded with `'0'` to 256 characters (module
  `Binary`). Then each character is turned into an integer (module `BitExtractor`).
- **Association coefficients** between two bit columns (module `Association`).
  These are `RogersTanmoto`, `SokalMichener`, and the integer part of
  `Correlation`: the counts S11, S00, S10 and S01, the numerator
  `S11*S00 - S10*S01`, and sigma squared.

Modelling choices:

- Exceptions the script raises are values of `Results.Result`. `int(s, 16)`
  raises `ValueError` on a malformed digest and `int(c)` on a non-digit character.
- The equal-length `assert` of the three coefficients is a precondition.
- The coefficients receive columns of the int64 sample matrix (lines 162-164).
  Empty vectors are not excluded, and they behave differently per coefficient:
  - `RogersTanmoto` divides 0 by 0 there, and numpy gives NaN. The model returns
    the quotient as a numerator/denominator pair (`Ratio`), and a zero
    denominator stands for that NaN.
  - `SokalMichener` and `Correlation` raise `TypeError`. Their complement `f(x)`
    of an empty vector is `np.array([])`, whose dtype is float64, and `&` is not
    defined on it (lines 108 and 121). The model returns `Err(UnsupportedOperand)`.
  - On non-empty vectors `Correlation` yields NaN exactly when sigma squared is
    zero; the numerator is then zero too, so the division is 0/0 and never ±inf.
- sigma is `sqrt(A) * sqrt(B)`, and this equals `sqrt(A*B)` for non-negative A
  and B. So the model keeps `A*B` exactly as `SigmaSquared` and proves its
  properties, and it proves facts about the squared coefficient `num^2 / (A*B)`.
- A digest of any length is accepted, as in the code. A value of 2^256 or more
  gets no padding, because Python's `'0' * n` is empty when n is negative. The
  output is then longer than 256 characters, and `HashToBinaryWidth` states this
  as an if-and-only-if.
- The grouping of sigma is `(S10+S11)(S01+S00)` times `(S11+S01)(S00+S10)`. This
  is the usual phi denominator: the product of the two row totals and the two
  column totals. `Correlation`'s contract shows that these totals are the numbers
  of ones and zeros in `x1` and in `x2`.

## Model

| member | source | states |
|---|---|---|
| `Hex.ParseHex` | GaussianRNG/docs/NumericalStudy/numericalStudy.py:29 | `int(s, 16)`: on success, the value is below 2^(4k), where k is the number of hex digits after the optional `0x`/`0X` prefix |
| `Hex.HexValueBound` | GaussianRNG/docs/NumericalStudy/numericalStudy.py:29 | a hex numeral of k digits denotes less than 2^(4k), so a 64-digit digest fits in 256 bits |
| `Hex.FixedHex` | GaussianRNG/docs/NumericalStudy/numericalStudy.py:23-25 | the w-digit lower-case hex rendering that `.hex()` produces consists of hex digits only, none of them upper-case (`A`-`F`) and none `x` or `X`, and reads back as n whenever n fits in 4w bits |
| `Hex.DigestHex` | GaussianRNG/docs/NumericalStudy/numericalStudy.py:23-25 | `.hex()` of a 256-bit digest: `"0x"` followed by 64 hex digits, none upper-case, which read back as the digest value |
| `Hex.DigestHexRoundTrip` | GaussianRNG/docs/NumericalStudy/numericalStudy.py:23-29 | `int(d.hex(), 16)` gives back the digest value d, with or without the `0x` prefix |
| `Hex.NibbleBitsValue` | GaussianRNG/docs/NumericalStudy/numericalStudy.py:29 | writing each hex digit as four bits and reading the result in binary gives the value of the hex numeral |
| `Hex.NibbleBitsAt` | GaussianRNG/docs/NumericalStudy/numericalStudy.py:29-31 | bits 4i to 4i+3 of the nibble expansion are the 4-bit binary form of hex digit i |
| `Binary.ToBinary` | GaussianRNG/docs/NumericalStudy/numericalStudy.py:29 | `bin(n)[2:]` is a bit string that denotes n, has no leading zero except for n = 0 (rendered `"0"`), and has one character when n < 2 |
| `Binary.ToBinaryFits` | GaussianRNG/docs/NumericalStudy/numericalStudy.py:29-30 | for k ≥ 1, `bin(n)[2:]` has at most k digits if and only if n < 2^k |
| `Binary.Zeros` | GaussianRNG/docs/NumericalStudy/numericalStudy.py:30 | `'0' * n` is n zeros, and the empty string when n is not positive |
| `Binary.ZeroPaddingKeepsValue` | GaussianRNG/docs/NumericalStudy/numericalStudy.py:30-31 | the zero prefix does not change the value of the numeral |
| `Binary.FixedBinary` | GaussianRNG/docs/NumericalStudy/numericalStudy.py:29-31 | reference w-bit numeral: it has width w, contains only bit characters, and denotes n when n < 2^w |
| `Binary.FixedBinaryAt` | GaussianRNG/docs/NumericalStudy/numericalStudy.py:29-31 | position i of the w-bit numeral holds bit w-1-i of n, so index 0 is the most significant bit |
| `Binary.FixedBinaryBits` | GaussianRNG/docs/NumericalStudy/numericalStudy.py:29-31 | every position i of the w-bit numeral of n holds bit w-1-i of n, and for n = 0 every position is `'0'` |
| `Binary.PaddedBinary` | GaussianRNG/docs/NumericalStudy/numericalStudy.py:29-31 | for w ≥ 1, `'0' * (w - len(tmp)) + tmp` with `tmp = bin(n)[2:]` is the w-bit numeral of n whenever n < 2^w |
| `Binary.ZeroPadded` | GaussianRNG/docs/NumericalStudy/numericalStudy.py:30-31 | `'0' * (w - len(tmp)) + tmp` with `tmp = bin(n)[2:]` is a bit string of length max(w, len(tmp)) that still denotes n |
| `Binary.BinaryValueInjective` | GaussianRNG/docs/NumericalStudy/numericalStudy.py:29-31 | two bit strings of equal width that denote the same value are equal |
| `Binary.BinaryValueConcat` | GaussianRNG/docs/NumericalStudy/numericalStudy.py:31 | the value of `prefix + tmp` is value(prefix) * 2^len(tmp) + value(tmp) |
| `BitExtractor.HashToBinary` | GaussianRNG/docs/NumericalStudy/numericalStudy.py:27-31 | hashToBinary fails exactly when `int(s, 16)` fails, with the same error; otherwise its output has only `'0'`/`'1'` characters and, read as a big-endian binary numeral, gives back `int(s, 16)` |
| `BitExtractor.HashToBinaryWidth` | GaussianRNG/docs/NumericalStudy/numericalStudy.py:29-31 | the output of hashToBinary has at least 256 characters, and exactly 256 if and only if the value is below 2^256 |
| `BitExtractor.HashToBinaryFixedWidth` | GaussianRNG/docs/NumericalStudy/numericalStudy.py:27-31 | for a value v < 2^256 the output is exactly the 256-bit numeral of v |
| `BitExtractor.HashToBinaryNibbles` | GaussianRNG/docs/NumericalStudy/numericalStudy.py:27-31 | for a 64-digit digest, each group of four output bits is the binary form of the matching hex digit, so the output starts with the most significant nibble |
| `BitExtractor.Split` | GaussianRNG/docs/NumericalStudy/numericalStudy.py:33-35 | `[int(c) for c in s]` succeeds if and only if every character is a decimal digit; it then keeps the length and maps each character to its digit at the same index; otherwise it fails on the first non-digit |
| `BitExtractor.SplitBitString` | GaussianRNG/docs/NumericalStudy/numericalStudy.py:33-35 | split never fails on a bit string, keeps its length, and maps `'0'` to 0 and `'1'` to 1 at each index |
| `BitExtractor.DigestBits` | GaussianRNG/docs/NumericalStudy/numericalStudy.py:37-42 | helper without the hash fails exactly when `int(s, 16)` fails: split never rejects what hashToBinary produces |
| `BitExtractor.DigestBitsSpec` | GaussianRNG/docs/NumericalStudy/numericalStudy.py:37-42 | for a digest value v < 2^256, helper without the hash returns 256 integers, where entry i is bit 255-i of v (0 or 1) |
| `BitExtractor.DigestHexBits` | GaussianRNG/docs/NumericalStudy/numericalStudy.py:23-42 | `split(hashToBinary(d.hex()))` is the list of the 256 bits of digest d, most significant first |
| `Association.Xor` | GaussianRNG/docs/NumericalStudy/numericalStudy.py:97 | elementwise `x1 ^ x2` on 0/1 vectors keeps the length and is 1 exactly where the vectors differ |
| `Association.And` | GaussianRNG/docs/NumericalStudy/numericalStudy.py:105-110 | elementwise `x1 & x2` on 0/1 vectors keeps the length and is 1 exactly where both hold 1 |
| `Association.Not` | GaussianRNG/docs/NumericalStudy/numericalStudy.py:106-107 | `map(lambda x: 0 if x else 1, x)` keeps the length and flips every entry (entry plus result is 1) |
| `Association.Sum` | GaussianRNG/docs/NumericalStudy/numericalStudy.py:98-99 | `np.sum` of a 0/1 vector counts its ones, so it is at most the length |
| `Association.Ratio.Value` | GaussianRNG/docs/NumericalStudy/numericalStudy.py:100 | a defined quotient is non-negative, is at most 1 when num <= den, is 1 exactly when num = den, and is 0 exactly when num = 0 |
| `Association.RogersTanmoto` | GaussianRNG/docs/NumericalStudy/numericalStudy.py:95-100 | agreements plus disagreements equal the length, and den = length + disagreements; the result is in [0, 1] and is defined (not NaN) exactly for non-empty vectors |
| `Association.RogersTanmotoSymmetric` | GaussianRNG/docs/NumericalStudy/numericalStudy.py:97-100 | swapping x1 and x2 gives the same quotient |
| `Association.RogersTanmotoIdentical` | GaussianRNG/docs/NumericalStudy/numericalStudy.py:97-100 | a vector compared with itself has num = den = length, so the value is 1 for a non-empty vector |
| `Association.RogersTanmotoComplement` | GaussianRNG/docs/NumericalStudy/numericalStudy.py:97-100 | a vector compared with its complement has num = 0 and den = 2·length, so the value is 0 for a non-empty vector |
| `Association.Agreements` | GaussianRNG/docs/NumericalStudy/numericalStudy.py:97-121 | S11 + S00 equals the count of agreeing positions (the complement of `x1 ^ x2`), which is at most the length |
| `Association.SokalMichener` | GaussianRNG/docs/NumericalStudy/numericalStudy.py:116-122 | raises `TypeError` exactly for empty vectors; otherwise (S11 + S00) / length is defined and lies in [0, 1] |
| `Association.SokalMichenerSymmetric` | GaussianRNG/docs/NumericalStudy/numericalStudy.py:118-122 | swapping x1 and x2 gives the same result, including the same error on empty vectors |
| `Association.SokalMichenerIdentical` | GaussianRNG/docs/NumericalStudy/numericalStudy.py:118-122 | a non-empty vector compared with itself gives exactly 1 |
| `Association.SokalMichenerComplement` | GaussianRNG/docs/NumericalStudy/numericalStudy.py:118-122 | a non-empty vector compared with its complement gives exactly 0 |
| `Association.RogersTanmotoVersusSokalMichener` | GaussianRNG/docs/NumericalStudy/numericalStudy.py:95-122 | on non-empty vectors both count the same agreements m (= S11 + S00 of Correlation) over length n; Rogers-Tanimoto is m/(2n-m) and never exceeds Sokal-Michener m/n |
| `Association.Correlation` | GaussianRNG/docs/NumericalStudy/numericalStudy.py:103-110 | raises `TypeError` exactly for empty vectors; otherwise S11, S00, S10 and S01 partition the positions (they sum to the length), S11+S10 and S01+S00 are the ones and zeros of x1, and S11+S01 and S10+S00 are those of x2 |
| `Association.CorrelationSymmetric` | GaussianRNG/docs/NumericalStudy/numericalStudy.py:103-112 | swapping x1 and x2 fails on the same inputs; otherwise it exchanges S10 and S01 and leaves the numerator and sigma unchanged |
| `Association.Contingency.Numerator` | GaussianRNG/docs/NumericalStudy/numericalStudy.py:112 | `S11 * S00 - S10 * S01`, computed exactly; `NumeratorBound` bounds it by sigma |
| `Association.Contingency.SigmaSquared` | GaussianRNG/docs/NumericalStudy/numericalStudy.py:111 | the square of sigma, `(S10+S11)(S01+S00)(S11+S01)(S00+S10)`, computed exactly; `SigmaSquaredZero` says when it vanishes |
| `Association.NumeratorBound` | GaussianRNG/docs/NumericalStudy/numericalStudy.py:111-113 | num² <= sigma², so in exact arithmetic the coefficient lies in [-1, 1] |
| `Association.Contingency.CoefficientSquared` | GaussianRNG/docs/NumericalStudy/numericalStudy.py:111-113 | in exact arithmetic, the square of num / sigma lies in [0, 1] when sigma is non-zero |
| `Association.SigmaSquaredZero` | GaussianRNG/docs/NumericalStudy/numericalStudy.py:111-113 | sigma is zero exactly when one of the four row or column totals is zero, and then the numerator is zero too, so the division is 0/0 and never ±inf |
| `Association.CorrelationDegenerate` | GaussianRNG/docs/NumericalStudy/numericalStudy.py:103-113 | on non-empty vectors, sigma is zero exactly when x1 or x2 is constant (all zeros or all ones), and then the numerator is zero as well, so the division yields NaN |
| `Association.CorrelationIdentical` | GaussianRNG/docs/NumericalStudy/numericalStudy.py:103-113 | a non-empty vector with itself has S10 = S01 = 0, num >= 0 and num² = sigma², so in exact arithmetic the coefficient is 1 whenever it is defined |
| `Association.CorrelationComplement` | GaussianRNG/docs/NumericalStudy/numericalStudy.py:103-113 | a non-empty vector with its complement has S11 = S00 = 0, num <= 0 and num² = sigma², so in exact arithmetic the coefficient is -1 whenever it is defined |

## Left out

- `keccak256` (lines 20-25) calls the Web3 hashing library. The digest is an input string, and `Hex.DigestHex` models only the `.hex()` rendering of it.
- `getStr` draws random strings from numpy's random source. The constant `asciichars` (line 17) is used only by `getStr`.
- `acf`, `pearson_r`, and the per-bit mean and standard-error tables use floating-point statistics.
- Correlation: the square roots and the final division at lines 111-113 are float64 operations and are not modelled. The model keeps their exact integer ingredients, the numerator and the product under the roots, and its statements about the coefficient hold in exact arithmetic. The float64 result can differ from the exact quotient by rounding. For identical or complementary columns it can be slightly off 1 or -1, and it can fall just outside [-1, 1]: with x = [1,1,1,0] compared with itself, sigma is `sqrt(3)*sqrt(3)`, which rounds below 3.
- RogersTanmoto and SokalMichener: the script divides two integers in float64. `Ratio` keeps the exact quotient, and the script's value is its correctly rounded form. That rounding keeps the bounds [0, 1] and the exact 0 and 1 cases that `Ratio.Value` states.
- `drawGraph` and every `plt` call only plot.
- The experiment blocks are left out. This covers the input families, the loop over the 32,640 column pairs, and the `results` accumulation. They only call the modelled functions.
- ParseHex: Python's `int(s, 16)` also accepts surrounding whitespace, a leading sign, single underscores between digits, and non-ASCII Unicode decimal digits. The model rejects these; a `.hex()` digest never contains them. A negative value would also make `bin` produce `-0b...`, which this model does not represent.
- Split: Python's `int(c)` also accepts non-ASCII Unicode decimal digits. The model accepts only `'0'` to `'9'`; hashToBinary never produces other characters.
- The coefficients are defined on vectors of 0/1 integers only, because `split` produces nothing else. numpy's `^`, `&` and truthiness on other integers are not modelled.
- Correlation: the counts and the products at lines 111-112 are numpy int64 values and wrap around for vectors of more than about 6·10^9 positions. The model computes them as unbounded integers, so it does not show that overflow.
