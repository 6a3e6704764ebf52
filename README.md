# Textbook RSA arithmetic core, in Dafny

This project models the arithmetic core of a small textbook RSA program
(`assignment.py`) and proves what that core promises:

- **Alphabet codec** (`alphabet.dfy`, module `Alphabet`). This is the
  "BearcatII" alphabet of the 26 capital letters, numbered from 1. It
  covers `characters`, `get_index_from_character` (a search loop, modelled
  as a method) and `get_character_from_index`. The index lookup is
  modelled as written, including Python's negative indexing.
- **Number theory** (`number_theory.dfy`, module `NumberTheory`). It covers
  the recursive `euclid_gcd` and `extended_euclid_gcd`, and `powers`:
  square-and-multiply modular exponentiation that handles a negative
  exponent through a modular inverse. It also covers `euler_totient` and
  the private exponent the driver derives.
- **Message codec** (`message_codec.dfy`, module `MessageCodec`). It covers
  `horner_eval` and `convert_to_base_n`, both accumulator loops modelled as
  methods, and `convert_to_bearcatii` / `convert_bearcatii_to_string`. It
  includes the encode/decode round trip the driver relies on: letters to
  positions to one base-27 integer, and back.
- **Prime candidate** (`prime_generation.dfy`, module `PrimeGeneration`).
  This is how `generate_n_digit_prime` builds one candidate from its
  sampled decimal digits, reusing the base-n digit facts of the codec.
- **Primality test** (`miller_rabin.dfy`, module `MillerRabin`). This is
  `prime_test_miller_rabin`, with the random witnesses passed in as a
  sequence. Each round is the source's two-stage check: a Fermat check on
  `n - 1`, then a halving loop from the full `n - 1`. The project proves
  this is exactly the textbook strong-probable-prime test
  (`a^d = 1` or `a^(2^r d) = -1 (mod n)`, where `n - 1 = 2^s d` and `d` is odd).
- `results.dfy` (module `Results`) holds the exceptions as values: `Error`
  and `Result`.

Python's `%` and `//` round toward minus infinity, while Dafny's are
Euclidean. The two agree whenever the divisor is positive. The
preconditions of the gcd functions (`b >= 0`) and of `Powers` (`k > 0`)
keep every division inside that range. Python integers are unbounded, and
so are Dafny's, so no wrap-around is involved anywhere.

In two places the model keeps the program's behaviour as written:

- `get_character_from_index(0)` returns `"Z"` instead of failing. This is
  recorded under Findings.
- The driver uses the private exponent `s` from
  `extended_euclid_gcd(e, phi)` without reducing it mod `phi`. So it can
  be negative and then go through the inverse branch of `powers`.
  `PrivateExponentIsInverse` is stated about that unreduced `s`.

## Model

| member | source | states |
|---|---|---|
| `Alphabet.CharactersAreLetters` | assignment.py:6-33 | slot i of `characters` holds the i-th capital letter after 'A' |
| `Alphabet.IsLetterIsMembership` | assignment.py:6-33 | a character is in `characters` exactly when it is one of 'A'..'Z' |
| `Alphabet.PositionOf` | assignment.py:56-74 | the position of a character exists exactly for letters. It lies in 1..26 and `characters[position - 1]` is that character. Anything else is CharacterNotFound |
| `Alphabet.GetIndexFromCharacter` | assignment.py:56-74 | the search loop with early return gives exactly `PositionOf`: the 1-based position when found, CharacterNotFound otherwise |
| `Alphabet.CharacterFromIndex` | assignment.py:36-53 | succeeds exactly for indexes -25..26 and fails with IndexError for every index above 26 or below -25. For 1..26 the letter has that position. For -25..0 it is the letter at index + 26 (Python's negative indexing) |
| `Alphabet.PositionRoundTrip` | assignment.py:36-74 | index to letter to index is the identity on 1..26, and letter to index to letter is the identity on letters |
| `Alphabet.CharacterFromIndexAcceptsZero` | assignment.py:50-53 | as written, index 0 is accepted and yields 'Z', the same letter as index 26 |
| `Alphabet.SymbolAt` | assignment.py:46-53 | corrected lookup: succeeds exactly for 1..26 and returns the letter whose position is the index |
| `Alphabet.SymbolAtInverse` | assignment.py:36-74 | the corrected lookup is injective and the exact inverse of `PositionOf` |
| `NumberTheory.Gcd` | assignment.py:93-108 | `euclid_gcd(a, 0) == a`, and the result is positive whenever b > 0 |
| `NumberTheory.GcdDividesBoth` | assignment.py:93-108 | the result divides both a and b, for b > 0, or b == 0 and a > 0 |
| `NumberTheory.GcdGreatest` | assignment.py:93-108 | every common positive divisor of a and b divides the result, and is at most it when the result is positive (b > 0, or b == 0 and a > 0) |
| `NumberTheory.ExtendedGcd` | assignment.py:111-131 | returns (g, s, t) with g equal to `euclid_gcd(a, b)` and g == s*a + t*b |
| `NumberTheory.ExtendedGcdBase` | assignment.py:124-125 | the base case of the extended algorithm is (a, 1, 0) |
| `NumberTheory.BezoutInverse` | assignment.py:157-162 | when gcd(a, k) == 1 the coefficient s satisfies a*s == 1 (mod k) |
| `NumberTheory.NoInverse` | assignment.py:157-160 | when gcd(a, k) != 1 no x satisfies a*x == 1 (mod k): raising "Inverse does not exist" is correct |
| `NumberTheory.Powers` | assignment.py:134-167 | never fails for an exponent >= 0, and every result lies in [0, k) |
| `NumberTheory.PowersMatchesPow` | assignment.py:150-167 | for n >= 0, `powers(a, n, k)` is a^n mod k, including `1 % k` for n == 0 |
| `NumberTheory.PowersNegative` | assignment.py:156-162 | for n < 0, `powers` fails exactly when gcd(a, k) != 1. Otherwise its result times a^(-n) is 1 mod k, so `powers(a, -1, k)` is an inverse of a |
| `NumberTheory.PowersProduct` | assignment.py:134-167 | exponent composition: `powers(a, n1 + n2, k)` is the product of `powers(a, n1, k)` and `powers(a, n2, k)` mod k, for any base and exponents >= 0 |
| `NumberTheory.PowersProductCoprime` | assignment.py:134-167 | when gcd(a, k) == 1, every exponent (negative ones included) succeeds, and `powers(a, n1 + n2, k)` is the product of `powers(a, n1, k)` and `powers(a, n2, k)` mod k |
| `NumberTheory.EulerTotient` | assignment.py:305-318 | for p, q >= 2 the totient (p-1)(q-1) is positive and below the modulus p*q |
| `NumberTheory.PrivateExponentIsInverse` | assignment.py:337-350 | the unreduced private key s from `extended_euclid_gcd(e, phi)` satisfies e*s == 1 (mod phi) once `euclid_gcd(e, phi) == 1`. When the gcd is not 1, no private key exists |
| `MillerRabin.OddPartDecomposes` | assignment.py:191-192 | halving k while it is even ends at an odd d with k == 2^s * d |
| `MillerRabin.StrongImpliesFermat` | assignment.py:188-189 | the textbook condition for exponent k implies the Fermat condition a^k == 1 (mod n) |
| `MillerRabin.HalvingIsStrong` | assignment.py:191-200 | starting from a^k == 1 (mod n), the halving loop passes exactly when the textbook strong condition holds for k |
| `MillerRabin.RoundIsStrong` | assignment.py:183-200 | one round (Fermat check, then the halving loop from n - 1) passes exactly when n is a strong probable prime to the witness |
| `MillerRabin.FermatWitnessRejects` | assignment.py:188-189 | a witness with a^(n-1) mod n != 1 fails its round |
| `MillerRabin.PrimeTestMillerRabin` | assignment.py:170-202 | returns True exactly when n is a strong probable prime to every supplied witness. It returns False at the first witness that is not |
| `MessageCodec.HornerEval` | assignment.py:284-302 | the accumulator loop computes the polynomial with the given coefficients (highest degree first) at the given point |
| `MessageCodec.HornerBounds` | assignment.py:284-302 | digits in [0, n) with a non-zero leading digit evaluate to a value with exactly that many base-n digits: n^(len-1) <= value < n^len |
| `MessageCodec.ConvertToBaseN` | assignment.py:262-281 | the prepend-and-divide loop yields the base-n digits of the value, most significant first |
| `MessageCodec.DigitsWellFormed` | assignment.py:262-281 | the digits lie in [0, n). There are none exactly for 0. The first is non-zero |
| `MessageCodec.DigitsEvaluate` | assignment.py:262-302 | Horner evaluation of the base-n digits of a value gives back the value |
| `MessageCodec.HornerDigits` | assignment.py:262-302 | a digit list in [0, n) with no leading zero is recovered by `convert_to_base_n(horner_eval(ds, n), n)` |
| `MessageCodec.ConvertToBearcatii` | assignment.py:231-244 | succeeds exactly when every character is a letter. Each entry is the position of the corresponding character. Otherwise CharacterNotFound |
| `MessageCodec.ConvertBearcatiiToString` | assignment.py:247-259 | succeeds exactly when every position is in -25..26. Each letter has the given position, wrapped by 26 for positions <= 0. Otherwise IndexError |
| `MessageCodec.StringRoundTrip` | assignment.py:231-259 | letters to positions to letters is the identity |
| `MessageCodec.PositionsRoundTrip` | assignment.py:231-259 | positions in 1..26 to letters to positions is the identity |
| `MessageCodec.Encode` | assignment.py:343-346 | the driver's encode step succeeds exactly on messages over the alphabet (otherwise CharacterNotFound), and the integer lies in [0, 27^len) |
| `MessageCodec.Decode` | assignment.py:353-354 | the driver's decode step, as written, never fails: every base-27 digit is in 0..26, and it yields one letter per digit, whose position is that digit, a 0 digit wrapping to "Z" |
| `MessageCodec.DecodeEncode` | assignment.py:343-354 | every message over the alphabet encodes to a non-negative base-27 integer, and decoding that integer returns the message |
| `MessageCodec.DecodeAcceptsZeroDigit` | assignment.py:353-354 | as written, 27 (digits 1, 0) decodes to "AZ", but "AZ" encodes to 53 |
| `MessageCodec.SymbolsAt` | assignment.py:247-259 | corrected conversion: succeeds exactly when every position is in 1..26, and each letter has its position |
| `MessageCodec.DecodeChecked` | assignment.py:353-354 | the corrected decode succeeds exactly when the value has no zero base-27 digit, one letter per digit, and otherwise fails with IndexError |
| `MessageCodec.DecodeCheckedSound` | assignment.py:353-354 | with the corrected lookup, whatever a value decodes to encodes back to that value |
| `MessageCodec.DecodeCheckedComplete` | assignment.py:343-354 | with the corrected lookup, every message over the alphabet is still recovered from its encoding |
| `PrimeGeneration.Candidate` | assignment.py:216-225 | a candidate built from a digit 1..9, middle digits 0..9 and a last digit in {1, 3, 7, 9} has exactly len(middle) + 2 decimal digits. It ends in the last digit, and its decimal digits are exactly the sampled ones |

## Left out

- `rsa()` and the module-level call (assignment.py:321-364) are not modelled. They read the public exponent and the message with `input`, retry until the exponent is coprime with phi, and `print` the results. The arithmetic they perform is modelled separately by `Encode`/`Decode`, `Powers` and `PrivateExponentIsInverse`.
- `get_random_int_between` and `random.choice` (assignment.py:77-90, 223) are Python's PRNG. The witnesses of `PrimeTestMillerRabin` and the digits of `Candidate` are parameters instead. The `iterations` argument is the number of witnesses supplied.
- The `while True` loop of `generate_n_digit_prime` (assignment.py:216-228) is not modelled. It retries random candidates and ends only with probability 1. Only the construction of one candidate is modelled (`Candidate`). For a requested length below 2 the source still builds two digits, which is what `Candidate` with an empty middle gives.
- Probabilistic error bounds of the primality test are statistical claims and are not modelled. Neither is the fact that a prime passes every round, which needs Fermat's little theorem.
- The correctness of RSA itself (decryption undoes encryption) is not proved, because it needs Euler's theorem over the two primes.
- MillerRabin.PrimeTestMillerRabin: the witnesses are required to lie in [2, n - 2] and n >= 4, which is what `randint(2, n - 2)` guarantees and demands. With zero iterations the source would also accept n < 4.
- NumberTheory.EulerTotient: the contract states only that 0 < (p-1)(q-1) < p*q. That this is the number of units modulo p*q for primes p and q is not proved.
- `get_index_from_character` takes a Python string, and the model takes one character. A string of any other length never equals a letter, so it raises CharacterNotFound exactly as a non-letter does.
- `Gcd` and `ExtendedGcd` require b >= 0, and `Powers` requires a modulus k > 0. For a negative divisor Python's floor `%` differs from Dafny's, and k == 0 raises ZeroDivisionError. The source only calls them with the positive modulus or totient.
- `ConvertToBaseN` requires value >= 0 and n >= 2. For n >= 2 the source's loop never ends on a negative value (floor division stops at -1), and for n == 1 or n == -1 it never ends on a non-zero value. For n <= -2 it does end (floor division by a negative divisor reaches 0, producing negative-base digits), and for value == 0 it ends at once for any n; those cases are not modelled. The source only calls it with base 27 and a non-negative value.
- The three exception classes (IndexError, a bare Exception, ValueError) become the constructors of `Results.Error`. Exception messages are not modelled.

## Findings

| source | as written | input that shows it | evidently intended | confidence | as-written member | corrected member |
|---|---|---|---|---|---|---|
| assignment.py:50 | only `index > len(characters)` is rejected, so index 0 reads `characters[-1]` | `get_character_from_index(0)` returns "Z", the letter of index 26 | an IndexError for every index outside 1..26, as the docstring says | high; not executed | `Alphabet.CharacterFromIndexAcceptsZero` | `Alphabet.SymbolAt` |
| assignment.py:353-354 | decoding maps a zero base-27 digit to "Z" instead of failing | 27 has digits [1, 0] and decodes to "AZ", but "AZ" encodes to 53 | decoding fails on any value that is not the encoding of a message | high; not executed | `MessageCodec.DecodeAcceptsZeroDigit` | `MessageCodec.DecodeCheckedSound` |

`ConvertBearcatiiToString` and `Decode` keep the behaviour as written, so
that the model stays faithful to the source. `SymbolAt`, `SymbolsAt` and
`DecodeChecked` are the corrected path. Their lemmas show that this path
still recovers every message (`DecodeCheckedComplete`) and never accepts a
non-encoding (`DecodeCheckedSound`).
