# ElGamal partial-homomorphic scheme, modelled in Dafny

This project models the ElGamal engine of the HomomorphicEncryption-Benchmark toolkit
(`src/he_toolkit/schemes/partial/elgamal.py`). ElGamal is the toolkit's multiplicative
partial-homomorphic scheme, built on exact big-integer arithmetic:

- key generation picks a prime `p`, a base `g` and a secret exponent `x`, and publishes
  `h = g^x mod p`;
- encryption maps `m` to `(g^r mod p, m·h^r mod p, p)`;
- decryption computes `c2 · (c1^x)^-1 mod p`;
- `multiply` takes the component-wise product of two ciphertexts;
- `add` and `multiply_scalar` always refuse.

Two modules, one per layer:

- `arith.dfy`, module `ModArith`: the big-integer operations the engine takes from its
  arithmetic library. It has integer powers, `PowMod` (modular exponentiation by repeated
  squaring) and `Gcd`. It has the extended Euclidean algorithm and `Invert`, a model of
  the library's modular inverse. It defines primality and proves the number theory the scheme rests on:
  Euclid's lemma, `(b^e1)^e2 = b^(e1·e2)`, reduction of the base of a power, uniqueness
  of inverses, and cancellation modulo a prime.
- `elgamal.dfy`, module `ElGamal`: keys and ciphertexts as immutable datatypes.
  `generate_keys` is an imperative method whose two resampling loops run over supplied
  random draws; it is proved equal to the specification function `KeyGen`. The other
  operations are functions returning `Result`. Four `Error` cases stand for exceptions
  the code raises. `RandomnessExhausted` means the supplied draws ran out before a
  sampling loop accepted one; the code would go on drawing until a draw is accepted,
  and for `p = 2` or `p = 3` it never stops.

The lemmas prove these properties:

- The round trip gives `m mod p`. It therefore gives `m` exactly when `0 <= m < p`.
- Multiplying two ciphertexts gives the encryption of `m1·m2` under the exponent
  `r1 + r2`. Its decryption is `m1·m2 mod p`.
- Ciphertexts with different moduli are rejected.
- Decryption never reads the ciphertext's modulus.
- Decryption fails exactly when `c1^x mod p` has no inverse modulo `p`.

The model follows the code, including where it is looser than textbook ElGamal or its
own doc-comment:

- `decrypt` does not compare the ciphertext's `p` with the key's `p`.
- `encrypt` does not reject a plaintext outside `[0, p)`. It reduces it modulo `p`, so the
  class comment's claim that any size of plaintext decrypts holds only below `p`
  (`ElGamal.RoundTrip`, `ElGamal.ModulusPlaintextWraps`).
- Key generation's resampling loops have no retry bound and raise no error. `g` ranges over
  `[2, p-1]` and `x` over `[2, p-2]`.
- The error raised by `multiply` is the code's `ValueError` (`ModulusMismatch`).

## Model

| member | source | states |
|---|---|---|
| `ModArith.PowMod` | src/he_toolkit/schemes/partial/elgamal.py:45 | the library's modular power lies in `[0, m)` and equals `b^e mod m` |
| `ModArith.ExtGcd` | src/he_toolkit/schemes/partial/elgamal.py:101 | returns `gcd(a, b)` with Bezout coefficients `a·x + b·y = gcd(a, b)` |
| `ModArith.Invert` | src/he_toolkit/schemes/partial/elgamal.py:101 | the inverse is modelled as existing exactly when `m >= 2` and `gcd(a mod m, m) = 1`; it lies in `[0, m)` and `a·inv mod m = 1` |
| `ModArith.InverseUnique` | src/he_toolkit/schemes/partial/elgamal.py:101 | any `t` in `[0, m)` with `a·t mod m = 1` is exactly what `Invert` returns, whatever algorithm computes the inverse |
| `ModArith.InverseImpliesCoprime` | src/he_toolkit/schemes/partial/elgamal.py:101 | if `a` has an inverse modulo `m` then `m >= 2` and `a` is coprime to `m` |
| `ModArith.CoprimeToPrime` | src/he_toolkit/schemes/partial/elgamal.py:98-101 | a prime `p` is coprime to every `s` in `(0, p)`, so such an `s` is invertible |
| `ModArith.EuclidLemma` | src/he_toolkit/schemes/partial/elgamal.py:98-101 | a prime dividing `a·b` divides `a` or `b` |
| `ModArith.PowNotDivisible` | src/he_toolkit/schemes/partial/elgamal.py:98-101 | if a prime `p` does not divide `g`, it divides no power of `g`, so `g^k mod p` is never 0 |
| `ModArith.PowMul` | src/he_toolkit/schemes/partial/elgamal.py:71-98 | `(b^e1)^e2 = b^(e1·e2)`; this is why `c1^x` and `h^r` agree |
| `ModArith.PowModBase` | src/he_toolkit/schemes/partial/elgamal.py:71-98 | reducing the base modulo `m` leaves `b^e mod m` unchanged |
| `ModArith.PowAdd` | src/he_toolkit/schemes/partial/elgamal.py:124-126 | `b^(e1+e2) = b^e1 · b^e2`, the exponent law behind the product of ciphertexts |
| `ModArith.CancelModPrime` | src/he_toolkit/schemes/partial/elgamal.py:104 | a factor that is not a multiple of the prime `p` cancels from both sides of a congruence modulo `p` |
| `ElGamal.FirstAccepted` | src/he_toolkit/schemes/partial/elgamal.py:35-42 | a resampling loop accepts the first draw whose residue exceeds 1; every earlier draw was rejected, and `None` means every draw was rejected |
| `ElGamal.KeyGen` | src/he_toolkit/schemes/partial/elgamal.py:29-50 | succeeds exactly when some draw is accepted for `g` and a later draw is accepted for `x`, and then `g` and `x` are those first accepted draws; a generated key pair has a prime `p` shared by both keys, `2 <= g <= p-1`, `2 <= x <= p-2` and `h = g^x mod p`; the loops can only exit when `p >= 5`; the only failure is exhausted randomness |
| `ElGamal.GenerateKeys` | src/he_toolkit/schemes/partial/elgamal.py:17-50 | the imperative loops compute exactly `KeyGen`, so every key pair they return satisfies the generation guarantees |
| `ElGamal.EncryptWith` | src/he_toolkit/schemes/partial/elgamal.py:70-79 | for exponent `r` the ciphertext is `(g^r mod p, m·h^r mod p)` with both parts in `[0, p)` and the key's `p` copied into it |
| `ElGamal.Encrypt` | src/he_toolkit/schemes/partial/elgamal.py:64-79 | succeeds exactly when `p >= 2`, and then encrypts with some exponent in `[0, p-1)` taken from the draw |
| `ElGamal.Decrypt` | src/he_toolkit/schemes/partial/elgamal.py:93-104 | succeeds exactly when `c1^x mod p` is invertible modulo the key's `p`; the result `v` is in `[0, p)` with `v·c1^x ≡ c2 (mod p)`; otherwise it fails with the inverse error |
| `ElGamal.Multiply` | src/he_toolkit/schemes/partial/elgamal.py:135-142 | different moduli give the mismatch error; otherwise it returns a new ciphertext carrying the shared modulus, with both parts in `[0, p)` |
| `ElGamal.Add` | src/he_toolkit/schemes/partial/elgamal.py:108-112 | fails with the unsupported-operation error for every pair of ciphertexts |
| `ElGamal.MultiplyScalar` | src/he_toolkit/schemes/partial/elgamal.py:114-119 | fails with the unsupported-operation error for every ciphertext and scalar |
| `ElGamal.SharedSecret` | src/he_toolkit/schemes/partial/elgamal.py:71-98 | under a valid key pair, encryption's `h^r` and decryption's `c1^x` are both `g^(x·r) mod p`, which is nonzero |
| `ElGamal.DecryptEncryptWith` | src/he_toolkit/schemes/partial/elgamal.py:81-104 | decrypting the encryption of any integer `m` under any exponent gives `m mod p` |
| `ElGamal.RoundTrip` | src/he_toolkit/schemes/partial/elgamal.py:52-106 | under a valid key pair encryption succeeds and decryption returns `m mod p`, which equals `m` exactly when `0 <= m < p` |
| `ElGamal.ModulusPlaintextWraps` | src/he_toolkit/schemes/partial/elgamal.py:13 | the plaintext `p` decrypts to 0, so plaintexts of any size do not all survive the round trip |
| `ElGamal.DecryptIgnoresCiphertextModulus` | src/he_toolkit/schemes/partial/elgamal.py:93-95 | two ciphertexts that differ only in their `p` field decrypt identically |
| `ElGamal.DecryptFailsOnZeroComponent` | src/he_toolkit/schemes/partial/elgamal.py:98-101 | with a modulus of at least 2 and `x >= 1`, a first component divisible by `p` makes decryption fail with the inverse error |
| `ElGamal.MultiplyEncryptions` | src/he_toolkit/schemes/partial/elgamal.py:124-126 | the product of the encryptions of `m1` (exponent `r1`) and `m2` (exponent `r2`) is the encryption of `m1·m2` with exponent `r1 + r2` |
| `ElGamal.MultiplicativeHomomorphism` | src/he_toolkit/schemes/partial/elgamal.py:121-142 | the product of two encryptions under a valid key pair decrypts to `m1·m2 mod p`, which is `m1·m2` when that lies in `[0, p)` |
| `ElGamal.CrossKeyMultiplyRejected` | src/he_toolkit/schemes/partial/elgamal.py:135-137 | ciphertexts produced under keys with different moduli are rejected by `multiply` |
| `ElGamal.MultiplyCommutes` | src/he_toolkit/schemes/partial/elgamal.py:139-140 | the ciphertext product does not depend on the order of its operands |
| `ElGamal.TenTimesTwenty` | tests/test_elgamal.py:17-26 | with a modulus above 200, multiplying the encryptions of 10 and 20 decrypts to 200 |

## Left out

- Randomness and prime search: `random_state`, `mpz_urandomb` and `next_prime` are not
  modelled. The prime `p` is an input required to be prime; it stands for `next_prime`
  of the first draw. `next_prime` returns a probable prime, which the model treats as a
  true prime. The other draws form a finite sequence of natural numbers. Neither
  the draws' bit lengths nor their distribution is modelled, so there is no claim about
  fresh ciphertexts or IND-CPA security.
- `ElGamal.GenerateKeys`: when the supplied draws run out before a loop accepts one, it
  returns `RandomnessExhausted`, while the code would go on drawing until a draw is
  accepted. For `p = 2` or `p = 3` the code's loops never exit, and the model's loops
  always end in that error.
- Float conversions: `int(plaintext)` in `encrypt` and `float(m)` in `decrypt` are not
  modelled. Plaintexts are integers, and the loss of precision above 2^53 is not
  represented.
- Negative key or ciphertext components: every field is a natural number, which the code
  always produces. The behaviour of the library on negative moduli, exponents or
  components passed in by hand is not modelled.
- Degenerate moduli: the library's exceptions for a modulus of 0 (`powmod` with modulus 0,
  `% 0`, a negative bit count) and the `% 0` that `encrypt` reaches with `p = 1` are
  modelled as one error, `DegenerateModulus`.
- `ModArith.Invert`: for modulus 1 the model reports no inverse, so `Decrypt` with a
  private key whose `p` is 1 fails with `NoInverse`. Recent GMP releases instead treat
  every number as invertible modulo 1 and return 0, so `decrypt` would return 0. Key
  generation never produces such a key.
- `ElGamal.Encrypt`: its contract names the exponent range, but not which exponent a
  given draw selects. That exponent is `draw mod (p - 1)`, which the body states.
- The abstract `HEScheme` interface (`src/he_toolkit/interfaces.py`) has no logic and is
  not modelled. The toolkit's OpenFHE-backed schemes and the Paillier scheme are not part
  of this model.
