/** The textbook multiplicative ElGamal scheme of the toolkit's partial-homomorphic
    family: key generation, encryption, decryption, the ciphertext product, and the two
    homomorphic operations the scheme refuses. Keys and ciphertexts are immutable
    values; every operation returns a new value and leaves its arguments as they were. */
module ElGamal {
  import opened ModArith

  /** Public key (p, g, h) with h = g^x mod p. */
  datatype PublicKey = PublicKey(p: nat, g: nat, h: nat)

  /** Private key (p, x). */
  datatype PrivateKey = PrivateKey(p: nat, x: nat)

  /** Ciphertext {c1, c2, p}; it carries its modulus so that two ciphertexts can be
      checked for compatibility without a key. */
  datatype Ciphertext = Ciphertext(c1: nat, c2: nat, p: nat)

  /** The ways an operation can fail: the first four stand for exceptions the code
      raises; RandomnessExhausted means the supplied draws ran out before a sampling loop
      accepted one (the code would go on drawing, and for p = 2 or 3 never stops). */
  datatype Error =
    | ModulusMismatch      // multiply: ValueError, the operands carry different moduli
    | Unsupported          // add, multiply_scalar: NotImplementedError
    | NoInverse            // decrypt: the library's invert finds no inverse
    | DegenerateModulus    // a modulus of 0, or of 1 when encrypt reduces modulo p - 1
    | RandomnessExhausted  // the supplied random draws ran out inside a sampling loop

  datatype Result<T> = Ok(value: T) | Err(error: Error)

  /** What key generation guarantees of a key pair. */
  predicate ValidKeyPair(pk: PublicKey, sk: PrivateKey)
  {
    IsPrime(pk.p) && sk.p == pk.p &&
    2 <= pk.g <= pk.p - 1 &&
    2 <= sk.x <= pk.p - 2 &&
    pk.h == Pow(pk.g, sk.x) % pk.p
  }

  // ---------------------------------------------------------------------------
  // Key generation

  /** The rejection-sampling loop over the supplied draws from position `from` on:
      the first draw whose residue modulo m exceeds 1, as (residue, position), or None
      when every remaining draw is rejected. */
  function FirstAccepted(draws: seq<nat>, from: nat, m: nat): (r: Option<(nat, nat)>)
    requires m >= 1 && from <= |draws|
    ensures r.Some? ==> from <= r.value.1 < |draws| && r.value.0 == draws[r.value.1] % m && r.value.0 > 1
    ensures r.Some? ==> forall k :: from <= k < r.value.1 ==> draws[k] % m <= 1
    ensures r.None? ==> forall k :: from <= k < |draws| ==> draws[k] % m <= 1
    decreases |draws| - from
  {
    if from == |draws| then None
    else if draws[from] % m > 1 then Some((draws[from] % m, from))
    else FirstAccepted(draws, from + 1, m)
  }

  /** Key generation as a function of the prime p and the random draws: g is the first
      accepted draw modulo p, x the next accepted draw modulo p - 1. */
  function KeyGen(p: nat, draws: seq<nat>): (r: Result<(PublicKey, PrivateKey)>)
    requires IsPrime(p)
    ensures var ga := FirstAccepted(draws, 0, p);
            r.Ok? <==> ga.Some? && FirstAccepted(draws, ga.value.1 + 1, p - 1).Some?
    ensures var ga := FirstAccepted(draws, 0, p);
            r.Ok? ==> r.value.0.g == ga.value.0 &&
                      r.value.1.x == FirstAccepted(draws, ga.value.1 + 1, p - 1).value.0
    ensures r.Err? ==> r.error == RandomnessExhausted
    ensures r.Ok? ==> ValidKeyPair(r.value.0, r.value.1) && r.value.0.p == p && r.value.0.p >= 5
  {
    match FirstAccepted(draws, 0, p)
    case None => Err(RandomnessExhausted)
    case Some((g, i)) =>
      match FirstAccepted(draws, i + 1, p - 1)
      case None => Err(RandomnessExhausted)
      case Some((x, _)) =>
        assert p != 4 by { assert Divides(2, 4); }
        Ok((PublicKey(p, g, PowMod(g, x, p)), PrivateKey(p, x)))
  }

  /** generate_keys: p stands for next_prime of the first random draw; `draws` supplies
      the later draws, consumed in order by the two resampling loops. */
  method GenerateKeys(p: nat, draws: seq<nat>) returns (res: Result<(PublicKey, PrivateKey)>)
    requires IsPrime(p)
    ensures res == KeyGen(p, draws)
    ensures res.Ok? ==> ValidKeyPair(res.value.0, res.value.1) && res.value.0.p >= 5
  {
    var i := 0;
    if i == |draws| {
      return Err(RandomnessExhausted);
    }
    var g := draws[i] % p;
    i := i + 1;
    while g <= 1
      invariant 1 <= i <= |draws|
      invariant g == draws[i - 1] % p
      invariant FirstAccepted(draws, 0, p) == FirstAccepted(draws, i - 1, p)
      decreases |draws| - i
    {
      if i == |draws| {
        return Err(RandomnessExhausted);
      }
      g := draws[i] % p;
      i := i + 1;
    }
    ghost var gi := i - 1;

    if i == |draws| {
      return Err(RandomnessExhausted);
    }
    var x := draws[i] % (p - 1);
    i := i + 1;
    while x <= 1
      invariant gi + 2 <= i <= |draws|
      invariant x == draws[i - 1] % (p - 1)
      invariant FirstAccepted(draws, gi + 1, p - 1) == FirstAccepted(draws, i - 1, p - 1)
      decreases |draws| - i
    {
      if i == |draws| {
        return Err(RandomnessExhausted);
      }
      x := draws[i] % (p - 1);
      i := i + 1;
    }

    var h := PowMod(g, x, p);
    res := Ok((PublicKey(p, g, h), PrivateKey(p, x)));
  }

  // ---------------------------------------------------------------------------
  // Encryption and decryption

  /** The encryption formula for a fixed exponent r: (g^r mod p, m * h^r mod p, p). */
  function EncryptWith(pk: PublicKey, m: int, r: nat): (ct: Ciphertext)
    requires pk.p >= 1
    ensures ct.p == pk.p && ct.c1 < pk.p && ct.c2 < pk.p
    ensures ct.c1 == Pow(pk.g, r) % pk.p && ct.c2 == (m * Pow(pk.h, r)) % pk.p
  {
    MulModRight(m, Pow(pk.h, r), pk.p);
    Ciphertext(PowMod(pk.g, r, pk.p), (m * PowMod(pk.h, r, pk.p)) % pk.p, pk.p)
  }

  /** encrypt: the random exponent is the supplied draw reduced modulo p - 1. A modulus
      below 2 makes that reduction divide by zero (or the draw's bit count negative). */
  function Encrypt(pk: PublicKey, m: int, draw: nat): (r: Result<Ciphertext>)
    ensures r.Ok? <==> pk.p >= 2
    ensures r.Err? ==> r.error == DegenerateModulus
    ensures r.Ok? ==> exists e: nat :: e < pk.p - 1 && r.value == EncryptWith(pk, m, e)
  {
    if pk.p < 2 then Err(DegenerateModulus)
    else
      var e := draw % (pk.p - 1);
      Ok(EncryptWith(pk, m, e))
  }

  /** decrypt: c2 * (c1^x)^-1 mod p, computed with the private key's modulus; the
      ciphertext's own modulus field is never read. */
  function Decrypt(ct: Ciphertext, sk: PrivateKey): (r: Result<nat>)
    ensures r.Ok? <==> sk.p >= 2 && Gcd(Pow(ct.c1, sk.x) % sk.p, sk.p) == 1
    ensures r.Err? ==> r.error == (if sk.p == 0 then DegenerateModulus else NoInverse)
    ensures r.Ok? ==> r.value < sk.p && (r.value * Pow(ct.c1, sk.x)) % sk.p == ct.c2 % sk.p
  {
    if sk.p == 0 then Err(DegenerateModulus)
    else
      var s := PowMod(ct.c1, sk.x, sk.p);
      ModMod(s, sk.p);
      match Invert(s, sk.p)
      case None => Err(NoInverse)
      case Some(sInv) =>
        DivideByUnit(ct.c2, s, sInv, Pow(ct.c1, sk.x), sk.p);
        Ok((ct.c2 * sInv) % sk.p)
  }

  lemma DivideByUnit(c: int, s: int, sInv: int, big: int, p: int)
    requires p >= 2 && (s * sInv) % p == 1 && s == big % p
    ensures ((c * sInv) % p * big) % p == c % p
  {
    calc {
      ((c * sInv) % p * big) % p;
      { MulMod((c * sInv) % p, big, p); MulMod(c * sInv, s, p); ModMod(c * sInv, p); ModMod(big, p); }
      ((c * sInv) * s) % p;
      { assert (c * sInv) * s == c * (s * sInv); }
      (c * (s * sInv)) % p;
      { MulModRight(c, s * sInv, p); }
      (c * 1) % p;
    }
  }

  // ---------------------------------------------------------------------------
  // Homomorphic operations

  /** multiply: the component-wise product of two ciphertexts under their shared
      modulus; ciphertexts with different moduli are refused. */
  function Multiply(ct1: Ciphertext, ct2: Ciphertext): (r: Result<Ciphertext>)
    ensures ct1.p != ct2.p ==> r == Err(ModulusMismatch)
    ensures ct1.p == ct2.p == 0 ==> r == Err(DegenerateModulus)
    ensures r.Ok? <==> ct1.p == ct2.p && ct1.p != 0
    ensures r.Ok? ==> r.value.p == ct1.p && r.value.c1 < r.value.p && r.value.c2 < r.value.p
  {
    var p := ct1.p;
    if p != ct2.p then Err(ModulusMismatch)
    else if p == 0 then Err(DegenerateModulus)
    else Ok(Ciphertext((ct1.c1 * ct2.c1) % p, (ct1.c2 * ct2.c2) % p, p))
  }

  /** add: ElGamal has no additive homomorphism; the operation always refuses. */
  function Add(ct1: Ciphertext, ct2: Ciphertext): (r: Result<Ciphertext>)
    ensures r.Err? && r.error == Unsupported
  {
    Err(Unsupported)
  }

  /** multiply_scalar: refused for every ciphertext and every scalar. */
  function MultiplyScalar(ct: Ciphertext, scalar: real): (r: Result<Ciphertext>)
    ensures r.Err? && r.error == Unsupported
  {
    Err(Unsupported)
  }

  // ---------------------------------------------------------------------------
  // Properties

  /** Under a valid key pair, both sides of ElGamal share the secret g^(x*r) mod p,
      which is never 0. */
  lemma SharedSecret(pk: PublicKey, sk: PrivateKey, r: nat)
    requires ValidKeyPair(pk, sk)
    ensures Pow(Pow(pk.g, r) % pk.p, sk.x) % pk.p == Pow(pk.g, sk.x * r) % pk.p
    ensures Pow(pk.h, r) % pk.p == Pow(pk.g, sk.x * r) % pk.p
    ensures 0 < Pow(pk.g, sk.x * r) % pk.p
  {
    var p := pk.p;
    PowModBase(Pow(pk.g, r), sk.x, p);
    PowMul(pk.g, r, sk.x);
    PowModBase(Pow(pk.g, sk.x), r, p);
    PowMul(pk.g, sk.x, r);
    ModUnique(pk.g, p, 0, pk.g);
    PowNotDivisible(p, pk.g, sk.x * r);
  }

  /** Decrypting the encryption of m with any exponent r yields m mod p. */
  lemma DecryptEncryptWith(pk: PublicKey, sk: PrivateKey, m: int, r: nat)
    requires ValidKeyPair(pk, sk)
    ensures Decrypt(EncryptWith(pk, m, r), sk) == Ok(m % pk.p)
  {
    var p := pk.p;
    var ct := EncryptWith(pk, m, r);
    var big := Pow(ct.c1, sk.x);
    var s := Pow(pk.g, sk.x * r) % p;
    SharedSecret(pk, sk, r);
    assert big % p == s;
    CoprimeToPrime(s, p);
    var res := Decrypt(ct, sk);
    assert res.Ok?;
    var v := res.value;
    // v * s and m * s agree modulo p, and s is not a multiple of p
    MulModRight(v, big, p);
    MulModRight(m, Pow(pk.h, r), p);
    ModMod(m * Pow(pk.h, r), p);
    assert (v * s) % p == (m * s) % p;
    ModUnique(s, p, 0, s);
    CancelModPrime(p, s, v, m);
    ModUnique(v, p, 0, v);
  }

  /** Round trip: encryption succeeds under a valid key pair, decryption returns m
      reduced modulo p, and so gives m back exactly when 0 <= m < p. */
  lemma RoundTrip(pk: PublicKey, sk: PrivateKey, m: int, draw: nat)
    requires ValidKeyPair(pk, sk)
    ensures Encrypt(pk, m, draw).Ok?
    ensures Decrypt(Encrypt(pk, m, draw).value, sk) == Ok(m % pk.p)
    ensures Decrypt(Encrypt(pk, m, draw).value, sk) == Ok(m) <==> 0 <= m < pk.p
  {
    DecryptEncryptWith(pk, sk, m, draw % (pk.p - 1));
    if 0 <= m < pk.p {
      ModUnique(m, pk.p, 0, m);
    }
  }

  /** The plaintext p itself does not survive the round trip: it decrypts to 0. */
  lemma ModulusPlaintextWraps(pk: PublicKey, sk: PrivateKey, draw: nat)
    requires ValidKeyPair(pk, sk)
    ensures Decrypt(Encrypt(pk, pk.p, draw).value, sk) == Ok(0)
  {
    RoundTrip(pk, sk, pk.p, draw);
    ModUnique(pk.p, pk.p, 1, 0);
  }

  /** Decryption reads only c1 and c2: the ciphertext's modulus field has no effect. */
  lemma DecryptIgnoresCiphertextModulus(c1: nat, c2: nat, q1: nat, q2: nat, sk: PrivateKey)
    ensures Decrypt(Ciphertext(c1, c2, q1), sk) == Decrypt(Ciphertext(c1, c2, q2), sk)
  {
  }

  /** A first component that is a multiple of the modulus has no inverse power:
      decryption fails with the library's no-inverse error. */
  lemma DecryptFailsOnZeroComponent(ct: Ciphertext, sk: PrivateKey)
    requires sk.p >= 2 && sk.x >= 1 && ct.c1 % sk.p == 0
    ensures Decrypt(ct, sk) == Err(NoInverse)
  {
    var p := sk.p;
    PowModBase(ct.c1, sk.x, p);
    assert Pow(0, sk.x) == 0 * Pow(0, sk.x - 1);
    ModUnique(0, p, 0, 0);
    assert Gcd(0, p) == p;
  }

  /** The product of the encryptions of m1 (exponent r1) and m2 (exponent r2) is the
      encryption of m1 * m2 with exponent r1 + r2. */
  lemma MultiplyEncryptions(pk: PublicKey, m1: int, m2: int, r1: nat, r2: nat)
    requires pk.p >= 1
    ensures Multiply(EncryptWith(pk, m1, r1), EncryptWith(pk, m2, r2)) == Ok(EncryptWith(pk, m1 * m2, r1 + r2))
  {
    var p := pk.p;
    var a, b := EncryptWith(pk, m1, r1), EncryptWith(pk, m2, r2);
    var h1, h2 := Pow(pk.h, r1), Pow(pk.h, r2);
    calc {
      (a.c1 * b.c1) % p;
      { MulMod(Pow(pk.g, r1), Pow(pk.g, r2), p); }
      (Pow(pk.g, r1) * Pow(pk.g, r2)) % p;
      { PowAdd(pk.g, r1, r2); }
      Pow(pk.g, r1 + r2) % p;
    }
    calc {
      (a.c2 * b.c2) % p;
      { MulMod(m1 * h1, m2 * h2, p); }
      ((m1 * h1) * (m2 * h2)) % p;
      { assert (m1 * h1) * (m2 * h2) == (m1 * m2) * (h1 * h2); }
      ((m1 * m2) * (h1 * h2)) % p;
      { PowAdd(pk.h, r1, r2); }
      ((m1 * m2) * Pow(pk.h, r1 + r2)) % p;
    }
  }

  /** Multiplicative homomorphism: the product of two encryptions under a valid key
      pair decrypts to m1 * m2 mod p, which is m1 * m2 itself when 0 <= m1 * m2 < p. */
  lemma MultiplicativeHomomorphism(pk: PublicKey, sk: PrivateKey, m1: int, m2: int, d1: nat, d2: nat)
    requires ValidKeyPair(pk, sk)
    ensures Encrypt(pk, m1, d1).Ok? && Encrypt(pk, m2, d2).Ok?
    ensures Multiply(Encrypt(pk, m1, d1).value, Encrypt(pk, m2, d2).value).Ok?
    ensures Decrypt(Multiply(Encrypt(pk, m1, d1).value, Encrypt(pk, m2, d2).value).value, sk)
            == Ok((m1 * m2) % pk.p)
    ensures 0 <= m1 * m2 < pk.p ==>
            Decrypt(Multiply(Encrypt(pk, m1, d1).value, Encrypt(pk, m2, d2).value).value, sk)
            == Ok(m1 * m2)
  {
    var r1, r2 := d1 % (pk.p - 1), d2 % (pk.p - 1);
    MultiplyEncryptions(pk, m1, m2, r1, r2);
    DecryptEncryptWith(pk, sk, m1 * m2, r1 + r2);
    if 0 <= m1 * m2 < pk.p {
      ModUnique(m1 * m2, pk.p, 0, m1 * m2);
    }
  }

  /** Ciphertexts made under two keys with different moduli cannot be multiplied. */
  lemma CrossKeyMultiplyRejected(pk1: PublicKey, pk2: PublicKey, m1: int, m2: int, d1: nat, d2: nat)
    requires pk1.p >= 2 && pk2.p >= 2 && pk1.p != pk2.p
    ensures Multiply(Encrypt(pk1, m1, d1).value, Encrypt(pk2, m2, d2).value) == Err(ModulusMismatch)
  {
  }

  /** The ciphertext product does not depend on the order of its operands. */
  lemma MultiplyCommutes(ct1: Ciphertext, ct2: Ciphertext)
    ensures Multiply(ct1, ct2) == Multiply(ct2, ct1)
  {
  }

  /** The toolkit's worked example: with a modulus above 200, the product of the
      encryptions of 10 and 20 decrypts to 200. */
  lemma TenTimesTwenty(pk: PublicKey, sk: PrivateKey, d1: nat, d2: nat)
    requires ValidKeyPair(pk, sk) && pk.p > 200
    ensures Decrypt(Multiply(Encrypt(pk, 10, d1).value, Encrypt(pk, 20, d2).value).value, sk) == Ok(200)
  {
    MultiplicativeHomomorphism(pk, sk, 10, 20, d1, d2);
  }
}
