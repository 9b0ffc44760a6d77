/**
  The Schnorr proof of knowledge of a discrete logarithm as `main.py` runs it:
  commit, challenge, response. It is a variant of the identification scheme
  of section 2.1 of RFC 8235, not that scheme itself: there is no prime
  subgroup order, the response is r + c*x reduced modulo p-1, the check is
  g^s = t * h^c (mod p), the public key is never validated, and the prover
  draws every value, its own challenge included, from [1, p-2].

  Each `random.randint(1, p - 2)` of the source is a parameter of the
  operation that draws it, constrained by `Drawable` to the range that call
  can return.
 */
module Schnorr {
  import opened ModArith

  /** The pair `(private_key, public_key)` returned by `generate_keypair`. */
  datatype KeyPair = KeyPair(secret: int, public: int)

  /** The triple `(commitment, challenge, response)` returned by `prove`. */
  datatype Proof = Proof(commitment: int, challenge: int, response: int)

  /** v is a value `random.randint(1, p - 2)` can return. */
  predicate Drawable(v: int, p: int)
  {
    1 <= v <= p - 2
  }

  /** `generate_keypair`: the secret is the draw x, the public key is g^x mod p. */
  function GenerateKeypair(g: int, p: int, x: int): (kp: KeyPair)
    requires Drawable(x, p)
    ensures kp.secret == x && 1 <= kp.secret <= p - 2
    ensures kp.public == Pow(g, x) % p && 0 <= kp.public < p
  {
    KeyPair(x, ModPow(g, x, p))
  }

  /**
    `prove`: with blinding draw r and challenge draw c, commits to g^r mod p
    and answers with the residue of r + c*x modulo p-1. The public key h is
    accepted and not used, as in the source.
   */
  function Prove(g: int, p: int, x: int, h: int, r: int, c: int): (pf: Proof)
    requires Drawable(r, p) && Drawable(c, p)
    ensures pf.commitment == Pow(g, r) % p && 0 <= pf.commitment < p
    ensures pf.challenge == c && 1 <= pf.challenge <= p - 2
    ensures 0 <= pf.response <= p - 2 && (r + c * x - pf.response) % (p - 1) == 0
  {
    ModSubResidue(r + c * x, p - 1);
    Proof(ModPow(g, r, p), c, (r + c * x) % (p - 1))
  }

  /** `verify`: accepts exactly when g^response = commitment * h^challenge (mod p). */
  function Verify(g: int, p: int, h: int, commitment: int, challenge: int, response: int): (ok: bool)
    requires p >= 1 && challenge >= 0 && response >= 0
    ensures ok <==> Pow(g, response) % p == (commitment * Pow(h, challenge)) % p
  {
    ModMulRight(commitment, Pow(h, challenge), p);
    ModPow(g, response, p) == (commitment * ModPow(h, challenge, p)) % p
  }

  /** The left side of `verify`'s equation for a proof made with secret `fake` is g^(r + c*fake) mod p. */
  lemma ResponseSide(g: int, p: int, fake: nat, h: int, r: int, c: int)
    requires p >= 3 && Pow(g, p - 1) % p == 1 && Drawable(r, p) && Drawable(c, p)
    ensures Pow(g, Prove(g, p, fake, h, r, c).response) % p == Pow(g, r + c * fake) % p
  {
    var e: nat := r + c * fake;
    FermatReduce(g, p, e);
  }

  /** The right side of `verify`'s equation against the public key of secret x is g^(r + c*x) mod p. */
  lemma CommitmentSide(g: int, p: int, x: nat, fake: int, r: int, c: int)
    requires p >= 3 && Drawable(r, p) && Drawable(c, p)
    ensures (Prove(g, p, fake, Pow(g, x) % p, r, c).commitment * Pow(Pow(g, x) % p, c)) % p
      == Pow(g, r + c * x) % p
  {
    var t := Pow(g, r);
    var e: nat := c * x;
    PowModBase(Pow(g, x), c, p);
    PowMul(g, x, c);
    assert x * c == e;
    assert Pow(Pow(g, x) % p, c) % p == Pow(g, e) % p;
    ModMul(t, Pow(g, e), p);
    ModMulRight(t % p, Pow(Pow(g, x) % p, c), p);
    PowAdd(g, r, e);
  }

  /**
    The verdict on a proof made with secret `fake` against the public key of
    secret x: `verify` accepts exactly when g^(c*fake) = g^(c*x) (mod p).
    g^(p-1) = 1 (mod p) is Fermat's little theorem for a prime p that does not
    divide g; it is a hypothesis here.
   */
  lemma AcceptsExactly(g: int, p: int, x: nat, fake: nat, r: int, c: int)
    requires p >= 3 && Pow(g, p - 1) % p == 1 && Drawable(r, p) && Drawable(c, p)
    ensures var h := Pow(g, x) % p;
      var pf := Prove(g, p, fake, h, r, c);
      var accepted := Verify(g, p, h, pf.commitment, pf.challenge, pf.response);
      accepted <==> Pow(g, c * fake) % p == Pow(g, c * x) % p
  {
    var h := Pow(g, x) % p;
    ResponseSide(g, p, fake, h, r, c);
    CommitmentSide(g, p, x, fake, r, c);
    if Pow(g, r + c * fake) % p == Pow(g, r + c * x) % p {
      CancelPow(g, p, r, c * fake, c * x);
    }
    if Pow(g, c * fake) % p == Pow(g, c * x) % p {
      ShiftPow(g, p, r, c * fake, c * x);
    }
  }

  /**
    A prover who runs `prove` with the secret plus one, as the cheating rounds
    of the demonstration do, is accepted exactly when g^c = 1 (mod p).
   */
  lemma ShiftedSecretAccepted(g: int, p: int, x: nat, r: int, c: int)
    requires p >= 3 && Pow(g, p - 1) % p == 1 && Drawable(r, p) && Drawable(c, p)
    ensures var h := Pow(g, x) % p;
      var pf := Prove(g, p, x + 1, h, r, c);
      var accepted := Verify(g, p, h, pf.commitment, pf.challenge, pf.response);
      accepted <==> Pow(g, c) % p == 1
  {
    AcceptsExactly(g, p, x, x + 1, r, c);
    var cx: nat := c * x;
    assert c * (x + 1) == cx + c;
    ShiftedExponent(g, p, cx, c);
  }

  /** Completeness: an honest proof for h = g^x mod p always verifies, whatever r and c are drawn. */
  lemma Completeness(g: int, p: int, x: nat, h: int, r: int, c: int)
    requires p >= 3 && Pow(g, p - 1) % p == 1 && h == Pow(g, x) % p
    requires Drawable(r, p) && Drawable(c, p)
    ensures var pf := Prove(g, p, x, h, r, c);
      Verify(g, p, h, pf.commitment, pf.challenge, pf.response)
  {
    AcceptsExactly(g, p, x, x, r, c);
  }

  /** One honest round as the demo runs it: generate a keypair, prove with it, verify. */
  lemma HonestRoundAccepted(g: int, p: int, x: int, r: int, c: int)
    requires Drawable(x, p) && Drawable(r, p) && Drawable(c, p) && Pow(g, p - 1) % p == 1
    ensures var kp := GenerateKeypair(g, p, x);
      var pf := Prove(g, p, kp.secret, kp.public, r, c);
      Verify(g, p, kp.public, pf.commitment, pf.challenge, pf.response)
  {
    Completeness(g, p, x, GenerateKeypair(g, p, x).public, r, c);
  }
}
