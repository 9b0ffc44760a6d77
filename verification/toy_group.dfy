/**
  The demonstration parameters p = 23, g = 5 that `run_example` and
  `run_multiple_rounds` use: the worked round, the order of 5 modulo 23, and
  the rejection of every round a prover runs with the secret plus one.
 */
module ToyGroup {
  import opened ModArith
  import opened Schnorr

  const P: int := 23
  const G: int := 5

  /** The residues 5^k mod 23 for k = 1, ..., 6, each from the one before. */
  lemma FirstPowersOfFive()
    ensures Pow(G, 1) % P == 5 && Pow(G, 2) % P == 2 && Pow(G, 3) % P == 10
    ensures Pow(G, 4) % P == 4 && Pow(G, 5) % P == 20 && Pow(G, 6) % P == 8
  {
    PowStep(G, P, 0, 1);
    PowStep(G, P, 1, 5);
    PowStep(G, P, 2, 2);
    PowStep(G, P, 3, 10);
    PowStep(G, P, 4, 4);
    PowStep(G, P, 5, 20);
  }

  /** 5 has order 22 modulo 23: among 5^1, ..., 5^22 only the last is 1. */
  lemma OrderOfFive(j: nat)
    requires 1 <= j <= P - 1
    ensures Pow(G, j) % P == 1 <==> j == P - 1
  {
    // The residues 5^k mod 23 for k = 7, ..., 22, each from the one before.
    FirstPowersOfFive();
    PowStep(G, P, 6, 8);
    PowStep(G, P, 7, 17);
    PowStep(G, P, 8, 16);
    PowStep(G, P, 9, 11);
    PowStep(G, P, 10, 9);
    PowStep(G, P, 11, 22);
    PowStep(G, P, 12, 18);
    PowStep(G, P, 13, 21);
    PowStep(G, P, 14, 13);
    PowStep(G, P, 15, 19);
    PowStep(G, P, 16, 3);
    PowStep(G, P, 17, 15);
    PowStep(G, P, 18, 6);
    PowStep(G, P, 19, 7);
    PowStep(G, P, 20, 12);
    PowStep(G, P, 21, 14);
    assert j in {1, 2, 3, 4, 5, 6, 7, 8, 9, 10, 11, 12, 13, 14, 15, 16, 17, 18, 19, 20, 21, 22};
  }

  /** One possible draw of `run_example`, x = 6, r = 3, c = 4: h = 8, commitment 10, response 27 mod 22 = 5, both sides 20. */
  lemma WorkedRound()
    ensures GenerateKeypair(G, P, 6) == KeyPair(6, 8)
    ensures Prove(G, P, 6, 8, 3, 4) == Proof(10, 4, 5)
    ensures ModPow(G, 5, P) == 20 && (10 * ModPow(8, 4, P)) % P == 20
    ensures Verify(G, P, 8, 10, 4, 5)
  {
    FirstPowersOfFive();
    // 8^k mod 23 for k = 1, ..., 4.
    PowStep(8, P, 0, 1);
    PowStep(8, P, 1, 8);
    PowStep(8, P, 2, 18);
    PowStep(8, P, 3, 6);
    ModMulRight(10, Pow(8, 4), P);
  }

  /** The honest rounds of `run_multiple_rounds`: every round with the real secret is accepted. */
  lemma HonestRoundsAccepted(x: int, r: int, c: int)
    requires Drawable(x, P) && Drawable(r, P) && Drawable(c, P)
    ensures var kp := GenerateKeypair(G, P, x);
      var pf := Prove(G, P, kp.secret, kp.public, r, c);
      Verify(G, P, kp.public, pf.commitment, pf.challenge, pf.response)
  {
    OrderOfFive(P - 1);
    HonestRoundAccepted(G, P, x, r, c);
  }

  /**
    The cheating rounds of `run_multiple_rounds`: a prover holding the secret
    plus one is rejected for every blinding r and every challenge c that can
    be drawn, since acceptance would need 5^c = 1 (mod 23).
   */
  lemma WrongSecretRejected(x: int, r: int, c: int)
    requires Drawable(x, P) && Drawable(r, P) && Drawable(c, P)
    ensures var kp := GenerateKeypair(G, P, x);
      var pf := Prove(G, P, kp.secret + 1, kp.public, r, c);
      !Verify(G, P, kp.public, pf.commitment, pf.challenge, pf.response)
  {
    OrderOfFive(P - 1);
    ShiftedSecretAccepted(G, P, x, r, c);
    OrderOfFive(c);
  }
}
