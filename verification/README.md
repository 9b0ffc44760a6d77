# Schnorr proof of knowledge of a discrete logarithm

This project models the toy zero-knowledge proof in `main.py`. A prover shows
that it knows the secret exponent `x` behind a public key `h = g^x mod p`
without revealing `x`. It is a variant of the Schnorr identification scheme
of section 2.1 of RFC 8235, with three moves:

- `generate_keypair` draws `x` from `[1, p-2]` and publishes `h = g^x mod p`.
- `prove` draws a blinding `r` and commits to `t = g^r mod p`. It then draws a
  challenge `c` itself and answers with `s = (r + c*x) mod (p-1)`.
- `verify` accepts when `g^s mod p == (t * (h^c mod p)) mod p`.

It departs from the RFC's scheme on several points:

- The RFC works in a subgroup of prime order `q` and reduces the response
  modulo `q`. The code has no `q` and reduces modulo `p-1`.
- The RFC answers with `v - a*c` and checks `V = g^r * A^c mod p`. The code
  answers with `r + c*x` and checks `g^s = t * h^c mod p`.
- The RFC's verifier checks that the public key lies in `[1, p-1]` and has
  order `q`. The code does not validate `h` at all.
- The RFC draws the blinding from `[0, q-1]` and the challenge from
  `[0, 2^t - 1]`, the challenge on the verifier's side. The code draws every
  value from `[1, p-2]`, and the prover draws its own challenge.

The model follows the code on every one of these points.

Layout:

- `mod_arith.dfy`, module `ModArith`. It defines `Pow`, the integer power,
  and `ModPow`, a square-and-multiply modular exponentiation that stands for
  Python's three-argument `pow`. It also holds the lemmas about residues and
  powers the protocol proofs use. `FermatReduce` says exponents may be reduced
  modulo `p-1` once `g^(p-1) = 1 (mod p)`.
- `schnorr.dfy`, module `Schnorr`. It defines the `KeyPair` and `Proof`
  records, the three operations, and the acceptance theorem
  `AcceptsExactly`. Completeness and the cheating case follow from it.
- `toy_group.dfy`, module `ToyGroup`. It covers the demonstration parameters
  `p = 23`, `g = 5`: the order of 5 modulo 23, one possible draw of
  `run_example` checked end to end, and the rejection of every cheating round.

Each `random.randint(1, p - 2)` call becomes a parameter of the operation
that makes it. The predicate `Drawable(v, p)` says `1 <= v <= p - 2`.
Python integers are unbounded, and so are Dafny's `int`. Python's `%` with a
positive divisor agrees with Dafny's Euclidean `%`, and every divisor here is
positive.

`g^(p-1) = 1 (mod p)` is Fermat's little theorem for a prime `p` that does
not divide `g`. The general lemmas take it as a hypothesis. For `p = 23`,
`g = 5` it is established by computation in `ToyGroup.OrderOfFive`.

## Model

| member | source | states |
|---|---|---|
| `ModArith.ModPow` | main.py:14 | `pow(b, e, m)` for `e >= 0`, `m >= 1`: the result is `b^e mod m`, so it lies in `[0, m)`. Computed by square-and-multiply and proved equal to the mathematical power. |
| `ModArith.FermatReduce` | main.py:37 | If `g^(p-1) = 1 (mod p)`, reducing an exponent modulo `p-1` (as the response does) leaves `g^e mod p` unchanged. |
| `ModArith.ShiftedExponent` | main.py:95-98 | Under the same hypothesis, `g^(a+c) = g^a (mod p)` holds exactly when `g^c = 1 (mod p)`. |
| `Schnorr.GenerateKeypair` | main.py:3-16 | For a draw `x` in `[1, p-2]`, the secret is `x` and the public key is `g^x mod p`, which lies in `[0, p)`. |
| `Schnorr.Prove` | main.py:18-39 | For draws `r`, `c` in `[1, p-2]`, the commitment is `g^r mod p` in `[0, p)`. The challenge is `c`. The response lies in `[0, p-2]` and is congruent to `r + c*x` modulo `p-1`. |
| `Schnorr.Verify` | main.py:41-50 | Accepts exactly when `g^response = commitment * h^challenge (mod p)`. |
| `Schnorr.AcceptsExactly` | main.py:28-50 | Take a proof made with secret `x'` against `h = g^x mod p`, with `g^(p-1) = 1 (mod p)`. `verify` accepts it exactly when `g^(c*x') = g^(c*x) (mod p)`, for every draw `r` and `c`. |
| `Schnorr.Completeness` | main.py:31-50 | If `h = g^x mod p` and `g^(p-1) = 1 (mod p)`, `verify` accepts `prove(g, p, x, h)` for every draw `r` and `c`. |
| `Schnorr.HonestRoundAccepted` | main.py:84-90 | A round that generates a keypair, proves with it and verifies is accepted whenever `g^(p-1) = 1 (mod p)`. |
| `Schnorr.ShiftedSecretAccepted` | main.py:95-98 | A proof made with the secret plus one is accepted exactly when `g^c = 1 (mod p)`. |
| `ToyGroup.OrderOfFive` | main.py:80-81 | For `1 <= j <= 22`, `5^j mod 23 == 1` holds exactly when `j == 22`. So 5 has order 22 and the Fermat hypothesis holds for `p = 23`, `g = 5`. |
| `ToyGroup.WorkedRound` | main.py:52-67 | One possible draw of `run_example`, with `p = 23`, `g = 5`, `x = 6`, `r = 3`, `c = 4`: the public key is 8 and the proof is `(10, 4, 5)`. Both sides of the check equal 20, and `verify` accepts. |
| `ToyGroup.HonestRoundsAccepted` | main.py:87-91 | With `p = 23`, `g = 5`, every honest round is accepted, whatever `x`, `r` and `c` are drawn. |
| `ToyGroup.WrongSecretRejected` | main.py:93-99 | With `p = 23`, `g = 5`, a prover using `x + 1` is rejected for every `x`, `r` and `c` in `[1, 21]`. |

## Left out

- The `random` module (main.py:1, 11, 28, 34). Each draw is a parameter in `[1, p-2]`. The distribution of the draws is not modelled.
- The `ValueError` that `random.randint(1, p - 2)` raises when `p < 3`. No draw exists then, and the `Drawable` preconditions exclude that case.
- Schnorr.Verify: requires `p >= 1` and non-negative `challenge` and `response`. With `p == 0`, Python's `pow` raises `ValueError`. With `p < 0` it returns non-positive residues. With a negative exponent it computes a modular inverse or raises. None of these arise from `prove`, whose outputs are never negative.
- The demonstration harness `run_example`, `run_multiple_rounds` and the `__main__` block (main.py:52-113). Only their printed output and round loops are left out. The rounds themselves appear as `WorkedRound`, `HonestRoundsAccepted` and `WrongSecretRejected`.
- Probabilistic soundness (how often a cheating prover succeeds over random challenges) and zero-knowledge (simulated transcripts having the genuine distribution). These are statements about distributions, not about the arithmetic. The deterministic core of soundness is `AcceptsExactly` and `ShiftedSecretAccepted`.
- Fermat's little theorem and the primality of `p`. `g^(p-1) = 1 (mod p)` is a hypothesis of the general lemmas, and it is computed for `p = 23`, `g = 5`.
- Fiat–Shamir challenge hashing, prime-order subgroup parameters `q`, parameter validation and erasure of secrets. `main.py` has none of these.
- `prove` accepts the public key `h` and never uses it. `Prove` takes it and ignores it too.
