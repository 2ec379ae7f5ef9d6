/** The modulus of the secret-sharing field, and the proof that it is prime. */
module MersennePrime {
  import opened ModularArithmetic
  import opened MersenneTest
  import LucasLehmerResidues

  const PRIME: int := MERSENNE_127

  lemma {:induction false} Pow2Add(i: nat, j: nat)
    ensures Pow2(i + j) == Pow2(i) * Pow2(j)
  {
    if i > 0 {
      Pow2Add(i - 1, j);
    }
  }

  lemma PowerOfTwo127()
    ensures Pow2(127) == PRIME + 1
  {
    SmallPowers();
    hide Pow2;
    Pow2Add(7, 8);
    Pow2Add(8, 8);
    Pow2Add(16, 16);
    Pow2Add(32, 32);
    Pow2Add(64, 32);
    Pow2Add(96, 16);
    Pow2Add(112, 15);
  }

  lemma SmallPowers()
    ensures Pow2(7) == 128 && Pow2(8) == 256
  {
  }

  lemma PrimeIsPrime()
    ensures IsPrime(PRIME)
  {
    PowerOfTwo127();
    LucasLehmerResidues.LastResidueIsZero();
    LucasLehmerTest(125);
  }
}
