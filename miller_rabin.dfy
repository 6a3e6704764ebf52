/** `prime_test_miller_rabin` with its random witnesses supplied by the
    caller, and the proof that each of its rounds is the textbook
    strong-probable-prime test. */
module MillerRabin {
  import opened NumberTheory

  // ---------------------------------------------------------------------
  // One round, as the source runs it.

  /** The halving loop from exponent k: halve k while it is even; with
      x = a^k mod n, stop passing at x == n-1, fail at any x other than 1,
      and pass once k is odd. */
  function Halving(n: int, a: int, k: nat): bool
    requires n >= 1 && k >= 1
    decreases k
  {
    if k % 2 != 0 then true
    else
      var x := Pow(a, k / 2) % n;
      if x == n - 1 then true
      else if x != 1 then false
      else Halving(n, a, k / 2)
  }

  /** A round with witness a: the Fermat check a^(n-1) mod n == 1, then the
      halving loop from the full n - 1. */
  predicate RoundPasses(n: int, a: int)
    requires n >= 2
  {
    Pow(a, n - 1) % n == 1 && Halving(n, a, n - 1)
  }

  // ---------------------------------------------------------------------
  // The textbook condition: k == 2^s * d with d odd; a passes when
  // a^d == 1 or a^(2^r * d) == -1 (mod n) for some r < s.

  function Pow2(r: nat): (p: nat)
    ensures p >= 1
  {
    if r == 0 then 1 else 2 * Pow2(r - 1)
  }

  /** The odd part d of k. */
  function OddPart(k: nat): (d: nat)
    requires k >= 1
    decreases k
  {
    if k % 2 == 1 then k else OddPart(k / 2)
  }

  /** The number s of factors 2 in k. */
  function TwoAdicValuation(k: nat): (s: nat)
    requires k >= 1
    decreases k
  {
    if k % 2 == 1 then 0 else 1 + TwoAdicValuation(k / 2)
  }

  lemma {:induction false} OddPartDecomposes(k: nat)
    requires k >= 1
    ensures OddPart(k) % 2 == 1
    ensures Pow2(TwoAdicValuation(k)) * OddPart(k) == k
    decreases k
  {
    if k % 2 == 0 {
      var h := k / 2;
      OddPartDecomposes(h);
      var s, d := TwoAdicValuation(h), OddPart(h);
      assert TwoAdicValuation(k) == s + 1 && OddPart(k) == d;
      DoubleExponent(s, d);
    }
  }

  predicate StrongAt(n: int, a: int, k: nat)
    requires n >= 1 && k >= 1
  {
    var d := OddPart(k);
    Pow(a, d) % n == 1
    || exists r :: 0 <= r < TwoAdicValuation(k) && Pow(a, Pow2(r) * d) % n == n - 1
  }

  /** n is a strong probable prime to base a. */
  predicate StrongProbablePrime(n: int, a: int)
    requires n >= 2
  {
    StrongAt(n, a, n - 1)
  }

  // ---------------------------------------------------------------------
  // Squaring facts modulo n.

  lemma SquareOfOne(n: int, a: int, m: nat)
    requires n >= 2 && Pow(a, m) % n == 1
    ensures Pow(a, 2 * m) % n == 1
  {
    PowSquareMod(a, m, n);
    assert (1 * 1) % n == 1;
  }

  lemma SquareOfMinusOne(n: int, a: int, m: nat)
    requires n >= 2 && Pow(a, m) % n == n - 1
    ensures Pow(a, 2 * m) % n == 1
  {
    PowSquareMod(a, m, n);
    MinusOneSquared(n);
  }

  lemma MinusOneSquared(n: int)
    requires n >= 2
    ensures ((n - 1) * (n - 1)) % n == 1
  {
    var m := n - 1;
    assert m * m == m * (n - 2) + m;
    assert m * (n - 2) == (n - 2) * n - (n - 2);
    DivModUnique(m * m, n, n - 2, 1);
  }

  lemma DoubleExponent(r: nat, d: nat)
    ensures Pow2(r + 1) * d == 2 * (Pow2(r) * d)
  {
  }

  /** Once a^(2^r d) == 1, every further squaring stays 1. */
  lemma {:induction false} OneStaysOne(n: int, a: int, d: nat, r: nat, v: nat)
    requires n >= 2 && r <= v && Pow(a, Pow2(r) * d) % n == 1
    ensures Pow(a, Pow2(v) * d) % n == 1
    decreases v - r
  {
    if r < v {
      DoubleExponent(r, d);
      SquareOfOne(n, a, Pow2(r) * d);
      OneStaysOne(n, a, d, r + 1, v);
    }
  }

  /** Once a^(2^r d) == -1, every later squaring is 1. */
  lemma {:induction false} MinusOneThenOne(n: int, a: int, d: nat, r: nat, v: nat)
    requires n >= 2 && r < v && Pow(a, Pow2(r) * d) % n == n - 1
    ensures Pow(a, Pow2(v) * d) % n == 1
  {
    DoubleExponent(r, d);
    SquareOfMinusOne(n, a, Pow2(r) * d);
    OneStaysOne(n, a, d, r + 1, v);
  }

  lemma {:induction false} FermatFromOddPart(n: int, a: int, k: nat)
    requires n >= 2 && k >= 1 && Pow(a, OddPart(k)) % n == 1
    ensures Pow(a, k) % n == 1
  {
    var d, s := OddPart(k), TwoAdicValuation(k);
    OddPartDecomposes(k);
    assert Pow2(0) * d == d;
    OneStaysOne(n, a, d, 0, s);
  }

  lemma {:induction false} FermatFromMinusOne(n: int, a: int, k: nat, r: nat)
    requires n >= 2 && k >= 1 && r < TwoAdicValuation(k)
    requires Pow(a, Pow2(r) * OddPart(k)) % n == n - 1
    ensures Pow(a, k) % n == 1
  {
    OddPartDecomposes(k);
    MinusOneThenOne(n, a, OddPart(k), r, TwoAdicValuation(k));
  }

  /** The textbook condition implies the Fermat condition. */
  lemma {:induction false} StrongImpliesFermat(n: int, a: int, k: nat)
    requires n >= 2 && k >= 1 && StrongAt(n, a, k)
    ensures Pow(a, k) % n == 1
  {
    if Pow(a, OddPart(k)) % n == 1 {
      FermatFromOddPart(n, a, k);
    } else {
      var r :| 0 <= r < TwoAdicValuation(k) && Pow(a, Pow2(r) * OddPart(k)) % n == n - 1;
      FermatFromMinusOne(n, a, k, r);
    }
  }

  /** For an even k == 2h: the odd part is that of h, the valuation one
      more, and h == 2^s * d. */
  lemma HalfOfEven(k: nat)
    requires k >= 2 && k % 2 == 0
    ensures OddPart(k) == OddPart(k / 2)
    ensures TwoAdicValuation(k) == TwoAdicValuation(k / 2) + 1
    ensures Pow2(TwoAdicValuation(k / 2)) * OddPart(k / 2) == k / 2
  {
    OddPartDecomposes(k / 2);
  }

  /** Halving step that meets -1: the textbook condition holds at r == s. */
  lemma StrongAtMinusOne(n: int, a: int, k: nat)
    requires n >= 3 && k >= 2 && k % 2 == 0 && Pow(a, k / 2) % n == n - 1
    ensures StrongAt(n, a, k)
  {
    HalfOfEven(k);
    var s, d := TwoAdicValuation(k / 2), OddPart(k / 2);
    assert Pow(a, Pow2(s) * d) % n == n - 1;
  }

  /** Halving step that meets neither 1 nor -1: the textbook condition
      fails, since any earlier 1 or -1 would make a^(k/2) == 1. */
  lemma {:induction false} NotStrongAtOther(n: int, a: int, k: nat)
    requires n >= 3 && k >= 2 && k % 2 == 0
    requires Pow(a, k / 2) % n != 1 && Pow(a, k / 2) % n != n - 1
    ensures !StrongAt(n, a, k)
  {
    HalfOfEven(k);
    var s, d := TwoAdicValuation(k / 2), OddPart(k / 2);
    if Pow(a, d) % n == 1 {
      assert Pow2(0) * d == d;
      OneStaysOne(n, a, d, 0, s);
    } else if StrongAt(n, a, k) {
      var r :| 0 <= r < s + 1 && Pow(a, Pow2(r) * d) % n == n - 1;
      if r < s {
        MinusOneThenOne(n, a, d, r, s);
      }
    }
  }

  /** Halving step that meets 1: the textbook condition for k is the one
      for k/2 (r == s would need a^(k/2) == -1, and 1 != -1 mod n >= 3). */
  lemma {:induction false} StrongAtOne(n: int, a: int, k: nat)
    requires n >= 3 && k >= 2 && k % 2 == 0 && Pow(a, k / 2) % n == 1
    ensures StrongAt(n, a, k) <==> StrongAt(n, a, k / 2)
  {
    HalfOfEven(k);
    var s, d := TwoAdicValuation(k / 2), OddPart(k / 2);
    if StrongAt(n, a, k) && Pow(a, d) % n != 1 {
      var r :| 0 <= r < s + 1 && Pow(a, Pow2(r) * d) % n == n - 1;
      assert r != s;
    }
    if StrongAt(n, a, k / 2) && Pow(a, d) % n != 1 {
      var r :| 0 <= r < s && Pow(a, Pow2(r) * d) % n == n - 1;
      assert 0 <= r < s + 1;
    }
  }

  /** The halving loop from an exponent k with a^k == 1 (mod n) passes
      exactly when the textbook condition holds for k. */
  lemma {:induction false} HalvingIsStrong(n: int, a: int, k: nat)
    requires n >= 3 && k >= 1 && Pow(a, k) % n == 1
    ensures Halving(n, a, k) <==> StrongAt(n, a, k)
    decreases k
  {
    if k % 2 == 0 {
      var x := Pow(a, k / 2) % n;
      if x == n - 1 {
        StrongAtMinusOne(n, a, k);
      } else if x != 1 {
        NotStrongAtOther(n, a, k);
      } else {
        HalvingIsStrong(n, a, k / 2);
        StrongAtOne(n, a, k);
      }
    } else {
      assert OddPart(k) == k;
    }
  }

  /** A round of the source passes exactly when n is a strong probable
      prime to the witness. */
  lemma RoundIsStrong(n: int, a: int)
    requires n >= 3
    ensures RoundPasses(n, a) <==> StrongProbablePrime(n, a)
  {
    if Pow(a, n - 1) % n == 1 {
      HalvingIsStrong(n, a, n - 1);
    } else if StrongProbablePrime(n, a) {
      StrongImpliesFermat(n, a, n - 1);
    }
  }

  /** A witness failing the Fermat check proves n composite-by-test. */
  lemma FermatWitnessRejects(n: int, a: int)
    requires n >= 3 && Pow(a, n - 1) % n != 1
    ensures !RoundPasses(n, a) && !StrongProbablePrime(n, a)
  {
    RoundIsStrong(n, a);
  }

  // ---------------------------------------------------------------------
  // prime_test_miller_rabin

  /** `prime_test_miller_rabin(n, |witnesses|)` where round i uses
      witnesses[i] in place of `randint(2, n - 2)`. n >= 4 is what that
      draw needs. True exactly when n is a strong probable prime to every
      witness. */
  method PrimeTestMillerRabin(n: int, witnesses: seq<int>) returns (probablyPrime: bool)
    requires n >= 4
    requires forall i :: 0 <= i < |witnesses| ==> 2 <= witnesses[i] <= n - 2
    ensures probablyPrime <==>
              forall i :: 0 <= i < |witnesses| ==> StrongProbablePrime(n, witnesses[i])
  {
    for i := 0 to |witnesses|
      invariant forall j :: 0 <= j < i ==> StrongProbablePrime(n, witnesses[j])
    {
      var k := n - 1;
      var a := witnesses[i];
      RoundIsStrong(n, a);
      PowersMatchesPow(a, k, n);
      if Powers(a, k, n).value != 1 {
        return false;
      }
      while k % 2 == 0
        invariant 1 <= k
        invariant Pow(a, k) % n == 1
        invariant RoundPasses(n, a) == Halving(n, a, k)
        decreases k
      {
        ghost var k0 := k;
        k := k / 2;
        PowersMatchesPow(a, k, n);
        var x := Powers(a, k, n).value;
        if x == n - 1 {
          assert Halving(n, a, k0);
          break;
        }
        if x != 1 {
          assert !Halving(n, a, k0);
          return false;
        }
      }
      assert RoundPasses(n, a);
    }
    return true;
  }
}
