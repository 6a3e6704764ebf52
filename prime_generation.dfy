/** The candidate number of `generate_n_digit_prime`: the decimal digits
    drawn at random, read as one integer. The random draws are parameters;
    the digit facts reuse the base-n conversion of the message codec. */
module PrimeGeneration {
  import opened NumberTheory
  import opened MessageCodec

  /** The candidate `int(f"{first}{middle}{last}")` built from the sampled
      digits: it has exactly |middle| + 2 decimal digits (the requested n
      when n >= 2), ends in `last`, and its decimal digits are exactly the
      ones drawn. */
  function Candidate(first: int, middle: seq<int>, last: int): (r: int)
    requires 1 <= first <= 9 && AllIn(middle, 0, 9) && last in {1, 3, 7, 9}
    ensures Pow(10, |middle| + 1) <= r < Pow(10, |middle| + 2)
    ensures r % 10 == last
    ensures Digits(r, 10) == [first] + middle + [last]
  {
    var ds := [first] + middle + [last];
    assert AllIn(ds, 0, 9);
    HornerBounds(ds, 10);
    HornerDigits(ds, 10);
    DigitsWellFormed(Horner(ds, 10), 10);
    DigitsEvaluate(Horner(ds, 10), 10);
    Horner(ds, 10)
  }
}
