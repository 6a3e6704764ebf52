/** Positional encoding of a message: letters -> positions -> one integer in
    base 27, and back. */
module MessageCodec {
  import opened Results
  import opened Alphabet
  import opened NumberTheory

  /** The radix `len(characters) + 1`: larger than every position. */
  const Radix: int := |Characters| + 1

  predicate AllIn(ds: seq<int>, lo: int, hi: int)
  {
    forall i :: 0 <= i < |ds| ==> lo <= ds[i] <= hi
  }

  // ---------------------------------------------------------------------
  // horner_eval

  /** The polynomial with coefficients ds (highest degree first) at x. */
  function Horner(ds: seq<int>, x: int): int
  {
    if ds == [] then 0 else Horner(ds[..|ds| - 1], x) * x + ds[|ds| - 1]
  }

  /** `horner_eval`: the accumulator loop over the coefficients. */
  method HornerEval(coefficients: seq<int>, value: int) returns (output: int)
    ensures output == Horner(coefficients, value)
  {
    output := 0;
    for i := 0 to |coefficients|
      invariant output == Horner(coefficients[..i], value)
    {
      assert coefficients[..i + 1][..i] == coefficients[..i];
      output := output * value + coefficients[i];
    }
    assert coefficients[..|coefficients|] == coefficients;
  }

  /** One more digit: h < P gives h*n + d < P*n, and Q <= h gives
      Q*n <= h*n + d, for d in [0, n). */
  lemma AppendDigitBounds(h: int, d: int, n: int, p: int, q: int)
    requires n >= 2 && 0 <= d < n && 0 <= h < p && q <= h
    ensures 0 <= h * n + d < p * n
    ensures q * n <= h * n + d
  {
    assert h * n <= (p - 1) * n;
    assert q * n <= h * n;
  }

  /** With digits in [0, n) and a non-zero leading digit, the value has
      exactly |ds| digits: n^(|ds|-1) <= value < n^|ds|. */
  lemma {:induction false} HornerBounds(ds: seq<int>, n: int)
    requires n >= 2 && AllIn(ds, 0, n - 1)
    ensures 0 <= Horner(ds, n) < Pow(n, |ds|)
    ensures ds != [] && ds[0] != 0 ==> Pow(n, |ds| - 1) <= Horner(ds, n)
    decreases |ds|
  {
    if ds != [] {
      var init, last := ds[..|ds| - 1], ds[|ds| - 1];
      assert AllIn(init, 0, n - 1);
      HornerBounds(init, n);
      var h := Horner(init, n);
      assert Horner(ds, n) == h * n + last;
      assert Pow(n, |ds|) == n * Pow(n, |init|);
      if ds[0] != 0 && init != [] {
        assert init[0] == ds[0];
        assert Pow(n, |init|) == n * Pow(n, |init| - 1);
        AppendDigitBounds(h, last, n, Pow(n, |init|), Pow(n, |init| - 1));
      } else {
        AppendDigitBounds(h, last, n, Pow(n, |init|), 0);
      }
    }
  }

  // ---------------------------------------------------------------------
  // convert_to_base_n

  /** The base-n digits of v, most significant first, no leading zero. */
  function Digits(v: nat, n: int): seq<int>
    requires n >= 2
    decreases v
  {
    if v == 0 then [] else Digits(v / n, n) + [v % n]
  }

  /** One step of the digit loop: v == q*n + r with r the last digit and q
      the smaller value whose digits precede it. */
  lemma DigitsStep(v: nat, n: int)
    requires n >= 2 && v != 0
    ensures 0 <= v / n < v && 0 <= v % n < n
    ensures v == (v / n) * n + v % n
    ensures Digits(v, n) == Digits(v / n, n) + [v % n]
  {
  }

  /** `convert_to_base_n`: repeatedly prepend `value % n` and divide.
      For n >= 2 the loop never ends on a negative value (floor division
      stops at -1), and for n == 1 or n == -1 it never ends on a non-zero
      value. The driver only calls it with base 27 and a non-negative
      value, which is what the precondition admits. */
  method ConvertToBaseN(value: int, n: int) returns (output: seq<int>)
    requires value >= 0 && n >= 2
    ensures output == Digits(value, n)
  {
    output := [];
    var v: nat := value;
    while v != 0
      invariant Digits(value, n) == Digits(v, n) + output
      decreases v
    {
      DigitsStep(v, n);
      var q: nat, r := v / n, v % n;
      assert Digits(q, n) + [r] + output == Digits(q, n) + ([r] + output);
      output := [r] + output;
      v := q;
    }
  }

  /** The digits lie in [0, n), there are none exactly for 0, and the
      first one is not 0. */
  lemma {:induction false} DigitsWellFormed(v: nat, n: int)
    requires n >= 2
    ensures AllIn(Digits(v, n), 0, n - 1)
    ensures Digits(v, n) == [] <==> v == 0
    ensures v != 0 ==> Digits(v, n)[0] != 0
    decreases v
  {
    if v != 0 {
      DigitsStep(v, n);
      var q, r := v / n, v % n;
      DigitsWellFormed(q, n);
      assert q == 0 ==> Digits(v, n) == [r];
    }
  }

  /** Evaluating the digits of v gives back v. */
  lemma {:induction false} DigitsEvaluate(v: nat, n: int)
    requires n >= 2
    ensures Horner(Digits(v, n), n) == v
    decreases v
  {
    if v != 0 {
      DigitsStep(v, n);
      var q, r := v / n, v % n;
      var ds := Digits(v, n);
      DigitsEvaluate(q, n);
      assert ds[..|ds| - 1] == Digits(q, n);
      assert Horner(ds, n) == Horner(Digits(q, n), n) * n + r;
    }
  }

  /** Reading a digit list with no leading zero back from its value gives
      the same list. */
  lemma {:induction false} HornerDigits(ds: seq<int>, n: int)
    requires n >= 2 && AllIn(ds, 0, n - 1) && (ds == [] || ds[0] != 0)
    ensures Horner(ds, n) >= 0 && Digits(Horner(ds, n), n) == ds
    decreases |ds|
  {
    HornerBounds(ds, n);
    if ds != [] {
      var init, last := ds[..|ds| - 1], ds[|ds| - 1];
      assert AllIn(init, 0, n - 1);
      assert init != [] ==> init[0] == ds[0];
      HornerDigits(init, n);
      var h := Horner(init, n);
      assert Horner(ds, n) == h * n + last;
      DivModUnique(h * n + last, n, h, last);
      if init == [] {
        assert Horner(ds, n) == last;
      } else {
        HornerBounds(init, n);
        assert h >= 1;
      }
      assert Horner(ds, n) != 0;
      assert ds == init + [last];
    }
  }

  // ---------------------------------------------------------------------
  // convert_to_bearcatii and convert_bearcatii_to_string

  /** `convert_to_bearcatii`: the position of every character; the first
      character outside the alphabet raises CharacterNotFound. */
  function ConvertToBearcatii(message: string): (r: Result<seq<int>>)
    ensures r.Ok? <==> InAlphabet(message)
    ensures r.Ok? ==> |r.value| == |message|
    ensures r.Ok? ==> forall i :: 0 <= i < |message| ==> PositionOf(message[i]) == Ok(r.value[i])
    ensures r.Err? ==> r.error == CharacterNotFound
  {
    if message == [] then Ok([])
    else
      match PositionOf(message[0])
      case Err(e) => Err(e)
      case Ok(p) =>
        match ConvertToBearcatii(message[1..])
        case Err(e) => Err(e)
        case Ok(rest) => Ok([p] + rest)
  }

  /** The position Python's indexing `characters[p - 1]` actually reads. */
  function Wrapped(p: int): int
  {
    if p >= 1 then p else p + |Characters|
  }

  /** `convert_bearcatii_to_string`, on top of CharacterFromIndex as
      written: positions in [-25, 0] wrap to the end of the alphabet. */
  function ConvertBearcatiiToString(bearcatii: seq<int>): (r: Result<string>)
    ensures r.Ok? <==> AllIn(bearcatii, -25, |Characters|)
    ensures r.Ok? ==> |r.value| == |bearcatii|
    ensures r.Ok? ==> forall i :: 0 <= i < |bearcatii| ==>
              PositionOf(r.value[i]) == Ok(Wrapped(bearcatii[i]))
    ensures r.Err? ==> r.error == IndexError
  {
    if bearcatii == [] then Ok([])
    else
      match CharacterFromIndex(bearcatii[0])
      case Err(e) => Err(e)
      case Ok(c) =>
        match ConvertBearcatiiToString(bearcatii[1..])
        case Err(e) => Err(e)
        case Ok(rest) =>
          assert PositionOf(c) == Ok(Wrapped(bearcatii[0]));
          Ok([c] + rest)
  }

  /** PositionOf tells letters apart. */
  lemma PositionOfInjective(c: char, d: char)
    requires PositionOf(c).Ok? && PositionOf(c) == PositionOf(d)
    ensures c == d
  {
  }

  /** Two strings whose letters have the same positions are equal. */
  lemma SamePositions(s: string, t: string)
    requires |s| == |t|
    requires forall i :: 0 <= i < |s| ==> PositionOf(s[i]).Ok? && PositionOf(s[i]) == PositionOf(t[i])
    ensures s == t
  {
    forall i | 0 <= i < |s| ensures s[i] == t[i] {
      PositionOfInjective(s[i], t[i]);
    }
  }

  /** Letters -> positions -> letters is the identity. */
  lemma StringRoundTrip(message: string)
    requires InAlphabet(message)
    ensures ConvertToBearcatii(message).Ok?
    ensures ConvertBearcatiiToString(ConvertToBearcatii(message).value) == Ok(message)
  {
    var ds := ConvertToBearcatii(message).value;
    assert AllIn(ds, 1, |Characters|) by {
      forall i | 0 <= i < |ds| ensures 1 <= ds[i] <= |Characters| {
        assert PositionOf(message[i]) == Ok(ds[i]);
      }
    }
    var back := ConvertBearcatiiToString(ds).value;
    forall i | 0 <= i < |message|
      ensures PositionOf(back[i]).Ok? && PositionOf(back[i]) == PositionOf(message[i])
    {
      assert Wrapped(ds[i]) == ds[i];
    }
    SamePositions(back, message);
  }

  /** Positions in [1, 26] -> letters -> positions is the identity. */
  lemma PositionsRoundTrip(positions: seq<int>)
    requires AllIn(positions, 1, |Characters|)
    ensures ConvertBearcatiiToString(positions).Ok?
    ensures ConvertToBearcatii(ConvertBearcatiiToString(positions).value) == Ok(positions)
  {
    var m := ConvertBearcatiiToString(positions).value;
    assert |m| == |positions|;
    forall i | 0 <= i < |m| ensures PositionOf(m[i]) == Ok(positions[i]) {
      assert Wrapped(positions[i]) == positions[i];
    }
    assert InAlphabet(m);
    var r := ConvertToBearcatii(m);
    assert r.Ok? && |r.value| == |positions|;
    forall i | 0 <= i < |positions| ensures r.value[i] == positions[i] {
      assert PositionOf(m[i]) == Ok(r.value[i]);
    }
    assert r.value == positions;
  }

  // ---------------------------------------------------------------------
  // The message pipeline of the driver: encode before `powers`, decode
  // after it.

  /** Letters -> positions -> one integer in base 27. */
  function Encode(message: string): (r: Result<int>)
    ensures r.Ok? <==> InAlphabet(message)
    ensures r.Ok? ==> 0 <= r.value < Pow(Radix, |message|)
    ensures r.Err? ==> r.error == CharacterNotFound
  {
    match ConvertToBearcatii(message)
    case Err(e) => Err(e)
    case Ok(ds) =>
      assert AllIn(ds, 0, Radix - 1);
      HornerBounds(ds, Radix);
      Ok(Horner(ds, Radix))
  }

  /** One non-negative integer -> base-27 digits -> letters, as written.
      Every base-27 digit lies in 0..26, which the as-written lookup
      accepts, so decoding never fails: one letter per digit. */
  function Decode(value: nat): (r: Result<string>)
    ensures r.Ok? && |r.value| == |Digits(value, Radix)|
    ensures forall i :: 0 <= i < |r.value| ==>
              PositionOf(r.value[i]) == Ok(Wrapped(Digits(value, Radix)[i]))
  {
    DigitsWellFormed(value, Radix);
    ConvertBearcatiiToString(Digits(value, Radix))
  }

  /** The round trip: every message over the alphabet (the empty one too)
      encodes to a non-negative integer that decodes back to it. */
  lemma DecodeEncode(message: string)
    requires InAlphabet(message)
    ensures Encode(message).Ok? && Encode(message).value >= 0
    ensures Decode(Encode(message).value) == Ok(message)
  {
    var ds := ConvertToBearcatii(message).value;
    assert AllIn(ds, 1, |Characters|);
    assert AllIn(ds, 0, Radix - 1);
    HornerDigits(ds, Radix);
    StringRoundTrip(message);
  }

  /** Finding, as written: a value whose base-27 digits contain a 0 still
      decodes, the 0 read as 'Z'. 27 decodes to "AZ", yet "AZ" encodes to
      53, not 27. */
  lemma DecodeAcceptsZeroDigit()
    ensures Decode(27) == Ok("AZ")
    ensures Encode("AZ") == Ok(53)
  {
    assert Digits(27, Radix) == [1, 0] by {
      assert Digits(1, Radix) == Digits(0, Radix) + [1];
    }
    assert Characters[0] == 'A' && Characters[25] == 'Z';
    assert ConvertBearcatiiToString([0]) == Ok("Z") by {
      assert [0][1..] == [];
      assert CharacterFromIndex(0) == Ok('Z');
      assert "Z" == ['Z'] + [];
    }
    assert ConvertBearcatiiToString([1, 0]) == Ok("AZ") by {
      assert [1, 0][1..] == [0];
      assert CharacterFromIndex(1) == Ok('A');
      assert "AZ" == ['A'] + "Z";
    }
    assert ConvertToBearcatii("Z") == Ok([26]) by {
      assert "Z"[0] == 'Z' && "Z"[1..] == [];
      assert PositionOf('Z') == Ok(26);
      assert ConvertToBearcatii([]) == Ok([]);
      assert [26] == [26] + [];
    }
    assert ConvertToBearcatii("AZ") == Ok([1, 26]) by {
      assert "AZ"[0] == 'A' && "AZ"[1..] == "Z";
      assert PositionOf('A') == Ok(1);
      assert [1, 26] == [1] + [26];
    }
    assert Horner([1, 26], Radix) == 53 by {
      assert [1, 26][..1] == [1];
      assert [1][..0] == [];
    }
  }

  /** Decoding with the corrected lookup SymbolAt: a digit outside 1..26
      (in particular 0) is an IndexError. */
  function DecodeChecked(value: nat): (r: Result<string>)
    ensures r.Ok? <==> 0 !in Digits(value, Radix)
    ensures r.Ok? ==> |r.value| == |Digits(value, Radix)|
    ensures r.Err? ==> r.error == IndexError
  {
    DigitsWellFormed(value, Radix);
    SymbolsAt(Digits(value, Radix))
  }

  function SymbolsAt(positions: seq<int>): (r: Result<string>)
    ensures r.Ok? <==> AllIn(positions, 1, |Characters|)
    ensures r.Ok? ==> |r.value| == |positions|
    ensures r.Ok? ==> forall i :: 0 <= i < |positions| ==> PositionOf(r.value[i]) == Ok(positions[i])
    ensures r.Err? ==> r.error == IndexError
  {
    if positions == [] then Ok([])
    else
      match SymbolAt(positions[0])
      case Err(e) => Err(e)
      case Ok(c) =>
        match SymbolsAt(positions[1..])
        case Err(e) => Err(e)
        case Ok(rest) => Ok([c] + rest)
  }

  /** With the corrected lookup, decoding succeeds only on encodings:
      whatever it returns encodes back to the value it was given. */
  lemma DecodeCheckedSound(value: nat)
    ensures DecodeChecked(value).Ok? ==> Encode(DecodeChecked(value).value) == Ok(value)
  {
    var ds := Digits(value, Radix);
    var r := SymbolsAt(ds);
    if r.Ok? {
      var m := r.value;
      forall i | 0 <= i < |m| ensures IsLetter(m[i]) && PositionOf(m[i]) == Ok(ds[i]) {
      }
      var back := ConvertToBearcatii(m).value;
      forall i | 0 <= i < |ds| ensures back[i] == ds[i] {
        assert PositionOf(m[i]) == Ok(back[i]);
      }
      assert back == ds;
      DigitsWellFormed(value, Radix);
      DigitsEvaluate(value, Radix);
    }
  }

  /** ... and every message over the alphabet is recovered from its
      encoding. */
  lemma DecodeCheckedComplete(message: string)
    requires InAlphabet(message)
    ensures Encode(message).Ok? && Encode(message).value >= 0
    ensures DecodeChecked(Encode(message).value) == Ok(message)
  {
    DecodeEncode(message);
    var es := ConvertToBearcatii(message).value;
    assert AllIn(es, 1, |Characters|) by {
      forall i | 0 <= i < |es| ensures 1 <= es[i] <= |Characters| {
        assert PositionOf(message[i]) == Ok(es[i]);
      }
    }
    assert AllIn(es, 0, Radix - 1);
    HornerDigits(es, Radix);
    var m := SymbolsAt(es).value;
    SamePositions(m, message);
  }
}
