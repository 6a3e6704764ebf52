/** The BearcatII alphabet: the 26 capital letters, each at a 1-based
    position. */
module Alphabet {
  import opened Results

  /** `characters`: the letters in order. */
  const Characters: seq<char> := "ABCDEFGHIJKLMNOPQRSTUVWXYZ"

  /** The letter at 0-based slot i is the i-th letter after 'A'. */
  lemma CharactersAreLetters(i: int)
    requires 0 <= i < |Characters|
    ensures Characters[i] == ('A' as int + i) as char
  {
  }

  predicate IsLetter(c: char)
  {
    'A' <= c <= 'Z'
  }

  /** The letters are exactly the members of `characters`. */
  lemma IsLetterIsMembership(c: char)
    ensures IsLetter(c) <==> c in Characters
  {
    if IsLetter(c) {
      CharactersAreLetters(c as int - 'A' as int);
    } else {
      forall i | 0 <= i < |Characters| ensures Characters[i] != c {
        CharactersAreLetters(i);
      }
    }
  }

  /** Every character of the message is in the alphabet. */
  predicate InAlphabet(message: string)
  {
    forall i :: 0 <= i < |message| ==> IsLetter(message[i])
  }

  /** Reference for `get_index_from_character`, by character code: the
      1-based position of a capital letter, CharacterNotFound otherwise. */
  function PositionOf(c: char): (r: Result<int>)
    ensures r.Ok? <==> IsLetter(c)
    ensures r.Ok? ==> 1 <= r.value <= |Characters| && Characters[r.value - 1] == c
    ensures r.Err? ==> r.error == CharacterNotFound
  {
    if IsLetter(c) then
      var p := c as int - 'A' as int + 1;
      CharactersAreLetters(p - 1);
      Ok(p)
    else
      Err(CharacterNotFound)
  }

  /** `get_index_from_character`: a linear search of the alphabet that
      returns at the first match. */
  method GetIndexFromCharacter(character: char) returns (r: Result<int>)
    ensures r == PositionOf(character)
  {
    for index := 0 to |Characters|
      invariant forall j :: 0 <= j < index ==> Characters[j] != character
    {
      if Characters[index] == character {
        CharactersAreLetters(index);
        return Ok(index + 1);
      }
    }
    IsLetterIsMembership(character);
    return Err(CharacterNotFound);
  }

  /** `get_character_from_index` as written: only index > 26 is rejected by
      its own guard; an index in [-25, 0] reaches Python's negative indexing
      `characters[index - 1]` and wraps to the end of the alphabet, and an
      index below -25 makes that indexing raise IndexError. */
  function CharacterFromIndex(index: int): (r: Result<char>)
    ensures r.Ok? <==> -25 <= index <= |Characters|
    ensures r.Ok? && 1 <= index ==> PositionOf(r.value) == Ok(index)
    ensures r.Ok? && index <= 0 ==> PositionOf(r.value) == Ok(index + |Characters|)
    ensures r.Err? ==> r.error == IndexError
  {
    if index > |Characters| then Err(IndexError)
    else if index - 1 >= 0 then
      CharactersAreLetters(index - 1);
      Ok(Characters[index - 1])
    else if index - 1 >= -|Characters| then
      CharactersAreLetters(index - 1 + |Characters|);
      Ok(Characters[index - 1 + |Characters|])
    else Err(IndexError)
  }

  /** The two lookups are inverse to each other over positions 1..26 and
      over the letters. */
  lemma PositionRoundTrip(i: int, c: char)
    ensures 1 <= i <= |Characters| ==>
              CharacterFromIndex(i).Ok? && PositionOf(CharacterFromIndex(i).value) == Ok(i)
    ensures PositionOf(c).Ok? ==> CharacterFromIndex(PositionOf(c).value) == Ok(c)
  {
  }

  /** Finding: index 0 is accepted and yields 'Z', the letter of index 26. */
  lemma CharacterFromIndexAcceptsZero()
    ensures CharacterFromIndex(0) == Ok('Z') == CharacterFromIndex(26)
  {
  }

  /** The lookup evidently intended by the docstring: every index outside
      1..26 is an IndexError. */
  function SymbolAt(index: int): (r: Result<char>)
    ensures r.Ok? <==> 1 <= index <= |Characters|
    ensures r.Ok? ==> PositionOf(r.value) == Ok(index)
    ensures r.Err? ==> r.error == IndexError
  {
    if index < 1 || index > |Characters| then Err(IndexError)
    else
      CharactersAreLetters(index - 1);
      Ok(Characters[index - 1])
  }

  /** SymbolAt is injective where it succeeds, and the exact inverse of
      PositionOf. */
  lemma SymbolAtInverse(i: int, j: int, c: char)
    ensures SymbolAt(i).Ok? && SymbolAt(i) == SymbolAt(j) ==> i == j
    ensures SymbolAt(i).Ok? ==> PositionOf(SymbolAt(i).value) == Ok(i)
    ensures PositionOf(c).Ok? ==> SymbolAt(PositionOf(c).value) == Ok(c)
  {
  }
}
