/** The alphabet of encodable characters: a fixed string whose k-th character
    has index k. */
module Alphabets {
  import opened Results
  import Seqs

  datatype Alphabet = Alphabet(chars: string) {

    /** Number of characters in the alphabet string. */
    function Size(): (n: nat)
      ensures n == |chars|
    {
      |chars|
    }

    /** The set of characters the alphabet contains. */
    function Characters(): set<char> {
      set ch | ch in chars
    }

    /** Whether `ch` is one of the alphabet's characters. */
    function Contains(ch: char): (b: bool)
      ensures b <==> exists i :: 0 <= i < |chars| && chars[i] == ch
    {
      ch in chars
    }

    /** Character number `index`; the caller guarantees the range. */
    function ToChar(index: int): (ch: char)
      requires 0 <= index < Size()
      ensures Contains(ch)
      ensures chars[index] == ch
    {
      chars[index]
    }

    /** The index of the first position holding `ch`; fails when `ch` is not
        in the alphabet. */
    function ToInt(ch: char): (r: Result<int>)
      ensures r.Ok? <==> Contains(ch)
      ensures r.Ok? ==> 0 <= r.value < Size() && chars[r.value] == ch && ch !in chars[..r.value]
      ensures r.Err? ==> r.error == UnknownChar(ch)
    {
      var index := Seqs.IndexOf(chars, ch);
      if index == -1 then Err(UnknownChar(ch)) else Ok(index)
    }

    /** No character is listed twice (the constructor's documented, but
        unchecked, demand on its argument). */
    predicate NoDuplicates() {
      Seqs.Distinct(chars)
    }

    /** The position of the first character of `s` that is not in the
        alphabet, or |s| when every character is. */
    function FirstAbsent(s: string): (j: nat)
      ensures j <= |s|
      ensures forall i | 0 <= i < j :: Contains(s[i])
      ensures j < |s| ==> !Contains(s[j])
    {
      if |s| == 0 then 0
      else if !Contains(s[0]) then 0
      else 1 + FirstAbsent(s[1..])
    }
  }

  /** On an alphabet without repeated characters, size() is the number of
      different characters it contains. */
  lemma {:induction false} SizeCountsCharacters(a: Alphabet)
    requires a.NoDuplicates()
    ensures a.Size() == |a.Characters()|
  {
    Seqs.DistinctCard(a.chars);
  }

  /** The default alphabet: the 26 upper-case letters in order. */
  function Upper(): (a: Alphabet)
    ensures a.Size() == 26
    ensures forall i | 0 <= i < 26 :: a.chars[i] as int == 'A' as int + i
  {
    Alphabet("ABCDEFGHIJKLMNOPQRSTUVWXYZ")
  }

  /** The default alphabet has no repeated letter, and it contains exactly
      the characters from 'A' to 'Z'. */
  lemma {:induction false} UpperIsLetters(ch: char)
    ensures Upper().NoDuplicates()
    ensures Upper().Contains(ch) <==> 'A' <= ch <= 'Z'
  {
    var a := Upper();
    if 'A' <= ch <= 'Z' {
      var i := ch as int - 'A' as int;
      assert a.chars[i] as int == ch as int;
    }
  }

  /** toChar undoes toInt on every character of the alphabet. */
  lemma {:induction false} ToCharOfToInt(a: Alphabet, ch: char)
    requires a.Contains(ch)
    ensures a.ToInt(ch).Ok? && a.ToChar(a.ToInt(ch).value) == ch
  {
  }

  /** toInt undoes toChar on every index, provided no character is
      repeated. */
  lemma {:induction false} ToIntOfToChar(a: Alphabet, i: int)
    requires a.NoDuplicates() && 0 <= i < a.Size()
    ensures a.ToInt(a.ToChar(i)) == Ok(i)
  {
    Seqs.IndexOfDistinct(a.chars, i);
  }

  /** With a repeated character toInt no longer undoes toChar: in "ABA",
      toChar(2) is 'A' and toInt('A') is 0. */
  lemma {:induction false} RepeatedCharacterBreaksToInt()
    ensures Alphabet("ABA").ToInt(Alphabet("ABA").ToChar(2)) == Ok(0)
  {
    var a := Alphabet("ABA");
    assert a.chars[0] == 'A';
  }
}
