/** The fixed 29-letter Swedish alphabet "a".."z", "å", "ä", "ö", and the
    bijection between its letters and the indices 0..28. */
module Alphabet {
  import opened Outcomes

  const Size: nat := 29

  /** An alphabet index. */
  type Sym = i: int | 0 <= i < 29

  /** Whether `c` is one of the 29 letters. */
  predicate IsLetter(c: char)
  {
    'a' <= c <= 'z' || c == 'å' || c == 'ä' || c == 'ö'
  }

  /** The alphabet as a string, ALPHABET of the source. */
  const Letters: string := "abcdefghijklmnopqrstuvwxyzåäö"

  /** The letter of index `i`, `ALPHABET[i]`: "a".."z" are consecutive
      code points. */
  function Symbol(i: Sym): (c: char)
    ensures IsLetter(c)
  {
    if i < 26 then ('a' as int + i) as char
    else if i == 26 then 'å'
    else if i == 27 then 'ä'
    else 'ö'
  }

  lemma SymbolIsAlphabetLetter()
    ensures forall j :: 0 <= j < 29 ==> Letters[j] == Symbol(j)
  {
  }

  /** `ALPHABET.index(c)`, or None where the source raises ValueError. */
  function Index(c: char): (r: Option<Sym>)
    ensures r.Some? <==> IsLetter(c)
    ensures r.Some? ==> Symbol(r.value) == c
  {
    if 'a' <= c <= 'z' then Some(c as int - 'a' as int)
    else if c == 'å' then Some(26)
    else if c == 'ä' then Some(27)
    else if c == 'ö' then Some(28)
    else None
  }

  /** Index finds the first occurrence of a letter, as `str.index` does, and
      fails exactly on the characters that are not in the alphabet. */
  lemma IndexIsStrIndex(c: char)
    ensures Index(c).Some? ==> forall j :: 0 <= j < Index(c).value ==> Letters[j] != c
    ensures Index(c).None? <==> c !in Letters
  {
    SymbolIsAlphabetLetter();
  }

  /** The index of a letter. */
  function Idx(c: char): (i: Sym)
    requires IsLetter(c)
    ensures Symbol(i) == c
  {
    Index(c).value
  }

  predicate AllLetters(s: string)
  {
    forall i :: 0 <= i < |s| ==> IsLetter(s[i])
  }

  /** Index and Symbol are inverse: the mapping is a bijection. */
  lemma IndexOfSymbol(i: Sym)
    ensures Index(Symbol(i)) == Some(i) && Idx(Symbol(i)) == i
  {
  }

  lemma SymbolInjective(i: Sym, j: Sym)
    ensures Symbol(i) == Symbol(j) ==> i == j
  {
    IndexOfSymbol(i);
    IndexOfSymbol(j);
  }

  /** The letters of a sequence of indices. */
  function Spell(s: seq<Sym>): (r: string)
    ensures |r| == |s| && AllLetters(r)
    ensures forall i :: 0 <= i < |s| ==> Index(r[i]) == Some(s[i])
  {
    seq(|s|, i requires 0 <= i < |s| => Symbol(s[i]))
  }

  /** The indices of a string of letters, `[ALPHABET.index(c) for c in s]`;
      spelling them gives the string back. */
  function Indices(s: string): (r: seq<Sym>)
    requires AllLetters(s)
    ensures Spell(r) == s
  {
    seq(|s|, i requires 0 <= i < |s| => Idx(s[i]))
  }

  /** The position of the first character outside the alphabet. */
  function FirstNonLetter(s: string): (k: nat)
    requires !AllLetters(s)
    ensures k < |s| && !IsLetter(s[k])
    ensures forall i :: 0 <= i < k ==> IsLetter(s[i])
  {
    FirstNonLetterFrom(s, 0)
  }

  function FirstNonLetterFrom(s: string, from: nat): (k: nat)
    requires from <= |s|
    requires forall i :: 0 <= i < from ==> IsLetter(s[i])
    requires !AllLetters(s)
    ensures from <= k < |s| && !IsLetter(s[k])
    ensures forall i :: 0 <= i < k ==> IsLetter(s[i])
    decreases |s| - from
  {
    if !IsLetter(s[from]) then from else FirstNonLetterFrom(s, from + 1)
  }

  /** The first non-letter is determined by its two properties. */
  lemma FirstNonLetterUnique(s: string, k: nat)
    requires k < |s| && !IsLetter(s[k])
    requires forall i :: 0 <= i < k ==> IsLetter(s[i])
    ensures FirstNonLetter(s) == k
  {
  }
}
