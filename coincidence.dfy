/** `index_of_coincidence(text)`: how often two letters drawn from the text
    agree, scaled by the alphabet size so that random text scores about 1. */
module Coincidence {
  import opened Outcomes
  import opened Alphabet
  import opened Tallies

  /** The number of positions of `s` holding `c`. */
  function Occurrences(s: string, c: char): nat
  {
    if s == [] then 0 else Occurrences(s[..|s| - 1], c) + (if s[|s| - 1] == c then 1 else 0)
  }

  /** `counts` after the loop over a string of letters. */
  function LetterCounts(s: string): (r: seq<nat>)
    requires AllLetters(s)
    ensures |r| == 29
  {
    if s == [] then Zeros(29)
    else
      var r := LetterCounts(s[..|s| - 1]);
      var a := Idx(s[|s| - 1]);
      r[a := r[a] + 1]
  }

  /** `sum(c * (c - 1) for c in counts)`, the number of ordered pairs of
      distinct positions holding the same letter. */
  function Pairs(counts: seq<nat>): nat
  {
    if counts == [] then 0 else Pairs(counts[..|counts| - 1]) + PairsOf(counts[|counts| - 1])
  }

  /** `c * (c - 1)`. */
  function PairsOf(c: nat): nat
  {
    if c == 0 then 0 else c * (c - 1)
  }

  /** What `index_of_coincidence(text)` returns or raises: the first
      character outside the alphabet raises, and so does the division when
      the text has fewer than 2 letters. */
  function IndexOfCoincidenceOf(text: string): Result<real>
  {
    if !AllLetters(text) then Err(NotInAlphabet(text[FirstNonLetter(text)]))
    else Statistic(LetterCounts(text))
  }

  /** The statistic of a table of counts. */
  function Statistic(counts: seq<nat>): Result<real>
  {
    Ratio(Pairs(counts), Sum(counts))
  }

  /** `29 * freq / (total * (total - 1))`, raising when the divisor is 0. */
  function Ratio(freq: int, total: int): Result<real>
  {
    var denominator := total * (total - 1);
    if denominator == 0 then Err(ZeroDivision) else Ok((29 * freq) as real / denominator as real)
  }

  /** The source's function: counts in place, then sums over the alphabet. */
  method IndexOfCoincidence(text: string) returns (r: Result<real>)
    ensures r == IndexOfCoincidenceOf(text)
  {
    var counts := new nat[29](_ => 0);
    assert counts[..] == Zeros(29);
    for i := 0 to |text|
      invariant AllLetters(text[..i])
      invariant counts[..] == LetterCounts(text[..i])
    {
      var a := Index(text[i]);
      if a.None? {
        FirstNonLetterUnique(text, i);
        assert IndexOfCoincidenceOf(text) == Err(NotInAlphabet(text[i]));
        return Err(NotInAlphabet(text[i]));
      }
      assert text[..i + 1][..i] == text[..i];
      counts[a.value] := counts[a.value] + 1;
    }
    assert text[..|text|] == text;
    ghost var tally := counts[..];
    assert tally == LetterCounts(text);
    var freq: int := 0;
    var total: int := 0;
    for i := 0 to 29
      invariant counts[..] == tally
      invariant freq == Pairs(tally[..i]) && total == Sum(tally[..i])
    {
      assert tally[..i + 1][..i] == tally[..i];
      var c: int := counts[i];
      PairsOfProduct(counts[i]);
      freq := freq + c * (c - 1);
      total := total + counts[i];
    }
    assert tally[..29] == tally;
    assert IndexOfCoincidenceOf(text) == Statistic(tally) == Ratio(freq, total);
    r := Ratio(freq, total);
  }

  lemma PairsOfProduct(c: nat)
    ensures c * (c - 1) == PairsOf(c)
  {
  }

  /** Entry `a` of the table counts the occurrences of letter `a`, and the
      counts sum to the length of the text. */
  lemma {:induction false} LetterCountsMeaning(s: string)
    requires AllLetters(s)
    ensures forall a: Sym :: LetterCounts(s)[a] == Occurrences(s, Symbol(a))
    ensures Sum(LetterCounts(s)) == |s|
  {
    if s == [] {
      SumZeros(29);
    } else {
      var s' := s[..|s| - 1];
      LetterCountsMeaning(s');
      var a := Idx(s[|s| - 1]);
      SumIncrement(LetterCounts(s'), a);
      forall b: Sym ensures LetterCounts(s)[b] == Occurrences(s, Symbol(b)) {
        SymbolInjective(a, b);
      }
    }
  }

  /** The source raises exactly for a character outside the alphabet or a
      text of fewer than 2 letters. */
  lemma IndexOfCoincidenceErrors(text: string)
    ensures IndexOfCoincidenceOf(text).Err? <==> !AllLetters(text) || |text| < 2
    ensures AllLetters(text) && |text| < 2 ==> IndexOfCoincidenceOf(text) == Err(ZeroDivision)
    ensures AllLetters(text) && |text| >= 2 ==>
              IndexOfCoincidenceOf(text) ==
              Ok((29 * Pairs(LetterCounts(text))) as real / (|text| * (|text| - 1)) as real)
  {
    if AllLetters(text) {
      LetterCountsMeaning(text);
      ProductZero(|text|);
    }
  }

  lemma ProductZero(n: nat)
    ensures n * (n - 1) == 0 <==> n < 2
  {
    if n >= 2 {
      assert n * (n - 1) >= 2 * (n - 1);
    }
  }

  /** A text of one letter repeated: every entry but one is 0. */
  lemma {:induction false} RepeatedCounts(s: string, a: Sym)
    requires forall i :: 0 <= i < |s| ==> s[i] == Symbol(a)
    ensures AllLetters(s) && LetterCounts(s) == Zeros(29)[a := |s|]
  {
    if s != [] {
      var s' := s[..|s| - 1];
      RepeatedCounts(s', a);
      IndexOfSymbol(a);
    }
  }

  lemma {:induction false} PairsOfOne(counts: seq<nat>, a: nat)
    requires a < |counts| && forall b :: 0 <= b < |counts| && b != a ==> counts[b] == 0
    ensures Pairs(counts) == PairsOf(counts[a])
  {
    var n := |counts| - 1;
    if n > 0 && a < n {
      PairsOfOne(counts[..n], a);
    } else if n > 0 {
      PairsOfNone(counts[..n]);
    }
  }

  lemma {:induction false} PairsOfNone(counts: seq<nat>)
    requires forall b :: 0 <= b < |counts| ==> counts[b] <= 1
    ensures Pairs(counts) == 0
  {
    if counts != [] {
      PairsOfNone(counts[..|counts| - 1]);
    }
  }

  /** One letter repeated at least twice gives exactly 29. */
  lemma RepeatedLetter(s: string, a: Sym)
    requires |s| >= 2 && forall i :: 0 <= i < |s| ==> s[i] == Symbol(a)
    ensures IndexOfCoincidenceOf(s) == Ok(29.0)
  {
    RepeatedCounts(s, a);
    PairsOfOne(LetterCounts(s), a);
    IndexOfCoincidenceErrors(s);
    var n := |s|;
    ScaledQuotient(29.0, (n * (n - 1)) as real);
  }

  lemma ScaledQuotient(k: real, d: real)
    requires d > 0.0
    ensures (k * d) / d == k
  {
  }

  /** A letter absent from the text has count 0. */
  lemma {:induction false} AbsentCount(s: string, a: Sym)
    requires AllLetters(s) && forall i :: 0 <= i < |s| ==> s[i] != Symbol(a)
    ensures LetterCounts(s)[a] == 0
  {
    if s != [] {
      AbsentCount(s[..|s| - 1], a);
    }
  }

  /** Pairwise distinct letters have counts of at most 1. */
  lemma {:induction false} DistinctCounts(s: string)
    requires AllLetters(s) && forall i, j :: 0 <= i < j < |s| ==> s[i] != s[j]
    ensures forall a :: 0 <= a < 29 ==> LetterCounts(s)[a] <= 1
  {
    if s != [] {
      var n := |s| - 1;
      var s' := s[..n];
      DistinctCounts(s');
      var a := Idx(s[n]);
      AbsentCount(s', a);
    }
  }

  /** A text of at least 2 pairwise distinct letters gives 0; in particular
      so does a text holding each of the 29 letters exactly once. */
  lemma DistinctLetters(s: string)
    requires |s| >= 2 && AllLetters(s) && forall i, j :: 0 <= i < j < |s| ==> s[i] != s[j]
    ensures IndexOfCoincidenceOf(s) == Ok(0.0)
  {
    DistinctCounts(s);
    PairsOfNone(LetterCounts(s));
    IndexOfCoincidenceErrors(s);
  }
}
