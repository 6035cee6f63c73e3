/** `clean_text`: lower-case the text, then keep only the alphabet letters. */
module Cleaning {
  import opened Alphabet

  /** The filtering comprehension: the letters of `s`, in their order. */
  function KeepLetters(s: string): (r: string)
    ensures AllLetters(r) && |r| <= |s|
  {
    if s == [] then []
    else (if IsLetter(s[0]) then [s[0]] else []) + KeepLetters(s[1..])
  }

  /** `text.lower()`, with Python's case mapping taken as a parameter that maps
      each character to one character. */
  function Lowered(text: string, lower: char -> char): (r: string)
    ensures |r| == |text| && forall i :: 0 <= i < |text| ==> r[i] == lower(text[i])
  {
    seq(|text|, i requires 0 <= i < |text| => lower(text[i]))
  }

  function CleanText(text: string, lower: char -> char): (r: string)
    ensures AllLetters(r)
  {
    KeepLetters(Lowered(text, lower))
  }

  /** `a` is obtained from `b` by deleting characters. */
  predicate IsSubsequence(a: string, b: string)
  {
    if a == [] then true
    else if b == [] then false
    else if a[0] == b[0] then IsSubsequence(a[1..], b[1..])
    else IsSubsequence(a, b[1..])
  }

  lemma {:induction false} KeepLettersIsSubsequence(s: string)
    ensures IsSubsequence(KeepLetters(s), s)
  {
    if s != [] {
      KeepLettersIsSubsequence(s[1..]);
      if IsLetter(s[0]) {
        assert KeepLetters(s) == [s[0]] + KeepLetters(s[1..]);
        assert KeepLetters(s)[1..] == KeepLetters(s[1..]);
      } else {
        assert KeepLetters(s) == KeepLetters(s[1..]);
        SubsequenceOfLetters(KeepLetters(s), s);
      }
    }
  }

  /** A subsequence made of letters skips a leading non-letter. */
  lemma SubsequenceOfLetters(a: string, b: string)
    requires b != [] && !IsLetter(b[0]) && AllLetters(a) && IsSubsequence(a, b[1..])
    ensures IsSubsequence(a, b)
  {
    if a != [] {
      assert IsLetter(a[0]);
    }
  }

  /** Filtering distributes over concatenation: each letter is kept where it
      stands, each other character is dropped. */
  lemma {:induction false} KeepLettersAppend(a: string, b: string)
    ensures KeepLetters(a + b) == KeepLetters(a) + KeepLetters(b)
  {
    if a == [] {
      assert a + b == b;
    } else {
      assert (a + b)[0] == a[0];
      assert (a + b)[1..] == a[1..] + b;
      KeepLettersAppend(a[1..], b);
      var head := if IsLetter(a[0]) then [a[0]] else [];
      calc {
        KeepLetters(a + b);
        head + KeepLetters(a[1..] + b);
        head + (KeepLetters(a[1..]) + KeepLetters(b));
        (head + KeepLetters(a[1..])) + KeepLetters(b);
        KeepLetters(a) + KeepLetters(b);
      }
    }
  }

  /** A text is left unchanged exactly when it is made only of letters. */
  lemma {:induction false} KeepLettersFixed(s: string)
    ensures KeepLetters(s) == s <==> AllLetters(s)
  {
    if s != [] {
      KeepLettersFixed(s[1..]);
      if !IsLetter(s[0]) {
        assert |KeepLetters(s)| <= |s[1..]| < |s|;
      } else if KeepLetters(s) == s {
        assert KeepLetters(s[1..]) == KeepLetters(s)[1..];
      }
    }
  }

  /** Every letter occurs as often in the output as in the input; no other
      character occurs in the output. */
  lemma {:induction false} KeepLettersCounts(s: string, c: char)
    ensures multiset(KeepLetters(s))[c] == if IsLetter(c) then multiset(s)[c] else 0
  {
    if s != [] {
      KeepLettersCounts(s[1..], c);
      assert s == [s[0]] + s[1..];
      assert multiset(s) == multiset([s[0]]) + multiset(s[1..]);
    }
  }

  /** Cleaning twice is cleaning once, given that lower-casing leaves the
      (lower-case) letters of the alphabet unchanged. */
  lemma CleanTextIdempotent(text: string, lower: char -> char)
    requires forall c :: IsLetter(c) ==> lower(c) == c
    ensures CleanText(CleanText(text, lower), lower) == CleanText(text, lower)
  {
    var once := CleanText(text, lower);
    assert Lowered(once, lower) == once;
    KeepLettersFixed(once);
  }
}
