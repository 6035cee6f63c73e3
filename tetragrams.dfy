/** `tetrafrequencies(text)`: the relative frequency of every quadgram of a
    text, the table that the fitness score looks up. */
module Tetragrams {
  import opened Outcomes
  import opened Alphabet
  import opened Quadgrams
  import opened Scoring
  import opened Tallies

  function SumReal(s: seq<real>): real
  {
    if s == [] then 0.0 else SumReal(s[..|s| - 1]) + s[|s| - 1]
  }

  /** The number of positions `i < n` whose quadgram has number `x`. */
  function Occurrences(text: string, x: nat, n: nat): nat
    requires n == 0 || n + 3 <= |text|
  {
    if n == 0 then 0
    else Occurrences(text, x, n - 1) + (if QuadgramAt(text, n - 1) == Some(x) then 1 else 0)
  }

  /** The count table after the first `n` positions. */
  function RawCounts(text: string, n: nat): (r: seq<nat>)
    requires n == 0 || n + 3 <= |text|
    ensures |r| == QuadSpace
  {
    if n == 0 then Zeros(QuadSpace)
    else
      var r := RawCounts(text, n - 1);
      match QuadgramAt(text, n - 1)
      case None => r
      case Some(x) => r[x := r[x] + 1]
  }

  /** `[count / total for count in counts]`. */
  function Normalise(counts: seq<nat>, total: nat): (r: seq<real>)
    requires total > 0
    ensures |r| == |counts|
  {
    seq(|counts|, y requires 0 <= y < |counts| => counts[y] as real / total as real)
  }

  /** The integer table, unnormalised, as numbers. */
  function AsReals(counts: seq<nat>): (r: seq<real>)
    ensures |r| == |counts|
  {
    seq(|counts|, y requires 0 <= y < |counts| => counts[y] as real)
  }

  /** What `tetrafrequencies(text)` returns or raises: all zeros for fewer
      than 4 characters, the first character outside the alphabet raises,
      otherwise every count divided by the number of quadgrams. */
  function TetraTable(text: string): (r: Result<seq<real>>)
    ensures r.Ok? <==> |text| < 4 || AllLetters(text)
    ensures r.Ok? ==> |r.value| == QuadSpace
    ensures |text| < 4 ==> forall x :: 0 <= x < QuadSpace ==> r.value[x] == 0.0
  {
    if |text| < 4 then Ok(AsReals(Zeros(QuadSpace)))
    else if !AllLetters(text) then Err(NotInAlphabet(text[FirstNonLetter(text)]))
    else Ok(Normalise(RawCounts(text, |text| - 3), |text| - 3))
  }

  /** The number `x` of the quadgram at position `i`, as the loop body
      computes it: the four `ALPHABET.index` calls from left to right, the
      first character outside the alphabet raising. */
  method QuadgramNumber(text: string, i: nat) returns (r: Result<nat>)
    requires i + 4 <= |text|
    ensures r.Ok? <==> AllLetters(text[i..i + 4])
    ensures r.Ok? ==> QuadgramAt(text, i) == Some(r.value)
    ensures r.Err? ==> r.error == NotInAlphabet(text[i + FirstNonLetter(text[i..i + 4])])
  {
    var q := text[i..i + 4];
    assert q == [text[i], text[i + 1], text[i + 2], text[i + 3]];
    var a := Index(text[i]);
    if a.None? {
      FirstNonLetterUnique(q, 0);
      return Err(NotInAlphabet(text[i]));
    }
    var b := Index(text[i + 1]);
    if b.None? {
      FirstNonLetterUnique(q, 1);
      return Err(NotInAlphabet(text[i + 1]));
    }
    var c := Index(text[i + 2]);
    if c.None? {
      FirstNonLetterUnique(q, 2);
      return Err(NotInAlphabet(text[i + 2]));
    }
    var d := Index(text[i + 3]);
    if d.None? {
      FirstNonLetterUnique(q, 3);
      return Err(NotInAlphabet(text[i + 3]));
    }
    r := Ok(QuadIndex(a.value, b.value, c.value, d.value));
  }

  /** The source's function: counts in place, then normalises. */
  method Tetrafrequencies(text: string) returns (r: Result<seq<real>>)
    ensures r == TetraTable(text)
  {
    var tetraFreq := new nat[QuadSpace](_ => 0);
    assert tetraFreq[..] == RawCounts(text, 0);
    if |text| > 3 {
      var e := CountQuadgrams(text, tetraFreq);
      if e.Some? {
        return Err(e.value);
      }
    }
    var total := |text| - 3;
    if total > 0 {
      r := Ok(Normalise(tetraFreq[..], total));
    } else {
      r := Ok(AsReals(tetraFreq[..]));
    }
  }

  /** The counting loop of `tetrafrequencies`: one increment per quadgram,
      raising at the first character outside the alphabet. */
  method CountQuadgrams(text: string, tetraFreq: array<nat>) returns (e: Option<Error>)
    requires |text| > 3 && tetraFreq[..] == RawCounts(text, 0)
    modifies tetraFreq
    ensures e.None? ==> AllLetters(text) && tetraFreq[..] == RawCounts(text, |text| - 3)
    ensures e.Some? ==> TetraTable(text) == Err(e.value)
  {
    for i := 0 to |text| - 3
      invariant tetraFreq[..] == RawCounts(text, i)
      invariant i > 0 ==> AllLetters(text[..i + 3])
    {
      var x := QuadgramNumber(text, i);
      if x.Err? {
        TableError(text, i);
        return Some(x.error);
      }
      LettersJoin(text, i);
      tetraFreq[x.value] := tetraFreq[x.value] + 1;
    }
    assert text[..|text|] == text;
    e := None;
  }

  /** The first quadgram with a character outside the alphabet raises for the
      first such character of the whole text. */
  lemma TableError(text: string, i: nat)
    requires i + 4 <= |text| && !AllLetters(text[i..i + 4])
    requires i > 0 ==> AllLetters(text[..i + 3])
    ensures TetraTable(text) == Err(NotInAlphabet(text[i + FirstNonLetter(text[i..i + 4])]))
  {
    var q := text[i..i + 4];
    var k := i + FirstNonLetter(q);
    assert q[k - i] == text[k];
    forall j | 0 <= j < k ensures IsLetter(text[j]) {
      if j < i {
        assert text[..i + 3][j] == text[j];
      } else {
        assert q[j - i] == text[j];
      }
    }
    FirstNonLetterUnique(text, k);
  }

  /** A counted quadgram extends the stretch of letters by one. */
  lemma LettersJoin(text: string, i: nat)
    requires i + 4 <= |text| && AllLetters(text[i..i + 4])
    requires i > 0 ==> AllLetters(text[..i + 3])
    ensures AllLetters(text[..i + 4])
  {
    var p := text[..i + 4];
    forall j | 0 <= j < i + 4 ensures IsLetter(p[j]) {
      if j < i {
        assert text[..i + 3][j] == text[j];
      } else {
        assert text[i..i + 4][j - i] == text[j];
      }
    }
  }

  /** Entry `x` of the raw table is the number of positions whose quadgram
      has number `x`. */
  lemma {:induction false} RawCountsOccurrences(text: string, n: nat, x: nat)
    requires n + 3 <= |text| && x < QuadSpace
    ensures RawCounts(text, n)[x] == Occurrences(text, x, n)
  {
    if n > 0 {
      RawCountsOccurrences(text, n - 1, x);
    }
  }

  /** Over letters, every position is counted once: the raw counts sum to
      the number of positions. */
  lemma {:induction false} RawCountsSum(text: string, n: nat)
    requires n + 3 <= |text| && AllLetters(text)
    ensures Sum(RawCounts(text, n)) == n
  {
    if n == 0 {
      SumZeros(QuadSpace);
    } else {
      RawCountsSum(text, n - 1);
      LettersQuadgram(text, n - 1);
      var x := QuadgramAt(text, n - 1).value;
      SumIncrement(RawCounts(text, n - 1), x);
    }
  }

  lemma {:induction false} SumNormalise(c: seq<nat>, total: nat)
    requires total > 0
    ensures SumReal(Normalise(c, total)) == Sum(c) as real / total as real
    decreases |c|
  {
    if c != [] {
      var n := |c| - 1;
      assert Normalise(c, total)[..n] == Normalise(c[..n], total);
      SumNormalise(c[..n], total);
      AddDivide(Sum(c[..n]) as real, c[n] as real, total as real);
    }
  }

  lemma AddDivide(a: real, b: real, t: real)
    requires t > 0.0
    ensures a / t + b / t == (a + b) / t
  {
  }

  /** For a text of at least 4 letters, entry `x` is the relative frequency
      of quadgram `x`: its number of occurrences over the number of
      quadgrams. */
  lemma TableFrequencies(text: string)
    requires |text| >= 4 && TetraTable(text).Ok?
    ensures var t, n := TetraTable(text).value, |text| - 3;
      forall x :: 0 <= x < QuadSpace ==> t[x] == Occurrences(text, x, n) as real / n as real
  {
    var n := |text| - 3;
    var t := TetraTable(text).value;
    forall x | 0 <= x < QuadSpace ensures t[x] == Occurrences(text, x, n) as real / n as real {
      RawCountsOccurrences(text, n, x);
    }
  }

  /** For a text of at least 4 letters, the entries sum to 1. */
  lemma TableSumsToOne(text: string)
    requires |text| >= 4 && TetraTable(text).Ok?
    ensures SumReal(TetraTable(text).value) == 1.0
  {
    var n := |text| - 3;
    var c := RawCounts(text, n);
    assert TetraTable(text).value == Normalise(c, n);
    RawCountsSum(text, n);
    SumNormalise(c, n);
    SelfQuotient(n as real);
  }

  lemma SelfQuotient(a: real)
    requires a > 0.0
    ensures a / a == 1.0
  {
  }

  /** A quadgram that occurs at position `i < n` is counted. */
  lemma {:induction false} OccurrencesPositive(text: string, x: nat, n: nat, i: nat)
    requires n + 3 <= |text| && i < n && QuadgramAt(text, i) == Some(x)
    ensures Occurrences(text, x, n) > 0
  {
    if i < n - 1 {
      OccurrencesPositive(text, x, n - 1, i);
    }
  }

  /** The table and the fitness score use the same quadgram numbers: scored
      against its own table, every quadgram of a text is known and adds the
      logarithm of its relative frequency. */
  lemma ReadBack(text: string, log: real -> real, i: nat)
    requires |text| >= 4 && TetraTable(text).Ok? && i + 4 <= |text|
    ensures QuadgramAt(text, i).Some?
    ensures var t, n, x := TetraTable(text).value, |text| - 3, QuadgramAt(text, i).value;
      t[x] == Occurrences(text, x, n) as real / n as real && t[x] > 0.0 &&
      Contribution(QuadModel(t, log), text, i) == log(t[x])
  {
    var n := |text| - 3;
    var t := TetraTable(text).value;
    LettersQuadgram(text, i);
    var x := QuadgramAt(text, i).value;
    var k := Occurrences(text, x, n);
    TableEntry(text, x);
    OccurrencesPositive(text, x, n, i);
    PositiveQuotient(k as real, n as real);
    KnownContribution(QuadModel(t, log), text, i, x);
  }

  /** Entry `x` of the table of a text of letters. */
  lemma TableEntry(text: string, x: nat)
    requires |text| >= 4 && AllLetters(text) && x < QuadSpace
    ensures TetraTable(text).value[x] == Occurrences(text, x, |text| - 3) as real / (|text| - 3) as real
  {
    RawCountsOccurrences(text, |text| - 3, x);
  }

  lemma KnownContribution(m: QuadModel, text: string, i: nat, x: nat)
    requires Valid(m) && i + 4 <= |text| && QuadgramAt(text, i) == Some(x) && m.freq[x] != 0.0
    ensures Contribution(m, text, i) == m.log(m.freq[x])
  {
  }

  /** Every quadgram of a string of letters has a number. */
  lemma LettersQuadgram(text: string, i: nat)
    requires AllLetters(text) && i + 4 <= |text|
    ensures QuadgramAt(text, i).Some?
  {
    assert text[i..i + 4] == [text[i], text[i + 1], text[i + 2], text[i + 3]];
  }

  lemma PositiveQuotient(a: real, b: real)
    requires a > 0.0 && b > 0.0
    ensures a / b > 0.0
  {
  }
}
