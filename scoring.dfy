/** `fitness(text)`: the average logarithmic frequency of the quadgrams of a
    text, with a fixed penalty for quadgrams the table does not know. */
module Scoring {
  import opened Outcomes
  import opened Alphabet
  import opened Quadgrams

  /** A float score: the only non-finite value the source produces is
      `float('-inf')`. */
  datatype Score = NegInf | Finite(value: real)

  /** Python's `a > b` on scores: -inf is above nothing and below every
      finite value. */
  predicate Above(a: Score, b: Score)
  {
    match a
    case NegInf => false
    case Finite(x) => b.NegInf? || x > b.value
  }

  /** Python's `a < t` for a score and a finite threshold. */
  predicate Below(a: Score, t: real)
  {
    a.NegInf? || a.value < t
  }

  /** The quadgram frequency table TETRAFREQUENCIES, indexed by quadgram
      number, and the natural logarithm `log`, whose values are not modelled. */
  datatype QuadModel = QuadModel(freq: seq<real>, log: real -> real)

  /** The table has one entry per quadgram, as the table builder makes it. */
  predicate Valid(m: QuadModel)
  {
    |m.freq| == QuadSpace
  }

  /** What an unknown quadgram adds to `result`. */
  const Penalty: real := -1000.0

  /** What quadgram `i` adds to `result`: the penalty when one of its
      characters is outside the alphabet (the KeyError path) or its
      frequency is 0, otherwise the logarithm of its frequency. */
  function Contribution(m: QuadModel, text: string, i: nat): real
    requires Valid(m) && i + 4 <= |text|
  {
    match QuadgramAt(text, i)
    case None => Penalty
    case Some(x) => if m.freq[x] == 0.0 then Penalty else m.log(m.freq[x])
  }

  /** The contribution in terms of the four characters: the penalty exactly
      for unknown quadgrams, the logarithm of the table entry otherwise. */
  lemma ContributionCases(m: QuadModel, text: string, i: nat)
    requires Valid(m) && i + 4 <= |text|
    ensures Unknown(m, text, i) ==> Contribution(m, text, i) == Penalty
    ensures !Unknown(m, text, i) ==>
              var y := m.freq[QuadIndex(Idx(text[i]), Idx(text[i + 1]), Idx(text[i + 2]), Idx(text[i + 3]))];
              y != 0.0 && Contribution(m, text, i) == m.log(y)
  {
    assert text[i..i + 4] == [text[i], text[i + 1], text[i + 2], text[i + 3]];
  }

  /** `result` after the first `n` quadgrams. */
  function Total(m: QuadModel, text: string, n: nat): real
    requires Valid(m) && n + 3 <= |text|
  {
    if n == 0 then 0.0 else Total(m, text, n - 1) + Contribution(m, text, n - 1)
  }

  /** What `fitness(text)` returns: -inf for fewer than 4 characters, the
      total over the `n - 3` quadgrams divided by their number otherwise. */
  function FitnessOf(m: QuadModel, text: string): (s: Score)
    requires Valid(m)
    ensures s.NegInf? <==> |text| < 4
  {
    if |text| < 4 then NegInf else Finite(Total(m, text, |text| - 3) / (|text| - 3) as real)
  }

  /** The source's loop over the quadgrams. */
  method Fitness(m: QuadModel, text: string) returns (s: Score)
    requires Valid(m)
    ensures s == FitnessOf(m, text)
  {
    if |text| < 4 {
      return NegInf;
    }
    var result := 0.0;
    for i := 0 to |text| - 3
      invariant result == Total(m, text, i)
    {
      var a, b, c, d := Index(text[i]), Index(text[i + 1]), Index(text[i + 2]), Index(text[i + 3]);
      var y: real;
      if a.Some? && b.Some? && c.Some? && d.Some? {
        y := m.freq[QuadIndex(a.value, b.value, c.value, d.value)];
      } else {
        y := 0.0;
      }
      if y == 0.0 {
        result := result + Penalty;
      } else {
        result := result + m.log(y);
      }
    }
    s := Finite(result / (|text| - 3) as real);
  }

  /** `n * x`, by repeated addition. */
  function Times(n: nat, x: real): real
  {
    if n == 0 then 0.0 else Times(n - 1, x) + x
  }

  lemma {:induction false} TimesIsProduct(n: nat, x: real)
    ensures Times(n, x) == n as real * x
  {
    if n > 0 {
      TimesIsProduct(n - 1, x);
    }
  }

  /** Bounds on every contribution bound the running total. */
  lemma {:induction false} TotalBounds(m: QuadModel, text: string, n: nat, lo: real, hi: real)
    requires Valid(m) && n + 3 <= |text|
    requires forall i :: 0 <= i < n ==> lo <= Contribution(m, text, i) <= hi
    ensures Times(n, lo) <= Total(m, text, n) <= Times(n, hi)
  {
    if n > 0 {
      TotalBounds(m, text, n - 1, lo, hi);
      assert lo <= Contribution(m, text, n - 1) <= hi;
    }
  }

  /** The score of a text of at least 4 characters is an average: it lies
      between the least and the greatest contribution. */
  lemma FitnessBounds(m: QuadModel, text: string, lo: real, hi: real)
    requires Valid(m) && |text| >= 4
    requires forall i :: 0 <= i < |text| - 3 ==> lo <= Contribution(m, text, i) <= hi
    ensures lo <= FitnessOf(m, text).value <= hi
  {
    var n := |text| - 3;
    TotalBounds(m, text, n, lo, hi);
    DivideBounds(Total(m, text, n), n, lo, hi);
  }

  lemma DivideBounds(t: real, n: nat, lo: real, hi: real)
    requires n > 0 && Times(n, lo) <= t <= Times(n, hi)
    ensures lo <= t / n as real <= hi
  {
    TimesIsProduct(n, lo);
    TimesIsProduct(n, hi);
    var q := t / n as real;
    assert q * n as real == t;
    MulCancel(lo, q, n as real);
    MulCancel(q, hi, n as real);
  }

  lemma MulCancel(a: real, b: real, n: real)
    requires n > 0.0 && a * n <= b * n
    ensures a <= b
  {
  }

  /** Whether quadgram `i` is penalised: a character outside the alphabet, or
      a quadgram whose frequency is 0. */
  predicate Unknown(m: QuadModel, text: string, i: nat)
    requires Valid(m) && i + 4 <= |text|
  {
    !AllLetters(text[i..i + 4]) ||
    m.freq[QuadIndex(Idx(text[i]), Idx(text[i + 1]), Idx(text[i + 2]), Idx(text[i + 3]))] == 0.0
  }

  /** A text whose every quadgram is unknown scores exactly the penalty; in
      particular so does a 4-character text with an unknown quadgram. */
  lemma AllUnknown(m: QuadModel, text: string)
    requires Valid(m) && |text| >= 4
    requires forall i :: 0 <= i < |text| - 3 ==> Unknown(m, text, i)
    ensures FitnessOf(m, text) == Finite(Penalty)
  {
    forall i | 0 <= i < |text| - 3 ensures Contribution(m, text, i) == Penalty {
      ContributionCases(m, text, i);
    }
    FitnessBounds(m, text, Penalty, Penalty);
  }
}
