/** `find_key_length(text)`: the least period whose slices look like natural
    text, judged by their average index of coincidence. */
module KeyLength {
  import opened Outcomes
  import opened Alphabet
  import opened Tallies
  import opened Coincidence

  /** `[''] * p`. */
  function Empties(p: nat): (r: seq<string>)
    ensures |r| == p && forall j :: 0 <= j < p ==> r[j] == []
  {
    seq(p, _ => [])
  }

  /** `slices` after the loop over `t` with period `p`: character `i` is
      appended to slice `i mod p`. */
  function Slices(t: string, p: nat): (r: seq<string>)
    requires p > 0
    ensures |r| == p
  {
    if t == [] then Empties(p)
    else
      var n := |t| - 1;
      var r := Slices(t[..n], p);
      r[n % p := r[n % p] + [t[n]]]
  }

  /** Slice `j` holds exactly the characters at positions `j`, `j + p`,
      `j + 2p`, ... below `|t|`, in order: element `m` is `t[j + m * p]`, and
      the next such position is past the end. */
  lemma {:induction false} SliceContents(t: string, p: nat, j: nat)
    requires j < p
    ensures var s := Slices(t, p)[j];
      (forall m :: 0 <= m < |s| ==> j + m * p < |t| && s[m] == t[j + m * p]) &&
      j + |s| * p >= |t|
    decreases |t|
  {
    if t != [] {
      var n := |t| - 1;
      var t' := t[..n];
      SliceContents(t', p, j);
      var s', s := Slices(t', p)[j], Slices(t, p)[j];
      NextPosition(n, p, j, |s'|);
      if n % p == j {
        assert s == s' + [t[n]];
      } else {
        assert s == s';
      }
    }
  }

  /** The arithmetic of one step: with `len` positions congruent to `j`
      below `n`, position `n` is the next one exactly when `n mod p == j`. */
  lemma NextPosition(n: nat, p: nat, j: nat, len: nat)
    requires j < p && j + len * p >= n
    requires len > 0 ==> j + (len - 1) * p < n
    ensures n % p == j <==> j + len * p == n
    ensures j + (len + 1) * p == j + len * p + p
  {
    ModOfMultiple(j, len, p);
    MulStep(len + 1, p);
    if n % p == j && len > 0 {
      MulStep(len, p);
      SameResidue(n, j + len * p, p);
    }
  }

  /** `j + len * p` leaves remainder `j`. */
  lemma {:induction false} ModOfMultiple(j: nat, len: nat, p: nat)
    requires j < p
    ensures (j + len * p) % p == j
  {
    if len > 0 {
      ModOfMultiple(j, len - 1, p);
      MulStep(len, p);
      ModStep(j + (len - 1) * p, p);
    }
  }

  lemma MulStep(len: nat, p: nat)
    requires len > 0
    ensures len * p == (len - 1) * p + p
  {
  }

  lemma ModStep(a: nat, p: nat)
    requires p > 0
    ensures (a + p) % p == a % p
  {
    var q, r := a / p, a % p;
    assert a == q * p + r;
    assert a + p == (q + 1) * p + r;
    ModUnique(a + p, q + 1, r, p);
  }

  /** The remainder is determined by any quotient-remainder decomposition. */
  lemma ModUnique(a: int, q: int, r: int, p: int)
    requires p > 0 && 0 <= r < p && a == q * p + r
    ensures a % p == r
  {
    var q', r' := a / p, a % p;
    assert (q - q') * p == r' - r;
    MulSign(q - q', p);
  }

  lemma MulSign(k: int, p: int)
    requires p > 0
    ensures k >= 1 ==> k * p >= p
    ensures k <= -1 ==> k * p <= -p
  {
  }

  /** Two numbers with the same residue less than `p` apart are equal. */
  lemma SameResidue(a: nat, b: nat, p: nat)
    requires p > 0 && a % p == b % p && b - p < a <= b
    ensures a == b
  {
    var k := b / p - a / p;
    assert b - a == p * k;
  }

  /** The lengths of the slices. */
  function Lengths(ss: seq<string>): (r: seq<nat>)
    ensures |r| == |ss|
  {
    seq(|ss|, j requires 0 <= j < |ss| => |ss[j]|)
  }

  /** Every character lands in exactly one slice: the slice lengths sum to
      the length of the text. */
  lemma {:induction false} SliceLengthsSum(t: string, p: nat)
    requires p > 0
    ensures Sum(Lengths(Slices(t, p))) == |t|
    decreases |t|
  {
    if t == [] {
      assert Lengths(Empties(p)) == Zeros(p);
      SumZeros(p);
    } else {
      var n := |t| - 1;
      var r := Slices(t[..n], p);
      SliceLengthsSum(t[..n], p);
      var k := n % p;
      assert Lengths(Slices(t, p)) == Lengths(r)[k := Lengths(r)[k] + 1];
      SumIncrement(Lengths(r), k);
    }
  }

  /** `sum` after the first `k` slices; the first slice whose index raises
      makes the whole sum raise. */
  function SumIC(ss: seq<string>, k: nat): Result<real>
    requires k <= |ss|
  {
    if k == 0 then Ok(0.0)
    else
      match SumIC(ss, k - 1)
      case Err(e) => Err(e)
      case Ok(s) =>
        match IndexOfCoincidenceOf(ss[k - 1])
        case Err(e) => Err(e)
        case Ok(v) => Ok(s + v)
  }

  lemma {:induction false} SumICPrefixError(ss: seq<string>, k: nat, k': nat)
    requires k <= k' <= |ss| && SumIC(ss, k).Err?
    ensures SumIC(ss, k') == SumIC(ss, k)
    decreases k' - k
  {
    if k < k' {
      SumICPrefixError(ss, k, k' - 1);
    }
  }

  /** `ioc`: the average index of coincidence of the slices of period `p`. */
  function AverageIC(t: string, p: nat): Result<real>
    requires p > 0
  {
    match SumIC(Slices(t, p), p)
    case Err(e) => Err(e)
    case Ok(s) => Ok(s / p as real)
  }

  /** The index of coincidence of a slice above which the period is
      accepted, `1.6` read as the exact rational 8/5. */
  const Threshold: real := 1.6

  /** A period at least the length of the text raises: its first slice has
      fewer than 2 characters. So the search is bounded by the text. */
  lemma PeriodBound(t: string, p: nat)
    requires p > 0
    ensures AverageIC(t, p).Ok? ==> p < |t|
  {
    if p >= |t| {
      var ss := Slices(t, p);
      ShortSlice(t, p);
      ShortTextError(ss[0]);
      assert SumIC(ss, 1).Err?;
      SumICPrefixError(ss, 1, p);
    }
  }

  /** Slice 0 of a period at least the length of the text holds at most
      the first character. */
  lemma ShortSlice(t: string, p: nat)
    requires 0 < p && |t| <= p
    ensures |Slices(t, p)[0]| <= 1
  {
    SliceContents(t, p, 0);
    var s := Slices(t, p)[0];
    assert |s| >= 2 ==> 0 + 1 * p < |t|;
  }

  lemma ShortTextError(s: string)
    requires |s| < 2
    ensures IndexOfCoincidenceOf(s).Err?
  {
    IndexOfCoincidenceErrors(s);
  }

  /** What `find_key_length(text)` returns or raises, searching from period
      `p` upward. */
  function KeyLengthFrom(t: string, p: nat): Result<nat>
    requires p > 0
    decreases |t| - p
  {
    match AverageIC(t, p)
    case Err(e) => Err(e)
    case Ok(v) =>
      if v > Threshold then Ok(p)
      else
        PeriodBound(t, p);
        KeyLengthFrom(t, p + 1)
  }

  lemma SumICStep(ss: seq<string>, i: nat, sum: real, v: real)
    requires i < |ss| && SumIC(ss, i) == Ok(sum) && IndexOfCoincidenceOf(ss[i]) == Ok(v)
    ensures SumIC(ss, i + 1) == Ok(sum + v)
  {
  }

  /** One round of the search: it raises, accepts `p`, or moves on to `p + 1`
      with `p` still below the length of the text. */
  lemma KeyLengthStep(t: string, p: nat)
    requires p > 0
    ensures AverageIC(t, p).Err? ==> KeyLengthFrom(t, p) == Err(AverageIC(t, p).error)
    ensures AverageIC(t, p).Ok? && AverageIC(t, p).value > Threshold ==> KeyLengthFrom(t, p) == Ok(p)
    ensures AverageIC(t, p).Ok? && AverageIC(t, p).value <= Threshold ==>
              KeyLengthFrom(t, p) == KeyLengthFrom(t, p + 1)
    ensures AverageIC(t, p).Ok? ==> p < |t|
  {
    PeriodBound(t, p);
  }

  /** One round of the source's search: deal the text into `period`
      slices and average their indices of coincidence. */
  method PeriodAverage(text: string, period: nat) returns (r: Result<real>)
    requires period > 0
    ensures r == AverageIC(text, period)
  {
    var slices := Empties(period);
    for i := 0 to |text|
      invariant slices == Slices(text[..i], period)
    {
      assert text[..i + 1][..i] == text[..i];
      slices := slices[i % period := slices[i % period] + [text[i]]];
    }
    assert text[..|text|] == text;
    var sum := 0.0;
    for i := 0 to period
      invariant SumIC(slices, i) == Ok(sum)
    {
      var ioc := IndexOfCoincidence(slices[i]);
      if ioc.Err? {
        SumICPrefixError(slices, i + 1, period);
        return Err(ioc.error);
      }
      SumICStep(slices, i, sum, ioc.value);
      sum := sum + ioc.value;
    }
    r := Ok(sum / period as real);
  }

  /** The source's search: periods 1, 2, ... until one is accepted. */
  method FindKeyLength(text: string) returns (r: Result<nat>)
    ensures r == KeyLengthFrom(text, 1)
  {
    var found := false;
    var period := 0;
    while !found
      invariant found ==> period > 0 && KeyLengthFrom(text, 1) == Ok(period)
      invariant !found ==> period <= |text| && KeyLengthFrom(text, 1) == KeyLengthFrom(text, period + 1)
      decreases |text| + 1 - period
    {
      period := period + 1;
      var average := PeriodAverage(text, period);
      KeyLengthStep(text, period);
      if average.Err? {
        return Err(average.error);
      }
      var ioc := average.value;
      if ioc > Threshold {
        found := true;
      }
    }
    r := Ok(period);
  }

  /** The period found is the least period from `s` on whose average index
      of coincidence exceeds the threshold, and it is below the length of
      the text. */
  lemma {:induction false} KeyLengthLeast(t: string, s: nat)
    requires s > 0 && KeyLengthFrom(t, s).Ok?
    ensures var p := KeyLengthFrom(t, s).value;
      s <= p < |t| && AverageIC(t, p).Ok? && AverageIC(t, p).value > Threshold &&
      forall q :: s <= q < p ==> AverageIC(t, q).Ok? && AverageIC(t, q).value <= Threshold
    decreases |t| - s
  {
    KeyLengthStep(t, s);
    if AverageIC(t, s).value <= Threshold {
      KeyLengthLeast(t, s + 1);
      var p := KeyLengthFrom(t, s).value;
      assert KeyLengthFrom(t, s + 1) == Ok(p);
      forall q | s <= q < p ensures AverageIC(t, q).Ok? && AverageIC(t, q).value <= Threshold {
      }
    }
  }

  /** When the search raises, the exception is the one of the first period
      whose slices raise, and every earlier period was rejected. */
  lemma {:induction false} KeyLengthError(t: string, s: nat)
    requires s > 0 && KeyLengthFrom(t, s).Err?
    ensures exists p :: s <= p && (p == s || p <= |t|) && AverageIC(t, p) == Err(KeyLengthFrom(t, s).error) &&
                        (forall q :: s <= q < p ==> AverageIC(t, q).Ok? && AverageIC(t, q).value <= Threshold)
    decreases |t| - s
  {
    KeyLengthStep(t, s);
    if AverageIC(t, s).Ok? {
      KeyLengthError(t, s + 1);
      var p :| s + 1 <= p && (p == s + 1 || p <= |t|) && AverageIC(t, p) == Err(KeyLengthFrom(t, s + 1).error) &&
               (forall q :: s + 1 <= q < p ==> AverageIC(t, q).Ok? && AverageIC(t, q).value <= Threshold);
      assert AverageIC(t, s).value <= Threshold;
    } else {
      assert AverageIC(t, s) == Err(KeyLengthFrom(t, s).error);
    }
  }
}
