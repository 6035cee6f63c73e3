/** `brute_force(ciphertext, length)`: try every key of the given length in
    the order `product` produces them, keep the first key of the highest
    score, and stop early at a key that scores above -50. */
module BruteForce {
  import opened Outcomes
  import opened Alphabet
  import opened Decryption
  import opened Scoring
  import opened Keys

  /** The score above which a plaintext is taken as Swedish and the search
      stops. */
  const StopScore: real := -50.0

  /** The score of key number `q`: `fitness(decrypt(ciphertext, key))`, or
      what decrypt raises. */
  function KeyScore(m: QuadModel, c: string, len: nat, q: nat): Result<Score>
    requires Valid(m)
  {
    match Deciphered(c, KeyAt(q, len))
    case Err(e) => Err(e)
    case Ok(p) => Ok(FitnessOf(m, p))
  }

  /** The scores of all keys of length `len`, in the order they are tried. */
  function Scores(m: QuadModel, c: string, len: nat): (s: seq<Result<Score>>)
    requires Valid(m)
    ensures |s| == KeyCount(len)
  {
    seq(KeyCount(len), q requires 0 <= q < KeyCount(len) => KeyScore(m, c, len, q))
  }

  /** The loop state: the number of the best key so far (`best_key`), its
      score (`best_fitness`), and whether the loop has broken out. */
  datatype Search = Search(best: Option<nat>, bestScore: Score, stopped: bool)

  /** The state after the loop has been offered the first `n` of the scores
      `s`; once it has stopped, later keys change nothing. */
  function Searched(s: seq<Result<Score>>, n: nat): Result<Search>
    requires n <= |s|
  {
    if n == 0 then Ok(Search(None, NegInf, false))
    else
      match Searched(s, n - 1)
      case Err(e) => Err(e)
      case Ok(st) =>
        if st.stopped then Ok(st)
        else
          match s[n - 1]
          case Err(e) => Err(e)
          case Ok(score) =>
            var st' := if Above(score, st.bestScore) then Search(Some(n - 1), score, false) else st;
            Ok(st'.(stopped := Above(score, Finite(StopScore))))
  }

  /** The value returned after the loop: `best_key`, and its plaintext
      when `best_key` is a non-empty string (`if best_key`). */
  function Answer(c: string, bestKey: Option<string>): Result<(Option<string>, Option<string>)>
  {
    if bestKey.Some? && |bestKey.value| > 0 then
      match Deciphered(c, bestKey.value)
      case Err(e) => Err(e)
      case Ok(p) => Ok((bestKey, Some(p)))
    else Ok((bestKey, None))
  }

  /** What `brute_force(ciphertext, length)` returns or raises. */
  function BruteForceOf(m: QuadModel, c: string, len: nat): Result<(Option<string>, Option<string>)>
    requires Valid(m)
  {
    match Searched(Scores(m, c, len), KeyCount(len))
    case Err(e) => Err(e)
    case Ok(st) => Answer(c, if st.best.Some? then Some(KeyAt(st.best.value, len)) else None)
  }

  /** The source's loop over the keys. */
  method BruteForceSearch(m: QuadModel, ciphertext: string, length: nat)
    returns (r: Result<(Option<string>, Option<string>)>)
    requires Valid(m)
    ensures r == BruteForceOf(m, ciphertext, length)
  {
    var bestKey: Option<string> := None;
    var bestFitness := NegInf;
    ghost var bestNumber: Option<nat> := None;
    ghost var scores := Scores(m, ciphertext, length);
    var count := KeyCount(length);
    for n := 0 to count
      invariant Searched(scores, n) == Ok(Search(bestNumber, bestFitness, false))
      invariant bestKey == if bestNumber.Some? then Some(KeyAt(bestNumber.value, length)) else None
    {
      var key := KeyAt(n, length);
      var decryptedText := Decrypt(ciphertext, key);
      if decryptedText.Err? {
        assert scores[n] == Err(decryptedText.error);
        SearchedError(scores, n + 1, count);
        return Err(decryptedText.error);
      }
      var score := Fitness(m, decryptedText.value);
      assert scores[n] == Ok(score);
      if Above(score, bestFitness) {
        bestFitness := score;
        bestKey := Some(key);
        bestNumber := Some(n);
      }
      if Above(score, Finite(StopScore)) {
        StoppedStays(scores, n + 1, count);
        break;
      }
    }
    r := Report(ciphertext, bestKey);
  }

  /** The return statement of `brute_force`. */
  method Report(ciphertext: string, bestKey: Option<string>) returns (r: Result<(Option<string>, Option<string>)>)
    ensures r == Answer(ciphertext, bestKey)
  {
    if bestKey.Some? && |bestKey.value| > 0 {
      var p := Decrypt(ciphertext, bestKey.value);
      if p.Err? {
        return Err(p.error);
      }
      r := Ok((bestKey, Some(p.value)));
    } else {
      r := Ok((bestKey, None));
    }
  }

  /** An exception ends the search for good. */
  lemma {:induction false} SearchedError(s: seq<Result<Score>>, n: nat, n': nat)
    requires n <= n' <= |s| && Searched(s, n).Err?
    ensures Searched(s, n') == Searched(s, n)
    decreases n' - n
  {
    if n < n' {
      SearchedError(s, n, n' - 1);
    }
  }

  /** After the break no later key is looked at. */
  lemma {:induction false} StoppedStays(s: seq<Result<Score>>, n: nat, n': nat)
    requires n <= n' <= |s| && Searched(s, n).Ok? && Searched(s, n).value.stopped
    ensures Searched(s, n') == Searched(s, n)
    decreases n' - n
  {
    if n < n' {
      StoppedStays(s, n, n' - 1);
    }
  }

  /** While the loop runs, every key so far scored at most -50, the best
      score is the maximum of the scores so far, and the best key is the
      first key that reached it, every key before it scoring strictly
      less; with no finite score there is no best key. */
  lemma {:induction false} SearchRunning(s: seq<Result<Score>>, n: nat)
    requires n <= |s| && Searched(s, n).Ok? && !Searched(s, n).value.stopped
    ensures var st := Searched(s, n).value;
      (forall q :: 0 <= q < n ==>
         (s[q].Ok? && !Above(s[q].value, Finite(StopScore)) && !Above(s[q].value, st.bestScore))) &&
      (st.best.None? ==> st.bestScore == NegInf) &&
      (st.best.Some? ==>
         (st.best.value < n && st.bestScore.Finite? && s[st.best.value] == Ok(st.bestScore) &&
          forall q :: 0 <= q < st.best.value ==> Above(st.bestScore, s[q].value)))
  {
    if n > 0 {
      SearchRunning(s, n - 1);
      var st := Searched(s, n - 1).value;
      var score := s[n - 1].value;
      if Above(score, st.bestScore) {
        forall q | 0 <= q < n - 1 ensures Above(score, s[q].value) {
          AboveTransitive(score, st.bestScore, s[q].value);
        }
      }
    }
  }

  /** `a > b` and `b >= c` give `a > c`. */
  lemma AboveTransitive(a: Score, b: Score, c: Score)
    requires Above(a, b) && !Above(c, b)
    ensures Above(a, c)
  {
  }

  /** Once the loop has stopped, the best key is the key it stopped at: the
      first key scoring above -50. */
  lemma {:induction false} SearchStopped(s: seq<Result<Score>>, n: nat)
    requires n <= |s| && Searched(s, n).Ok? && Searched(s, n).value.stopped
    ensures var st := Searched(s, n).value;
      st.best.Some? && st.best.value < n && s[st.best.value] == Ok(st.bestScore) &&
      Above(st.bestScore, Finite(StopScore)) &&
      Searched(s, st.best.value + 1) == Searched(s, n) &&
      forall q :: 0 <= q < st.best.value ==> (s[q].Ok? && !Above(s[q].value, Finite(StopScore)))
  {
    var prev := Searched(s, n - 1);
    if prev.value.stopped {
      SearchStopped(s, n - 1);
    } else {
      SearchRunning(s, n - 1);
      StopIsBest(s[n - 1].value, prev.value.bestScore);
    }
  }

  /** A score above -50 beats a best score that is at most -50. */
  lemma StopIsBest(score: Score, best: Score)
    requires Above(score, Finite(StopScore)) && !Above(best, Finite(StopScore))
    ensures Above(score, best)
  {
  }

  /** Keys that all score at most -50 do not stop the loop. */
  lemma {:induction false} NotStoppedBefore(s: seq<Result<Score>>, n: nat)
    requires n <= |s|
    requires forall q :: 0 <= q < n ==> (s[q].Ok? && !Above(s[q].value, Finite(StopScore)))
    ensures Searched(s, n).Ok? && !Searched(s, n).value.stopped
  {
    if n > 0 {
      NotStoppedBefore(s, n - 1);
    }
  }

  /** The loop breaks at the first key scoring above -50, and that key is
      the best key. */
  lemma EarlyStop(s: seq<Result<Score>>, k: nat)
    requires k < |s|
    requires forall q :: 0 <= q < k ==> (s[q].Ok? && !Above(s[q].value, Finite(StopScore)))
    requires s[k].Ok? && Above(s[k].value, Finite(StopScore))
    ensures Searched(s, |s|).Ok? && Searched(s, |s|).value.best == Some(k)
  {
    NotStoppedBefore(s, k);
    assert Searched(s, k + 1).value.stopped;
    SearchStopped(s, k + 1);
    StoppedStays(s, k + 1, |s|);
  }

  /** The early exit: at the first key scoring above -50 the search returns
      that key and its plaintext. */
  lemma EarlyExit(m: QuadModel, c: string, len: nat, k: nat)
    requires Valid(m) && k < KeyCount(len)
    requires forall q :: 0 <= q < k ==>
               (KeyScore(m, c, len, q).Ok? && !Above(KeyScore(m, c, len, q).value, Finite(StopScore)))
    requires KeyScore(m, c, len, k).Ok? && Above(KeyScore(m, c, len, k).value, Finite(StopScore))
    ensures Deciphered(c, KeyAt(k, len)).Ok?
    ensures BruteForceOf(m, c, len) ==
              Ok((Some(KeyAt(k, len)), if len > 0 then Some(Deciphered(c, KeyAt(k, len)).value) else None))
  {
    var s := Scores(m, c, len);
    forall q | 0 <= q < k ensures s[q].Ok? && !Above(s[q].value, Finite(StopScore)) {
      assert s[q] == KeyScore(m, c, len, q);
    }
    assert s[k] == KeyScore(m, c, len, k);
    EarlyStop(s, k);
  }

  /** Without an early exit the loop ends with the first key of the
      highest score, and with no key exactly when every score is -inf. */
  lemma FullRun(s: seq<Result<Score>>)
    requires forall q :: 0 <= q < |s| ==> (s[q].Ok? && !Above(s[q].value, Finite(StopScore)))
    ensures Searched(s, |s|).Ok?
    ensures Searched(s, |s|).value.best.None? <==> forall q :: 0 <= q < |s| ==> s[q] == Ok(NegInf)
    ensures Searched(s, |s|).value.best.Some? ==>
              var b := Searched(s, |s|).value.best.value;
              b < |s| &&
              (forall q :: 0 <= q < |s| ==> !Above(s[q].value, s[b].value)) &&
              (forall q :: 0 <= q < b ==> Above(s[b].value, s[q].value))
  {
    NotStoppedBefore(s, |s|);
    SearchRunning(s, |s|);
    if Searched(s, |s|).value.best.None? {
      forall q | 0 <= q < |s| ensures s[q] == Ok(NegInf) {
        assert !Above(s[q].value, NegInf);
      }
    }
  }

  /** Without an early exit the search returns the first key of the
      highest score over all keys, and no key exactly when every score is
      -inf. */
  lemma FullSearch(m: QuadModel, c: string, len: nat, b: nat)
    requires Valid(m)
    requires forall q :: 0 <= q < KeyCount(len) ==>
               (KeyScore(m, c, len, q).Ok? && !Above(KeyScore(m, c, len, q).value, Finite(StopScore)))
    ensures BruteForceOf(m, c, len).Ok?
    ensures BruteForceOf(m, c, len).value.0.None? <==>
              forall q :: 0 <= q < KeyCount(len) ==> KeyScore(m, c, len, q) == Ok(NegInf)
    ensures b < KeyCount(len) && BruteForceOf(m, c, len).value.0 == Some(KeyAt(b, len)) ==>
              (forall q :: 0 <= q < KeyCount(len) ==> !Above(KeyScore(m, c, len, q).value, KeyScore(m, c, len, b).value)) &&
              (forall q :: 0 <= q < b ==> Above(KeyScore(m, c, len, b).value, KeyScore(m, c, len, q).value))
  {
    var s := Scores(m, c, len);
    var n := KeyCount(len);
    forall q | 0 <= q < n ensures s[q] == KeyScore(m, c, len, q) {
    }
    FullRun(s);
    var st := Searched(s, n).value;
    if st.best.Some? {
      assert Deciphered(c, KeyAt(st.best.value, len)).Ok?;
      if b < n && BruteForceOf(m, c, len).value.0 == Some(KeyAt(b, len)) {
        KeyAtInjective(b, st.best.value, len);
      }
    }
  }

  /** When no key gives a finite score, for instance because the ciphertext
      is shorter than 4 letters, the search finds nothing. */
  lemma AllNegInf(m: QuadModel, c: string, len: nat)
    requires Valid(m)
    requires forall q :: 0 <= q < KeyCount(len) ==> KeyScore(m, c, len, q) == Ok(NegInf)
    ensures BruteForceOf(m, c, len) == Ok((None, None))
  {
    var s := Scores(m, c, len);
    NotStoppedBefore(s, KeyCount(len));
    SearchRunning(s, KeyCount(len));
  }

  /** A ciphertext of fewer than 4 letters scores -inf under every key of
      letters: decryption keeps its length. */
  lemma ShortCiphertext(m: QuadModel, c: string, len: nat)
    requires Valid(m) && |c| < 4 && AllLetters(c) && len > 0
    ensures BruteForceOf(m, c, len) == Ok((None, None))
  {
    forall q | 0 <= q < KeyCount(len) ensures KeyScore(m, c, len, q) == Ok(NegInf) {
      var key := KeyAt(q, len);
      DecipheredOk(c, key);
      DecipheredLetters(c, key);
    }
    AllNegInf(m, c, len);
  }
}
