/** `variational_key(ciphertext, length, fitness_threshold)`: greedy
    coordinate ascent on the key. Each round picks a random position, tries
    all 29 letters there, and adopts every candidate that beats the best
    score so far, until the best score reaches the threshold.

    `randrange(length)` is modelled by `choices`, the positions it returns
    in order; the source's loop has no bound, so the model stops with `None`
    when the choices run out. */
module Variational {
  import opened Outcomes
  import opened Alphabet
  import opened Decryption
  import opened Scoring

  /** The starting score. */
  const StartScore: real := -9999.0

  /** The starting key, `['a'] * length`. */
  function Initial(length: nat): (key: string)
    ensures |key| == length && AllLetters(key)
  {
    seq(length, _ => 'a')
  }

  /** Every position `randrange(length)` can return is below `length`; with
      `length == 0` it raises before one is needed. */
  predicate Choices(length: nat, choices: seq<nat>)
  {
    length > 0 ==> forall j :: 0 <= j < |choices| ==> choices[j] < length
  }

  /** Candidate `i` of a round: the round's starting key with position `idx`
      set to letter `i`. */
  function Candidate(start: string, idx: nat, i: Sym): (k: string)
    requires idx < |start|
    ensures |k| == |start| && k[idx] == Symbol(i)
    ensures forall t :: 0 <= t < |start| && t != idx ==> k[t] == start[t]
  {
    start[idx := Symbol(i)]
  }

  /** `key` decrypts the ciphertext to a text that scores `best`. */
  predicate Scored(m: QuadModel, c: string, key: string, best: real)
    requires Valid(m)
  {
    Deciphered(c, key).Ok? && FitnessOf(m, Deciphered(c, key).value) == Finite(best)
  }

  /** `(key, best_fitness)` after the first `n` letters of a round that
      started from `start` and `best0`, or what decrypt raised. */
  function Sweep(m: QuadModel, c: string, start: string, idx: nat, best0: real, n: nat): Result<(string, real)>
    requires Valid(m) && idx < |start| && n <= 29
  {
    if n == 0 then Ok((start, best0))
    else
      match Sweep(m, c, start, idx, best0, n - 1)
      case Err(e) => Err(e)
      case Ok((key, best)) =>
        var cand := Candidate(start, idx, n - 1);
        match Deciphered(c, cand)
        case Err(e) => Err(e)
        case Ok(p) =>
          var f := FitnessOf(m, p);
          if Above(f, Finite(best)) then Ok((cand, f.value)) else Ok((key, best))
  }

  /** A round ends with a key of the same length that differs from its
      starting key at most at the chosen position. The best score never
      decreases; either nothing was adopted, or the best score strictly
      increased and is the score of the adopted key, a candidate of the
      round. */
  lemma {:induction false} SweepAdopts(m: QuadModel, c: string, start: string, idx: nat, best0: real, n: nat)
    requires Valid(m) && idx < |start| && n <= 29 && Sweep(m, c, start, idx, best0, n).Ok?
    ensures var (key, best) := Sweep(m, c, start, idx, best0, n).value;
      |key| == |start| &&
      (forall t :: 0 <= t < |start| && t != idx ==> key[t] == start[t]) &&
      best >= best0 &&
      ((key == start && best == best0) ||
       (best > best0 && Scored(m, c, key, best) &&
        exists i: Sym :: i < n && key == Candidate(start, idx, i)))
  {
    if n > 0 {
      SweepAdopts(m, c, start, idx, best0, n - 1);
    }
  }

  /** No candidate tried in a round scores above the round's final best. */
  lemma {:induction false} SweepMaximum(m: QuadModel, c: string, start: string, idx: nat, best0: real, n: nat)
    requires Valid(m) && idx < |start| && n <= 29 && Sweep(m, c, start, idx, best0, n).Ok?
    ensures var best := Sweep(m, c, start, idx, best0, n).value.1;
      forall i: Sym :: i < n ==>
        Deciphered(c, Candidate(start, idx, i)).Ok? &&
        !Above(FitnessOf(m, Deciphered(c, Candidate(start, idx, i)).value), Finite(best))
  {
    if n > 0 {
      SweepMaximum(m, c, start, idx, best0, n - 1);
      var best := Sweep(m, c, start, idx, best0, n - 1).value.1;
      var f := FitnessOf(m, Deciphered(c, Candidate(start, idx, n - 1)).value);
      if Above(f, Finite(best)) {
        forall i: Sym | i < n - 1
          ensures !Above(FitnessOf(m, Deciphered(c, Candidate(start, idx, i)).value), f)
        {
          assert !Above(FitnessOf(m, Deciphered(c, Candidate(start, idx, i)).value), Finite(best));
        }
      }
    }
  }

  /** Once a round raises, the rest of it raises the same exception. */
  lemma {:induction false} SweepError(m: QuadModel, c: string, start: string, idx: nat, best0: real, n: nat)
    requires Valid(m) && idx < |start| && n <= 29 && Sweep(m, c, start, idx, best0, n).Err?
    ensures Sweep(m, c, start, idx, best0, 29) == Sweep(m, c, start, idx, best0, n)
    decreases 29 - n
  {
    if n < 29 {
      SweepError(m, c, start, idx, best0, n + 1);
    }
  }

  /** The rounds from round `j` on, starting from `key` and `best`: the
      `while best_fitness < fitness_threshold` loop. */
  function Rounds(m: QuadModel, c: string, length: nat, threshold: real, choices: seq<nat>,
                  key: string, best: real, j: nat): Result<Option<(string, real)>>
    requires Valid(m) && |key| == length && j <= |choices| && Choices(length, choices)
    decreases |choices| - j
  {
    if !(best < threshold) then Ok(Some((key, best)))
    else if length == 0 then Err(EmptyRange)
    else if j == |choices| then Ok(None)
    else
      match Sweep(m, c, key, choices[j], best, 29)
      case Err(e) => Err(e)
      case Ok((key', best')) =>
        SweepAdopts(m, c, key, choices[j], best, 29);
        Rounds(m, c, length, threshold, choices, key', best', j + 1)
  }

  /** The loop ends with a key of the right length whose best score has
      reached the threshold and is at least the starting score; the key is
      either the starting key with its score, or a key that scores exactly
      the best score. The key stays made of letters. */
  lemma {:induction false} RoundsResult(m: QuadModel, c: string, length: nat, threshold: real,
                                        choices: seq<nat>, key: string, best: real, j: nat)
    requires Valid(m) && |key| == length && j <= |choices| && Choices(length, choices)
    requires Rounds(m, c, length, threshold, choices, key, best, j).Ok?
    requires Rounds(m, c, length, threshold, choices, key, best, j).value.Some?
    ensures var (key', best') := Rounds(m, c, length, threshold, choices, key, best, j).value.value;
      |key'| == length && best' >= threshold && best' >= best &&
      ((key' == key && best' == best) || Scored(m, c, key', best')) &&
      (AllLetters(key) ==> AllLetters(key'))
    decreases |choices| - j
  {
    if best < threshold {
      var (k1, b1) := Sweep(m, c, key, choices[j], best, 29).value;
      SweepAdopts(m, c, key, choices[j], best, 29);
      RoundsResult(m, c, length, threshold, choices, k1, b1, j + 1);
      if AllLetters(key) {
        forall t | 0 <= t < |k1| ensures IsLetter(k1[t]) {
          if t != choices[j] {
            assert k1[t] == key[t];
          } else if k1 != key {
            var i: Sym :| i < 29 && k1 == Candidate(key, choices[j], i);
          }
        }
      }
    }
  }

  /** What `variational_key` returns or raises; `None` when the modelled
      random positions run out first. */
  function VariationalOf(m: QuadModel, c: string, length: nat, threshold: real, choices: seq<nat>)
    : Result<Option<(string, string)>>
    requires Valid(m) && Choices(length, choices)
  {
    match Rounds(m, c, length, threshold, choices, Initial(length), StartScore, 0)
    case Err(e) => Err(e)
    case Ok(None) => Ok(None)
    case Ok(Some((key, _))) =>
      match Deciphered(c, key)
      case Err(e) => Err(e)
      case Ok(p) => Ok(Some((key, p)))
  }

  /** On return the key has length `length` and is made of letters, the
      plaintext is its decryption, and the plaintext scores at least the
      threshold, unless the threshold is at most the starting score, when
      the loop does not run and the starting key is returned. */
  lemma VariationalResult(m: QuadModel, c: string, length: nat, threshold: real, choices: seq<nat>)
    requires Valid(m) && Choices(length, choices)
    requires VariationalOf(m, c, length, threshold, choices).Ok?
    requires VariationalOf(m, c, length, threshold, choices).value.Some?
    ensures var (key, p) := VariationalOf(m, c, length, threshold, choices).value.value;
      |key| == length && AllLetters(key) && Deciphered(c, key) == Ok(p) &&
      (if threshold <= StartScore then key == Initial(length)
       else FitnessOf(m, p).Finite? && FitnessOf(m, p).value >= threshold)
  {
    RoundsResult(m, c, length, threshold, choices, Initial(length), StartScore, 0);
  }

  /** With an empty key `randrange(0)` raises, unless the loop does not run. */
  lemma EmptyKey(m: QuadModel, c: string, threshold: real, choices: seq<nat>)
    requires Valid(m)
    ensures threshold > StartScore ==> VariationalOf(m, c, 0, threshold, choices) == Err(EmptyRange)
    ensures threshold <= StartScore && c != [] ==>
              VariationalOf(m, c, 0, threshold, choices) == Err(if IsLetter(c[0]) then ZeroDivision else NotInAlphabet(c[0]))
  {
    if threshold <= StartScore && c != [] {
      DecipheredEmptyKey(c);
    }
  }

  /** Decryption with an empty key raises at the first character. */
  lemma {:induction false} DecipheredEmptyKey(c: string)
    requires c != []
    ensures Deciphered(c, []) == Err(if IsLetter(c[0]) then ZeroDivision else NotInAlphabet(c[0]))
  {
    if |c| > 1 {
      var c' := c[..|c| - 1];
      DecipheredEmptyKey(c');
      assert c'[0] == c[0];
    }
  }

  /** One round of the loop: `k` is the copy `key[:]` of the round's
      starting key, updated at `randomIndex` letter by letter. */
  method Round(m: QuadModel, ciphertext: string, start: string, k: array<char>, randomIndex: nat, best0: real)
    returns (r: Result<(string, real)>)
    requires Valid(m) && randomIndex < |start| && k[..] == start
    modifies k
    ensures r == Sweep(m, ciphertext, start, randomIndex, best0, 29)
  {
    var key, bestFitness := start, best0;
    for i := 0 to 29
      invariant k[..] == start[randomIndex := k[randomIndex]]
      invariant Sweep(m, ciphertext, start, randomIndex, best0, i) == Ok((key, bestFitness))
    {
      k[randomIndex] := Symbol(i);
      assert k[..] == Candidate(start, randomIndex, i);
      var decrypted := Decrypt(ciphertext, k[..]);
      if decrypted.Err? {
        SweepError(m, ciphertext, start, randomIndex, best0, i + 1);
        return Err(decrypted.error);
      }
      var current := Fitness(m, decrypted.value);
      if Above(current, Finite(bestFitness)) {
        key := k[..];
        bestFitness := current.value;
      }
    }
    r := Ok((key, bestFitness));
  }

  /** The source's function. */
  method VariationalKey(m: QuadModel, ciphertext: string, length: nat, fitnessThreshold: real, choices: seq<nat>)
    returns (r: Result<Option<(string, string)>>)
    requires Valid(m) && Choices(length, choices)
    ensures r == VariationalOf(m, ciphertext, length, fitnessThreshold, choices)
  {
    var key := Initial(length);
    var bestFitness := StartScore;
    var j := 0;
    while bestFitness < fitnessThreshold
      invariant j <= |choices| && |key| == length
      invariant Rounds(m, ciphertext, length, fitnessThreshold, choices, key, bestFitness, j)
             == Rounds(m, ciphertext, length, fitnessThreshold, choices, Initial(length), StartScore, 0)
      decreases |choices| - j
    {
      if length == 0 {
        return Err(EmptyRange);
      }
      if j == |choices| {
        return Ok(None);
      }
      var randomIndex := choices[j];
      var k := new char[length](i requires 0 <= i < length => key[i]);
      var round := Round(m, ciphertext, key, k, randomIndex, bestFitness);
      if round.Err? {
        return Err(round.error);
      }
      SweepAdopts(m, ciphertext, key, randomIndex, bestFitness, 29);
      key, bestFitness := round.value.0, round.value.1;
      j := j + 1;
    }
    var plaintext := Decrypt(ciphertext, key);
    if plaintext.Err? {
      return Err(plaintext.error);
    }
    r := Ok(Some((key, plaintext.value)));
  }
}
