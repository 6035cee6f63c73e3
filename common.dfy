/** Outcomes shared by every part of the model: an optional value and the
    result of an operation that may raise one of the source's exceptions. */
module Outcomes {

  datatype Option<+T> = None | Some(value: T)

  /** The exceptions the core can raise. */
  datatype Error =
    | NotInAlphabet(c: char)   // ValueError of `ALPHABET.index(c)`
    | ZeroDivision             // ZeroDivisionError: `% len(key)` with an empty key, IC of fewer than 2 letters
    | EmptyRange               // ValueError of `randrange(0)`

  datatype Result<+T> = Ok(value: T) | Err(error: Error)
}

/** Tables of counts: `[0] * n` and the sum of a table. */
module Tallies {
  /** `[0] * n`. */
  function Zeros(n: nat): (z: seq<nat>)
    ensures |z| == n && forall x :: 0 <= x < n ==> z[x] == 0
  {
    seq(n, _ => 0)
  }

  function Sum(s: seq<nat>): nat
  {
    if s == [] then 0 else Sum(s[..|s| - 1]) + s[|s| - 1]
  }

  /** The sum of the all-zero table is 0. */
  lemma {:induction false} SumZeros(n: nat)
    ensures Sum(Zeros(n)) == 0
  {
    if n > 0 {
      assert Zeros(n)[..n - 1] == Zeros(n - 1);
      SumZeros(n - 1);
    }
  }

  /** Incrementing one entry adds one to the sum. */
  lemma {:induction false} SumIncrement(s: seq<nat>, x: nat)
    requires x < |s|
    ensures Sum(s[x := s[x] + 1]) == Sum(s) + 1
    decreases |s|
  {
    var t := s[x := s[x] + 1];
    var n := |s| - 1;
    if x == n {
      assert t[..n] == s[..n];
    } else {
      assert t[..n] == s[..n][x := s[x] + 1];
      SumIncrement(s[..n], x);
    }
  }
}
