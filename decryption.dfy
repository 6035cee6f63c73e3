/** `decrypt(ciphertext, key)`: subtract the repeating key, letter by letter,
    modulo 29. */
module Decryption {
  import opened Outcomes
  import opened Alphabet

  /** Whether decryption raises at position `i`: the character or the key
      character it is paired with is not a letter, or the key is empty. */
  predicate FailsAt(c: string, k: string, i: nat)
    requires i < |c|
  {
    !IsLetter(c[i]) || |k| == 0 || !IsLetter(k[i % |k|])
  }

  /** The exception raised at a failing position, in the order the source
      evaluates `ALPHABET.index(ciphertext[i])`, `i % len(key)` and
      `ALPHABET.index(key[...])`. */
  function ErrorAt(c: string, k: string, i: nat): Error
    requires i < |c| && FailsAt(c, k, i)
  {
    if !IsLetter(c[i]) then NotInAlphabet(c[i])
    else if |k| == 0 then ZeroDivision
    else NotInAlphabet(k[i % |k|])
  }

  /** The letter of plaintext position `i`. */
  function PlainAt(c: string, k: string, i: nat): char
    requires i < |c| && !FailsAt(c, k, i)
  {
    Symbol((Idx(c[i]) - Idx(k[i % |k|])) % 29)
  }

  /** What `decrypt(c, k)` returns or raises, position by position. */
  function Deciphered(c: string, k: string): Result<string>
    decreases |c|
  {
    if c == [] then Ok([])
    else
      var n := |c| - 1;
      match Deciphered(c[..n], k)
      case Err(e) => Err(e)
      case Ok(p) =>
        if FailsAt(c, k, n) then Err(ErrorAt(c, k, n))
        else Ok(p + [PlainAt(c, k, n)])
  }

  /** The source's loop: one letter of plaintext per ciphertext character. */
  method Decrypt(ciphertext: string, key: string) returns (r: Result<string>)
    ensures r == Deciphered(ciphertext, key)
  {
    var plaintext := "";
    for i := 0 to |ciphertext|
      invariant Deciphered(ciphertext[..i], key) == Ok(plaintext)
    {
      ghost var upTo := ciphertext[..i + 1];
      assert upTo[..i] == ciphertext[..i] && upTo[i] == ciphertext[i];
      var p := Index(ciphertext[i]);
      if p.None? {
        assert Deciphered(upTo, key) == Err(NotInAlphabet(ciphertext[i]));
        DecipheredPrefixError(ciphertext, key, i + 1);
        return Err(NotInAlphabet(ciphertext[i]));
      }
      if |key| == 0 {
        assert Deciphered(upTo, key) == Err(ZeroDivision);
        DecipheredPrefixError(ciphertext, key, i + 1);
        return Err(ZeroDivision);
      }
      var k := Index(key[i % |key|]);
      if k.None? {
        assert Deciphered(upTo, key) == Err(NotInAlphabet(key[i % |key|]));
        DecipheredPrefixError(ciphertext, key, i + 1);
        return Err(NotInAlphabet(key[i % |key|]));
      }
      var x := (p.value as int - k.value as int) % 29;
      assert !FailsAt(upTo, key, i) && PlainAt(upTo, key, i) == Symbol(x);
      plaintext := plaintext + [Symbol(x)];
    }
    assert ciphertext[..|ciphertext|] == ciphertext;
    r := Ok(plaintext);
  }

  /** Once a prefix raises, the whole text raises the same exception. */
  lemma {:induction false} DecipheredPrefixError(c: string, k: string, i: nat)
    requires i <= |c| && Deciphered(c[..i], k).Err?
    ensures Deciphered(c, k) == Deciphered(c[..i], k)
    decreases |c| - i
  {
    if i == |c| {
      assert c[..i] == c;
    } else {
      var c' := c[..|c| - 1];
      assert c'[..i] == c[..i];
      DecipheredPrefixError(c', k, i);
    }
  }

  /** Decryption succeeds exactly when no position fails: the text is made of
      letters, and, unless it is empty, the key is non-empty and every key
      character paired with a position is a letter. */
  lemma {:induction false} DecipheredOk(c: string, k: string)
    ensures Deciphered(c, k).Ok? <==> forall i :: 0 <= i < |c| ==> !FailsAt(c, k, i)
    decreases |c|
  {
    if c != [] {
      var n := |c| - 1;
      var c' := c[..n];
      DecipheredOk(c', k);
      assert forall i :: 0 <= i < n ==> (FailsAt(c', k, i) <==> FailsAt(c, k, i));
    }
  }

  /** The plaintext as a whole: letter `i` is
      `(index(c[i]) - index(k[i mod |k|])) mod 29`. */
  function Unshift(c: string, k: string): (p: string)
    requires forall i :: 0 <= i < |c| ==> !FailsAt(c, k, i)
    ensures |p| == |c| && AllLetters(p)
  {
    seq(|c|, i requires 0 <= i < |c| && !FailsAt(c, k, i) => PlainAt(c, k, i))
  }

  /** On success the plaintext is the letter-by-letter unshifted ciphertext. */
  lemma {:induction false} DecipheredLetters(c: string, k: string)
    requires Deciphered(c, k).Ok?
    ensures forall i :: 0 <= i < |c| ==> !FailsAt(c, k, i)
    ensures Deciphered(c, k) == Ok(Unshift(c, k))
    decreases |c|
  {
    if c == [] {
      assert Unshift(c, k) == [];
    } else {
      var n := |c| - 1;
      var c' := c[..n];
      DecipheredLetters(c', k);
      assert Deciphered(c, k) == Ok(Unshift(c', k) + [PlainAt(c, k, n)]);
      forall i | 0 <= i < n ensures !FailsAt(c, k, i) {
        PrefixAgrees(c, c', k, i);
      }
      UnshiftSnoc(c, c', k);
    }
  }

  /** A prefix pairs its characters with the same key characters. */
  lemma PrefixAgrees(c: string, c': string, k: string, i: nat)
    requires i < |c'| <= |c| && c' == c[..|c'|]
    ensures FailsAt(c', k, i) == FailsAt(c, k, i)
    ensures !FailsAt(c, k, i) ==> PlainAt(c', k, i) == PlainAt(c, k, i)
  {
    assert c'[i] == c[i];
  }

  lemma UnshiftSnoc(c: string, c': string, k: string)
    requires |c| > 0 && c' == c[..|c| - 1]
    requires forall i :: 0 <= i < |c| ==> !FailsAt(c, k, i)
    ensures forall i :: 0 <= i < |c'| ==> !FailsAt(c', k, i)
    ensures Unshift(c, k) == Unshift(c', k) + [PlainAt(c, k, |c| - 1)]
  {
    forall i | 0 <= i < |c'| ensures !FailsAt(c', k, i) {
      PrefixAgrees(c, c', k, i);
    }
    var u, u' := Unshift(c, k), Unshift(c', k);
    forall i | 0 <= i < |c'| ensures u[i] == u'[i] {
      PrefixAgrees(c, c', k, i);
    }
  }

  /** On failure, the exception is the one of the first failing position. */
  lemma {:induction false} DecipheredError(c: string, k: string)
    requires Deciphered(c, k).Err?
    ensures exists j :: 0 <= j < |c| && FailsAt(c, k, j) && Deciphered(c, k).error == ErrorAt(c, k, j)
                     && forall i :: 0 <= i < j ==> !FailsAt(c, k, i)
    decreases |c|
  {
    var n := |c| - 1;
    var c' := c[..n];
    assert forall i :: 0 <= i < n ==> (FailsAt(c', k, i) <==> FailsAt(c, k, i));
    if Deciphered(c', k).Err? {
      DecipheredError(c', k);
      var j :| 0 <= j < |c'| && FailsAt(c', k, j) && Deciphered(c', k).error == ErrorAt(c', k, j)
             && forall i :: 0 <= i < j ==> !FailsAt(c', k, i);
      assert ErrorAt(c', k, j) == ErrorAt(c, k, j);
    } else {
      DecipheredOk(c', k);
      assert FailsAt(c, k, n) && Deciphered(c, k).error == ErrorAt(c, k, n);
    }
  }
}
