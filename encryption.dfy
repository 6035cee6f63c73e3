/** `vigenere_cipher(text, key, encrypt)`: add the repeating key letter by
    letter, modulo 29, dropping spaces. */
module Encryption {
  import opened Outcomes
  import opened Alphabet
  import opened Decryption

  /** The text without its spaces, in order. */
  function StripSpaces(t: string): (r: string)
    ensures |r| <= |t|
    ensures forall i :: 0 <= i < |r| ==> r[i] != ' '
  {
    if t == [] then []
    else StripSpaces(t[..|t| - 1]) + (if t[|t| - 1] == ' ' then [] else [t[|t| - 1]])
  }

  /** `[ALPHABET.index(k) for k in key]`, raising on the first non-letter. */
  function KeyIndices(key: string): (r: Result<seq<Sym>>)
    ensures r.Ok? <==> AllLetters(key)
    ensures r.Ok? ==> Spell(r.value) == key
    ensures r.Err? ==> r.error == NotInAlphabet(key[FirstNonLetter(key)])
  {
    if AllLetters(key) then Ok(Indices(key))
    else Err(NotInAlphabet(key[FirstNonLetter(key)]))
  }

  /** One pass of the loop body on character `c`, where `out` is the result
      so far and its length is `key_pos`. */
  function EncipherChar(out: string, c: char, keys: seq<Sym>): Result<string>
  {
    if c == ' ' then Ok(out)
    else if !IsLetter(c) then Err(NotInAlphabet(c))
    else if |keys| == 0 then Err(ZeroDivision)
    else Ok(out + [Symbol((Idx(c) + keys[|out| % |keys|]) % 29)])
  }

  /** The loop over the text once the key indices are known. */
  function EncipherWith(t: string, keys: seq<Sym>): Result<string>
    decreases |t|
  {
    if t == [] then Ok([])
    else
      match EncipherWith(t[..|t| - 1], keys)
      case Err(e) => Err(e)
      case Ok(out) => EncipherChar(out, t[|t| - 1], keys)
  }

  /** What `vigenere_cipher(text, key, _)` returns or raises. */
  function Enciphered(text: string, key: string): Result<string>
  {
    match KeyIndices(key)
    case Err(e) => Err(e)
    case Ok(keys) => EncipherWith(text, keys)
  }

  /** The source's function. Its first statement overwrites `encrypt` with
      true, so the result does not depend on the argument. */
  method VigenereCipher(text: string, key: string, encrypt: bool) returns (r: Result<string>)
    ensures r == Enciphered(text, key)
  {
    var keyIndices := KeyIndices(key);
    if keyIndices.Err? {
      return Err(keyIndices.error);
    }
    r := EncipherLoop(text, keyIndices.value);
  }

  /** The loop of `vigenere_cipher` over the text, once the key indices are
      known; `encrypt` is true throughout, so spaces are skipped and the key
      index is added. */
  method EncipherLoop(text: string, keys: seq<Sym>) returns (r: Result<string>)
    ensures r == EncipherWith(text, keys)
  {
    var result: string := [];
    var keyLength := |keys|;
    var keyPos := 0;
    for i := 0 to |text|
      invariant EncipherWith(text[..i], keys) == Ok(result)
      invariant keyPos == |result|
    {
      var c := text[i];
      ghost var next := EncipherChar(result, c, keys);
      EncipherNext(text, keys, i, result);
      if c == ' ' {
        assert next == Ok(result);
        continue;
      }
      var textIndex := Index(c);
      if textIndex.None? {
        assert next == Err(NotInAlphabet(c));
        return Err(NotInAlphabet(c));
      }
      if keyLength == 0 {
        assert next == Err(ZeroDivision);
        return Err(ZeroDivision);
      }
      var keyIndex := keys[keyPos % keyLength];
      var newIndex := (textIndex.value as int + keyIndex as int) % 29;
      EncipherLetter(result, c, keys, textIndex.value);
      result := result + [Symbol(newIndex)];
      keyPos := keyPos + 1;
    }
    assert text[..|text|] == text;
    r := Ok(result);
  }

  /** One pass on a letter with a non-empty key appends the shifted letter. */
  lemma EncipherLetter(out: string, c: char, keys: seq<Sym>, a: Sym)
    requires Index(c) == Some(a) && |keys| > 0
    ensures EncipherChar(out, c, keys) == Ok(out + [Symbol((a as int + keys[|out| % |keys|] as int) % 29)])
  {
  }

  /** The prefix of length `i + 1` is the prefix of length `i` followed by
      one pass of the loop body, and once that pass raises, the whole text
      raises the same exception. */
  lemma EncipherNext(t: string, keys: seq<Sym>, i: nat, out: string)
    requires i < |t| && EncipherWith(t[..i], keys) == Ok(out)
    ensures EncipherWith(t[..i + 1], keys) == EncipherChar(out, t[i], keys)
    ensures EncipherChar(out, t[i], keys).Err? ==> EncipherWith(t, keys) == EncipherChar(out, t[i], keys)
  {
    var u := t[..i + 1];
    assert u[..i] == t[..i] && u[i] == t[i];
    if EncipherChar(out, t[i], keys).Err? {
      EncipherPrefixError(t, keys, i + 1);
    }
  }

  /** Once a prefix raises, the whole text raises the same exception. */
  lemma {:induction false} EncipherPrefixError(t: string, keys: seq<Sym>, i: nat)
    requires i <= |t| && EncipherWith(t[..i], keys).Err?
    ensures EncipherWith(t, keys) == EncipherWith(t[..i], keys)
    decreases |t| - i
  {
    if i == |t| {
      assert t[..i] == t;
    } else {
      var t' := t[..|t| - 1];
      assert t'[..i] == t[..i];
      EncipherPrefixError(t', keys, i);
    }
  }

  /** Encryption succeeds exactly when the key is made of letters, every
      non-space character of the text is a letter, and the key is non-empty
      unless the text has no letters to encrypt. */
  lemma EncipheredOk(text: string, key: string)
    ensures Enciphered(text, key).Ok? <==>
              AllLetters(key) && AllLetters(StripSpaces(text)) && (StripSpaces(text) == [] || |key| > 0)
  {
    if AllLetters(key) {
      EncipherWithOk(text, KeyIndices(key).value);
    }
  }

  lemma {:induction false} EncipherWithOk(t: string, keys: seq<Sym>)
    ensures EncipherWith(t, keys).Ok? <==> AllLetters(StripSpaces(t)) && (StripSpaces(t) == [] || |keys| > 0)
    decreases |t|
  {
    if t != [] {
      var t' := t[..|t| - 1];
      var c := t[|t| - 1];
      EncipherWithOk(t', keys);
      var s', s := StripSpaces(t'), StripSpaces(t);
      if c == ' ' {
        assert s == s';
      } else {
        assert s == s' + [c];
        LettersAppend(s', c);
      }
    }
  }

  /** Letter `j` shifted forward by key index `j mod |keys|`. */
  function ShiftBy(s: string, keys: seq<Sym>): (r: string)
    requires AllLetters(s) && (|s| == 0 || |keys| > 0)
    ensures |r| == |s| && AllLetters(r)
  {
    seq(|s|, j requires 0 <= j < |s| => Symbol((Idx(s[j]) + keys[j % |keys|]) % 29))
  }

  /** The ciphertext of a string of letters under a key of letters: letter
      `j` is `(index(s[j]) + index(key[j mod |key|])) mod 29`. */
  function Shift(s: string, key: string): (r: string)
    requires AllLetters(s) && AllLetters(key) && (|s| == 0 || |key| > 0)
    ensures |r| == |s| && AllLetters(r)
  {
    ShiftBy(s, Indices(key))
  }

  lemma ShiftBySnoc(s: string, keys: seq<Sym>, c: char)
    requires AllLetters(s) && IsLetter(c) && |keys| > 0
    ensures AllLetters(s + [c])
    ensures ShiftBy(s + [c], keys) == ShiftBy(s, keys) + [Symbol((Idx(c) + keys[|s| % |keys|]) % 29)]
  {
    LettersAppend(s, c);
    var t := s + [c];
    assert forall j :: 0 <= j < |s| ==> t[j] == s[j];
  }

  /** On success the output is the shifted text without its spaces: spaces
      are dropped and do not advance the key. */
  lemma {:induction false} EncipherWithShift(t: string, keys: seq<Sym>)
    requires EncipherWith(t, keys).Ok?
    ensures AllLetters(StripSpaces(t)) && (StripSpaces(t) == [] || |keys| > 0)
    ensures EncipherWith(t, keys) == Ok(ShiftBy(StripSpaces(t), keys))
    decreases |t|
  {
    EncipherWithOk(t, keys);
    if t != [] {
      var t' := t[..|t| - 1];
      var c := t[|t| - 1];
      EncipherWithShift(t', keys);
      var s', s := StripSpaces(t'), StripSpaces(t);
      if c == ' ' {
        assert s == s';
      } else {
        assert s == s' + [c];
        ShiftBySnoc(s', keys, c);
      }
    }
  }

  /** On success the key is made of letters, and the output is `Shift` of
      the text without its spaces: one letter per non-space character. */
  lemma EncipheredShift(text: string, key: string)
    requires Enciphered(text, key).Ok?
    ensures AllLetters(key) && AllLetters(StripSpaces(text)) && (StripSpaces(text) == [] || |key| > 0)
    ensures Enciphered(text, key) == Ok(Shift(StripSpaces(text), key))
  {
    EncipheredOk(text, key);
    EncipherWithShift(text, KeyIndices(key).value);
  }

  /** The exception raised: the first non-letter of the key, else, for an
      empty key, the first non-space character decides between an unknown
      letter and the division by zero, else the first non-letter among the
      non-space characters. */
  lemma EncipheredError(text: string, key: string)
    ensures !AllLetters(key) ==> Enciphered(text, key) == Err(NotInAlphabet(key[FirstNonLetter(key)]))
    ensures var s := StripSpaces(text);
      AllLetters(key) && |key| == 0 && s != [] ==>
        Enciphered(text, key) == Err(if IsLetter(s[0]) then ZeroDivision else NotInAlphabet(s[0]))
    ensures var s := StripSpaces(text);
      AllLetters(key) && |key| > 0 && !AllLetters(s) ==>
        Enciphered(text, key) == Err(NotInAlphabet(s[FirstNonLetter(s)]))
  {
    if AllLetters(key) {
      var keys := KeyIndices(key).value;
      if |key| == 0 && StripSpaces(text) != [] {
        EncipherEmptyKey(text, keys);
      }
      if |key| > 0 && !AllLetters(StripSpaces(text)) {
        EncipherFirstNonLetter(text, keys);
      }
    }
  }

  lemma {:induction false} EncipherEmptyKey(t: string, keys: seq<Sym>)
    requires |keys| == 0 && StripSpaces(t) != []
    ensures var s := StripSpaces(t);
      EncipherWith(t, keys) == Err(if IsLetter(s[0]) then ZeroDivision else NotInAlphabet(s[0]))
    decreases |t|
  {
    var t' := t[..|t| - 1];
    var c := t[|t| - 1];
    var s', s := StripSpaces(t'), StripSpaces(t);
    assert s == s' + (if c == ' ' then [] else [c]);
    if s' != [] {
      EncipherEmptyKey(t', keys);
      assert s[0] == s'[0];
    } else {
      EncipherWithOk(t', keys);
      EncipherWithShift(t', keys);
    }
  }

  lemma {:induction false} EncipherFirstNonLetter(t: string, keys: seq<Sym>)
    requires |keys| > 0 && !AllLetters(StripSpaces(t))
    ensures var s := StripSpaces(t); EncipherWith(t, keys) == Err(NotInAlphabet(s[FirstNonLetter(s)]))
    decreases |t|
  {
    var t' := t[..|t| - 1];
    var c := t[|t| - 1];
    var s', s := StripSpaces(t'), StripSpaces(t);
    assert s == s' + (if c == ' ' then [] else [c]);
    if !AllLetters(s') {
      EncipherFirstNonLetter(t', keys);
      var k := FirstNonLetter(s');
      assert s[k] == s'[k] && forall i :: 0 <= i < k ==> s[i] == s'[i];
      FirstNonLetterUnique(s, k);
    } else {
      EncipherWithOk(t', keys);
      assert s != s' by {
        assert AllLetters(s');
      }
      assert s == s' + [c];
      LettersAppend(s', c);
      assert forall i :: 0 <= i < |s'| ==> s[i] == s'[i];
      FirstNonLetterUnique(s, |s'|);
    }
  }

  /** Decrypting with the same key undoes encryption: the result is the text
      without its spaces. */
  lemma DecryptUndoesEncrypt(text: string, key: string)
    requires Enciphered(text, key).Ok?
    ensures Deciphered(Enciphered(text, key).value, key) == Ok(StripSpaces(text))
  {
    EncipheredShift(text, key);
    UnshiftShift(StripSpaces(text), key);
  }

  lemma UnshiftShift(s: string, key: string)
    requires AllLetters(s) && AllLetters(key) && (|s| == 0 || |key| > 0)
    ensures Deciphered(Shift(s, key), key) == Ok(s)
  {
    var out := Shift(s, key);
    assert forall j :: 0 <= j < |out| ==> !FailsAt(out, key, j);
    DecipheredOk(out, key);
    DecipheredLetters(out, key);
    UnshiftOfShift(s, key);
  }

  lemma UnshiftOfShift(s: string, key: string)
    requires AllLetters(s) && AllLetters(key) && (|s| == 0 || |key| > 0)
    ensures forall j :: 0 <= j < |s| ==> !FailsAt(Shift(s, key), key, j)
    ensures Unshift(Shift(s, key), key) == s
  {
    var out := Shift(s, key);
    var plain := Unshift(out, key);
    forall j | 0 <= j < |s| ensures plain[j] == s[j] {
      ShiftedBackAt(s[j], key[j % |key|], out[j], plain[j]);
    }
  }

  /** Encrypting with a key of letters undoes decryption with that key. */
  lemma EncryptUndoesDecrypt(c: string, key: string)
    requires AllLetters(key) && Deciphered(c, key).Ok?
    ensures Enciphered(Deciphered(c, key).value, key) == Ok(c)
  {
    DecipheredLetters(c, key);
    var plain := Unshift(c, key);
    ShiftOfUnshift(c, key);
    NoSpacesStrip(plain);
    EncipheredOk(plain, key);
    EncipheredShift(plain, key);
  }

  lemma ShiftOfUnshift(c: string, key: string)
    requires AllLetters(key) && forall i :: 0 <= i < |c| ==> !FailsAt(c, key, i)
    ensures |c| == 0 || |key| > 0
    ensures AllLetters(Unshift(c, key)) && |Unshift(c, key)| == |c|
    ensures Shift(Unshift(c, key), key) == c
  {
    if |c| > 0 {
      assert !FailsAt(c, key, 0);
    }
    var out := Shift(Unshift(c, key), key);
    forall j | 0 <= j < |c| ensures out[j] == c[j] {
      ShiftOfUnshiftAt(c, key, j);
    }
  }

  lemma ShiftOfUnshiftAt(c: string, key: string, j: nat)
    requires AllLetters(key) && j < |c| && |key| > 0
    requires forall i :: 0 <= i < |c| ==> !FailsAt(c, key, i)
    ensures Shift(Unshift(c, key), key)[j] == c[j]
  {
    var plain := Unshift(c, key);
    var keys := Indices(key);
    var out := Shift(plain, key);
    var m := j % |key|;
    assert plain[j] == PlainAt(c, key, j);
    assert out[j] == Symbol((Idx(plain[j]) + keys[m]) % 29);
    assert keys[m] == Idx(key[m]);
    ShiftedForthAt(c[j], key[m], plain[j], out[j]);
  }

  /** One letter: adding then subtracting the key letter gives it back. */
  lemma ShiftedBackAt(x: char, k: char, o: char, p: char)
    requires IsLetter(x) && IsLetter(k)
    requires o == Symbol((Idx(x) + Idx(k)) % 29)
    requires p == Symbol((Idx(o) - Idx(k)) % 29)
    ensures p == x
  {
    IndexOfSymbol((Idx(x) + Idx(k)) % 29);
    ShiftBack(Idx(x), Idx(k));
  }

  /** One letter: subtracting then adding the key letter gives it back. */
  lemma ShiftedForthAt(x: char, k: char, p: char, o: char)
    requires IsLetter(x) && IsLetter(k)
    requires p == Symbol((Idx(x) - Idx(k)) % 29)
    requires o == Symbol((Idx(p) + Idx(k)) % 29)
    ensures o == x
  {
    IndexOfSymbol((Idx(x) - Idx(k)) % 29);
    ShiftForth(Idx(x), Idx(k));
  }

  lemma LettersAppend(s: string, c: char)
    ensures AllLetters(s + [c]) <==> AllLetters(s) && IsLetter(c)
  {
    var t := s + [c];
    assert forall i :: 0 <= i < |s| ==> t[i] == s[i];
    assert t[|s|] == c;
  }

  lemma NoSpacesStrip(s: string)
    requires AllLetters(s)
    ensures StripSpaces(s) == s
  {
  }

  /** Adding then subtracting a key index, modulo 29, gives the letter back. */
  lemma ShiftBack(a: Sym, b: Sym)
    ensures (((a + b) % 29) - b) % 29 == a
  {
    if a + b >= 29 {
      assert (a + b) % 29 == a + b - 29;
    }
  }

  /** Subtracting then adding a key index, modulo 29, gives the letter back. */
  lemma ShiftForth(a: Sym, b: Sym)
    ensures (((a - b) % 29) + b) % 29 == a
  {
    if a < b {
      assert (a - b) % 29 == a - b + 29;
    }
  }
}
