/** The base-29 number of a quadgram (four consecutive letters), the index
    shared by the frequency table and the fitness lookup. */
module Quadgrams {
  import opened Outcomes
  import opened Alphabet

  /** The number of distinct quadgrams, `ALPHABET_SIZE ** 4`. */
  const QuadSpace: nat := 29 * 29 * 29 * 29

  /** `a*29**3 + b*29**2 + c*29 + d`. */
  function QuadIndex(a: Sym, b: Sym, c: Sym, d: Sym): (x: nat)
    ensures x < QuadSpace
  {
    a * (29 * 29 * 29) + b * (29 * 29) + c * 29 + d
  }

  /** The four letters of a quadgram number, most significant first. */
  function QuadDigits(x: nat): (q: (Sym, Sym, Sym, Sym))
    requires x < QuadSpace
  {
    (x / 29 / 29 / 29, x / 29 / 29 % 29, x / 29 % 29, x % 29)
  }

  /** Decoding inverts the index formula: the digits of an index are its
      four letters. */
  lemma DigitsOfIndex(a: Sym, b: Sym, c: Sym, d: Sym)
    ensures QuadDigits(QuadIndex(a, b, c, d)) == (a, b, c, d)
  {
    var x := QuadIndex(a, b, c, d);
    DivMod29(x, a * (29 * 29) + b * 29 + c, d);
    DivMod29(x / 29, a * 29 + b, c);
    DivMod29(x / 29 / 29, a, b);
  }

  /** Division by 29 recovers quotient and remainder. */
  lemma DivMod29(n: int, q: int, r: int)
    requires n == 29 * q + r && 0 <= r < 29
    ensures n / 29 == q && n % 29 == r
  {
  }

  /** Every number below QuadSpace is the index of its four digits. */
  lemma IndexOfDigits(x: nat)
    requires x < QuadSpace
    ensures var q := QuadDigits(x); QuadIndex(q.0, q.1, q.2, q.3) == x
  {
    var q := QuadDigits(x);
    assert x == 29 * (x / 29) + q.3;
    assert x / 29 == 29 * (x / 29 / 29) + q.2;
    assert x / 29 / 29 == 29 * (x / 29 / 29 / 29) + q.1;
  }

  /** Distinct quadgrams have distinct indices. */
  lemma QuadIndexInjective(a: Sym, b: Sym, c: Sym, d: Sym, a': Sym, b': Sym, c': Sym, d': Sym)
    requires QuadIndex(a, b, c, d) == QuadIndex(a', b', c', d')
    ensures a == a' && b == b' && c == c' && d == d'
  {
    DigitsOfIndex(a, b, c, d);
    DigitsOfIndex(a', b', c', d');
  }

  /** The index of the quadgram starting at position `i`, or None when one of
      its four characters is outside the alphabet. */
  function QuadgramAt(s: string, i: nat): (r: Option<nat>)
    requires i + 4 <= |s|
    ensures r.Some? <==> AllLetters(s[i..i + 4])
    ensures r.Some? ==> r.value == QuadIndex(Idx(s[i]), Idx(s[i + 1]), Idx(s[i + 2]), Idx(s[i + 3]))
  {
    assert s[i..i + 4] == [s[i], s[i + 1], s[i + 2], s[i + 3]];
    match (Index(s[i]), Index(s[i + 1]), Index(s[i + 2]), Index(s[i + 3]))
    case (Some(a), Some(b), Some(c), Some(d)) => Some(QuadIndex(a, b, c, d))
    case _ => None
  }
}
