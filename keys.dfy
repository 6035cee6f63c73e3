/** The keys `product(ALPHABET, repeat=length)` produces, numbered in the
    order it produces them: key number `k` spells the `length` base-29 digits
    of `k`, most significant first, so the last letter changes fastest. */
module Keys {
  import opened Outcomes
  import opened Alphabet
  import opened Quadgrams

  /** How many keys of length `len` there are, 29 to the power `len`. */
  function KeyCount(len: nat): (n: nat)
    ensures n >= 1
  {
    if len == 0 then 1 else 29 * KeyCount(len - 1)
  }

  /** The `len` base-29 digits of `k`, most significant first. */
  function Digits(k: nat, len: nat): (ds: seq<Sym>)
    ensures |ds| == len
  {
    if len == 0 then [] else Digits(k / 29, len - 1) + [k % 29]
  }

  /** The number a sequence of digits denotes, most significant first. */
  function Number(ds: seq<Sym>): nat
  {
    if ds == [] then 0 else Number(ds[..|ds| - 1]) * 29 + ds[|ds| - 1]
  }

  /** Key number `k` of length `len`. */
  function KeyAt(k: nat, len: nat): (key: string)
    ensures |key| == len && AllLetters(key)
  {
    Spell(Digits(k, len))
  }

  /** The digits of `k` denote `k` when `k` is below the number of keys. */
  lemma {:induction false} NumberOfDigits(k: nat, len: nat)
    requires k < KeyCount(len)
    ensures Number(Digits(k, len)) == k
  {
    if len > 0 {
      var ds := Digits(k, len);
      assert ds[..len - 1] == Digits(k / 29, len - 1);
      NumberOfDigits(k / 29, len - 1);
    }
  }

  /** Every digit sequence is the digits of its number, and that number is
      below the number of keys: each key is produced exactly once. */
  lemma {:induction false} DigitsOfNumber(ds: seq<Sym>)
    ensures Number(ds) < KeyCount(|ds|)
    ensures Digits(Number(ds), |ds|) == ds
  {
    if ds != [] {
      var n := |ds| - 1;
      var front := ds[..n];
      DigitsOfNumber(front);
      DivMod29(Number(ds), Number(front), ds[n]);
      assert ds == front + [ds[n]];
    }
  }

  /** `a` comes before `b` in the alphabet's order, at the first position
      where they differ. */
  predicate LexLess(a: seq<Sym>, b: seq<Sym>)
  {
    exists i :: 0 <= i < |a| && i < |b| && a[..i] == b[..i] && a[i] < b[i]
  }

  /** Later key numbers are lexicographically later keys. */
  lemma {:induction false} DigitsOrder(k: nat, k': nat, len: nat)
    requires k < k' < KeyCount(len)
    ensures LexLess(Digits(k, len), Digits(k', len))
  {
    var q, q' := k / 29, k' / 29;
    if q < q' {
      DigitsOrder(q, q', len - 1);
      LexLessExtend(Digits(q, len - 1), Digits(q', len - 1), k % 29, k' % 29);
    } else {
      LexLessLast(Digits(q, len - 1), k % 29, k' % 29);
    }
  }

  /** Appending keeps an earlier difference. */
  lemma LexLessExtend(a: seq<Sym>, b: seq<Sym>, x: Sym, y: Sym)
    requires LexLess(a, b)
    ensures LexLess(a + [x], b + [y])
  {
    var i :| 0 <= i < |a| && i < |b| && a[..i] == b[..i] && a[i] < b[i];
    assert (a + [x])[..i] == a[..i] && (b + [y])[..i] == b[..i];
    assert (a + [x])[i] == a[i] && (b + [y])[i] == b[i];
  }

  /** Equal fronts are ordered by their last digits. */
  lemma LexLessLast(a: seq<Sym>, x: Sym, y: Sym)
    requires x < y
    ensures LexLess(a + [x], a + [y])
  {
    var n := |a|;
    assert (a + [x])[..n] == a && (a + [y])[..n] == a;
    assert (a + [x])[n] == x && (a + [y])[n] == y;
  }

  /** Distinct key numbers give distinct keys. */
  lemma KeyAtInjective(k: nat, k': nat, len: nat)
    requires k < KeyCount(len) && k' < KeyCount(len) && KeyAt(k, len) == KeyAt(k', len)
    ensures k == k'
  {
    var ds, ds' := Digits(k, len), Digits(k', len);
    forall i | 0 <= i < len ensures ds[i] == ds'[i] {
      assert Index(KeyAt(k, len)[i]) == Some(ds[i]);
    }
    assert ds == ds';
    NumberOfDigits(k, len);
    NumberOfDigits(k', len);
  }
}
