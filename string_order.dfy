/** Python's `<` on `str`: code points are compared one by one from the left,
    the first difference decides, and a proper prefix is smaller than the
    longer string. Dafny's own `<` on sequences means "proper prefix", so the
    order the active-window filter relies on is defined here explicitly. */
module StringOrder {

  /** `a < b` as Python evaluates it on two strings. */
  predicate Less(a: string, b: string)
    decreases |a|
  {
    if b == [] then false
    else if a == [] then true
    else if a[0] != b[0] then a[0] < b[0]
    else Less(a[1..], b[1..])
  }

  /** `a <= b` as Python evaluates it on two strings. */
  predicate LessOrEqual(a: string, b: string)
  {
    Less(a, b) || a == b
  }

  lemma {:induction false} Irreflexive(a: string)
    ensures !Less(a, a)
  {
    if a != [] {
      Irreflexive(a[1..]);
    }
  }

  lemma {:induction false} Asymmetric(a: string, b: string)
    requires Less(a, b)
    ensures !Less(b, a)
  {
    if a != [] && a[0] == b[0] {
      Asymmetric(a[1..], b[1..]);
    }
  }

  lemma {:induction false} Transitive(a: string, b: string, c: string)
    requires Less(a, b) && Less(b, c)
    ensures Less(a, c)
  {
    if a != [] && a[0] == b[0] && b[0] == c[0] {
      Transitive(a[1..], b[1..], c[1..]);
    }
  }

  /** Any two strings are comparable: the order is total. */
  lemma {:induction false} Trichotomy(a: string, b: string)
    ensures Less(a, b) || a == b || Less(b, a)
  {
    if a != [] && b != [] && a[0] == b[0] {
      Trichotomy(a[1..], b[1..]);
      if a[1..] == b[1..] {
        assert a == [a[0]] + a[1..];
        assert b == [b[0]] + b[1..];
      }
    }
  }

  /** Negating a strict test gives the non-strict test the other way round:
      `not (a < b)` is `b <= a`. */
  lemma {:induction false} NotLessIsGreaterOrEqual(a: string, b: string)
    ensures !Less(a, b) <==> LessOrEqual(b, a)
  {
    Trichotomy(a, b);
    if Less(b, a) {
      Asymmetric(b, a);
    }
    if a == b {
      Irreflexive(a);
    }
  }

  /** A proper prefix (Dafny's `<` on sequences) is smaller in this order. */
  lemma {:induction false} ProperPrefixIsLess(a: string, b: string)
    requires a < b
    ensures Less(a, b)
  {
    if a != [] {
      assert a[0] == b[0];
      assert a[1..] < b[1..] by {
        assert a[1..] == b[1..|a|];
      }
      ProperPrefixIsLess(a[1..], b[1..]);
    }
  }

  /** Two strings that agree on their first `k` characters and differ at
      position `k` are ordered by the characters at position `k`. */
  lemma {:induction false} FirstDifferenceDecides(a: string, b: string, k: nat)
    requires k < |a| && k < |b|
    requires a[..k] == b[..k] && a[k] < b[k]
    ensures Less(a, b)
  {
    if k > 0 {
      assert a[0] == a[..k][0] == b[..k][0] == b[0];
      assert a[1..][..k - 1] == a[..k][1..] == b[..k][1..] == b[1..][..k - 1];
      FirstDifferenceDecides(a[1..], b[1..], k - 1);
    }
  }
}
