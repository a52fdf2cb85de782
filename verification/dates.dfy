/** Calendar dates as the store and the market-data API write them: ISO
    `YYYY-MM-DD` strings. For strings of that shape the lexicographic order on
    characters is the chronological order, so `Before` is "earlier than". */
module Dates {

  /** Strict lexicographic order on strings (a proper prefix comes first). */
  predicate Before(a: string, b: string)
  {
    |b| > 0 && (|a| == 0 || a[0] < b[0] || (a[0] == b[0] && Before(a[1..], b[1..])))
  }

  /** The later of two dates (the first one when neither is before the other). */
  function Later(a: string, b: string): (r: string)
    ensures r == a || r == b
    ensures !Before(r, a) && !Before(r, b)
  {
    BeforeAsymmetric(a, b);
    BeforeIrreflexive(a);
    BeforeIrreflexive(b);
    BeforeConnected(a, b);
    if Before(a, b) then b else a
  }

  lemma {:induction false} BeforeIrreflexive(a: string)
    ensures !Before(a, a)
  {
    if |a| > 0 {
      BeforeIrreflexive(a[1..]);
    }
  }

  lemma {:induction false} BeforeAsymmetric(a: string, b: string)
    ensures Before(a, b) ==> !Before(b, a)
  {
    if |a| > 0 && |b| > 0 && a[0] == b[0] {
      BeforeAsymmetric(a[1..], b[1..]);
    }
  }

  lemma {:induction false} BeforeTransitive(a: string, b: string, c: string)
    requires Before(a, b) && Before(b, c)
    ensures Before(a, c)
  {
    if |a| > 0 && a[0] == b[0] && b[0] == c[0] {
      BeforeTransitive(a[1..], b[1..], c[1..]);
    }
  }

  /** Two distinct dates are always ordered one way or the other. */
  lemma {:induction false} BeforeConnected(a: string, b: string)
    ensures a == b || Before(a, b) || Before(b, a)
  {
    if |a| > 0 && |b| > 0 && a[0] == b[0] {
      BeforeConnected(a[1..], b[1..]);
      if a[1..] == b[1..] {
        assert a == [a[0]] + a[1..] && b == [b[0]] + b[1..];
      }
    }
  }
}
