/** Small definitions shared by all models. */
module Prelude {
  /** A null pointer, a missed lookup, an absent row: anything that may not be there. */
  datatype Option<+T> = None | Some(value: T)

  function Min(a: nat, b: nat): nat {
    if a < b then a else b
  }

  ghost predicate NoRepeats<T(!new)>(s: seq<T>) {
    forall i, j :: 0 <= i < j < |s| ==> s[i] != s[j]
  }

  // ---- Products and quotients ----

  lemma MulLe(a: nat, b: nat, c: nat)
    ensures a <= b ==> a * c <= b * c
  {
    if a <= b {
      assert b * c == a * c + (b - a) * c;
      assert (b - a) * c >= 0;
    }
  }

  /** A number written as d * q + r with a small r has quotient q. */
  lemma QuotientIsUnique(u: nat, d: nat, q: nat, r: nat)
    requires d > 0 && u == q * d + r && r < d
    ensures u / d == q
  {
    var q', r' := u / d, u % d;
    assert u == q' * d + r';
    MulLe(q + 1, q', d);
    MulLe(q' + 1, q, d);
    assert (q + 1) * d == q * d + d;
    assert (q' + 1) * d == q' * d + d;
  }

  /** Dividing by 256 and then by p is dividing once by the product. */
  lemma DivideTwice(u: nat, p: nat)
    requires p > 0
    ensures (u / 256) / p == u / (256 * p)
  {
    var v := u / 256;
    var q, r := v / p, v % p;
    assert v == q * p + r;
    assert q * (256 * p) == 256 * (q * p);
    QuotientIsUnique(u, 256 * p, q, 256 * r + u % 256);
  }
}
