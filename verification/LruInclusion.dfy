/**
 Two caches of different capacity fed the same run of push and get. Because a missed
 get inserts nothing, the recency orders of the two caches drift apart; what survives
 is that the small cache stays a subsequence of the large one.
 */
module LruInclusion {
  import opened Prelude
  import opened RecencyList
  import opened LruRuns

  predicate Subsequence<T(==)>(a: seq<T>, b: seq<T>) {
    a == [] || (b != [] && (if a[0] == b[0] then Subsequence(a[1..], b[1..]) else Subsequence(a, b[1..])))
  }

  lemma {:induction false} SubsequenceWiden<T>(a: seq<T>, b: seq<T>)
    requires b != [] && Subsequence(a, b[1..])
    ensures Subsequence(a, b)
    decreases |b|, 0
  {
    if a != [] && a[0] == b[0] { SubsequenceTail(a, b[1..]); }
  }

  lemma {:induction false} SubsequenceTail<T>(a: seq<T>, b: seq<T>)
    requires a != [] && Subsequence(a, b)
    ensures Subsequence(a[1..], b)
    decreases |b|, 1
  {
    if a[0] != b[0] { SubsequenceTail(a, b[1..]); }
    SubsequenceWiden(a[1..], b);
  }

  /** A prefix of a subsequence is a subsequence. */
  lemma {:induction false} SubsequencePrefix<T>(a: seq<T>, b: seq<T>, n: nat)
    requires n <= |a| && Subsequence(a, b)
    ensures Subsequence(a[..n], b)
    decreases |b|
  {
    if n > 0 {
      if a[0] == b[0] {
        SubsequencePrefix(a[1..], b[1..], n - 1);
        assert a[..n][1..] == a[1..][..n - 1];
      } else {
        SubsequencePrefix(a, b[1..], n);
      }
    }
  }

  /** Dropping the last element of both lists keeps the relation. */
  lemma {:induction false} SubsequenceDropLast<T>(a: seq<T>, b: seq<T>)
    requires a != [] && Subsequence(a, b)
    ensures b != [] && Subsequence(a[..|a| - 1], b[..|b| - 1])
    decreases |b|
  {
    var a', b' := a[..|a| - 1], b[..|b| - 1];
    if a[0] == b[0] {
      if |a| > 1 {
        SubsequenceDropLast(a[1..], b[1..]);
        assert a'[1..] == a[1..][..|a| - 2] && b'[1..] == b[1..][..|b| - 2];
      }
    } else {
      SubsequenceDropLast(a, b[1..]);
      assert b'[1..] == b[1..][..|b| - 2];
      SubsequenceWiden(a', b');
    }
  }

  lemma {:induction false} SubsequenceMembers<T(!new)>(a: seq<T>, b: seq<T>)
    requires Subsequence(a, b)
    ensures forall x :: x in a ==> x in b
    decreases |b|
  {
    if a != [] {
      if a[0] == b[0] {
        SubsequenceMembers(a[1..], b[1..]);
        assert a == [a[0]] + a[1..];
      } else {
        SubsequenceMembers(a, b[1..]);
      }
    }
  }

  lemma {:induction false} SubsequenceRemove<K(!new), V(!new)>(a: seq<Entry<K, V>>, b: seq<Entry<K, V>>, k: K)
    requires Subsequence(a, b)
    ensures Subsequence(Remove(a, k), Remove(b, k))
    decreases |b|
  {
    if a != [] {
      var rb := Remove(b[1..], k);
      if a[0] == b[0] {
        SubsequenceRemove(a[1..], b[1..], k);
        assert ([a[0]] + Remove(a[1..], k))[1..] == Remove(a[1..], k);
      } else {
        SubsequenceRemove(a, b[1..], k);
      }
      assert ([b[0]] + rb)[1..] == rb;
      if a[0] != b[0] && b[0].key != k { SubsequenceWiden(Remove(a, k), Remove(b, k)); }
    }
  }

  /**
   The inductive relation: the small list is a subsequence of the large one, and
   unless it is full the two are equal (it has never evicted anything).
   */
  ghost predicate Included<K(!new), V(!new)>(m: nat, a: seq<Entry<K, V>>, n: nat, b: seq<Entry<K, V>>) {
    && Distinct(a) && |a| <= m
    && Distinct(b) && |b| <= n
    && Subsequence(a, b)
    && (|a| == m || a == b)
  }

  lemma IncludedLookup<K(!new), V(!new)>(m: nat, a: seq<Entry<K, V>>, n: nat, b: seq<Entry<K, V>>, k: K)
    requires Included(m, a, n, b)
    ensures Lookup(a, k).Some? ==> Lookup(b, k) == Lookup(a, k)
    ensures HasKey(a, k) ==> HasKey(b, k)
  {
    LookupFacts(a, k);
    LookupFacts(b, k);
    SubsequenceMembers(a, b);
  }

  lemma PushKeepsIncluded<K(!new), V(!new)>(
    m: nat, a: seq<Entry<K, V>>, n: nat, b: seq<Entry<K, V>>, k: K, v: V)
    requires 1 <= m <= n && Included(m, a, n, b)
    ensures Included(m, RecencyList.Push(m, a, k, v), n, RecencyList.Push(n, b, k, v))
  {
    var ra, rb := Remove(a, k), Remove(b, k);
    var e := Entry(k, v);
    PushKeepsShape(m, a, k, v);
    PushKeepsShape(n, b, k, v);
    RemoveFacts(a, k);
    RemoveFacts(b, k);
    SubsequenceRemove(a, b, k);
    IncludedLookup(m, a, n, b, k);
    var ta, tb := Take(m - 1, ra), Take(n - 1, rb);
    assert RecencyList.Push(m, a, k, v) == [e] + ta;
    assert RecencyList.Push(n, b, k, v) == [e] + tb;
    if |rb| <= n - 1 {
      SubsequencePrefix(ra, rb, |ta|);
      assert ta == ra[..|ta|] && tb == rb;
    } else {
      assert ra == a && rb == b && |a| == m && |b| == n;
      SubsequenceDropLast(ra, rb);
      assert ta == ra[..|ra| - 1] && tb == rb[..|rb| - 1];
    }
    assert Subsequence(ta, tb);
    assert ([e] + ta)[1..] == ta && ([e] + tb)[1..] == tb;
  }

  lemma TouchKeepsIncluded<K(!new), V(!new)>(
    m: nat, a: seq<Entry<K, V>>, n: nat, b: seq<Entry<K, V>>, k: K)
    requires 1 <= m <= n && Included(m, a, n, b)
    ensures Included(m, Touch(a, k), n, Touch(b, k))
  {
    LookupFacts(a, k);
    LookupFacts(b, k);
    IncludedLookup(m, a, n, b, k);
    if HasKey(a, k) {
      TouchIsPush(m, a, k);
      TouchIsPush(n, b, k);
      PushKeepsIncluded(m, a, n, b, k, Lookup(a, k).value);
    } else if HasKey(b, k) {
      TouchKeepsShape(n, b, k);
      RemoveFacts(a, k);
      SubsequenceRemove(a, b, k);
      assert Touch(b, k)[1..] == Remove(b, k);
      SubsequenceWiden(a, Touch(b, k));
    }
  }

  /**
   Inclusion. For capacities 1 <= m <= n and any run, the small cache is a
   subsequence of the large one, so every hit in the small cache is a hit with the
   same value in the large one.
   */
  lemma {:induction false} RunsIncluded<K(!new), V(!new)>(m: nat, n: nat, ops: seq<Op<K, V>>)
    requires 1 <= m <= n
    ensures Included(m, Run(m, ops), n, Run(n, ops))
    ensures Subsequence(Run(m, ops), Run(n, ops))
    ensures forall k :: Lookup(Run(m, ops), k).Some? ==> Lookup(Run(n, ops), k) == Lookup(Run(m, ops), k)
  {
    if ops != [] {
      var before := ops[..|ops| - 1];
      RunsIncluded(m, n, before);
      match ops[|ops| - 1]
      case Push(k, v) => PushKeepsIncluded(m, Run(m, before), n, Run(n, before), k, v);
      case Get(k) => TouchKeepsIncluded(m, Run(m, before), n, Run(n, before), k);
    }
    forall k ensures Lookup(Run(m, ops), k).Some? ==> Lookup(Run(n, ops), k) == Lookup(Run(m, ops), k) {
      IncludedLookup(m, Run(m, ops), n, Run(n, ops), k);
    }
  }
}
