/**
 Whole runs of the cache: any sequence of push and get on a cache of a given
 capacity. The main result is the exact hit law, which decides every lookup from the
 history alone.
 */
module LruRuns {
  import opened Prelude
  import opened RecencyList

  datatype Op<K, V> = Push(key: K, value: V) | Get(key: K)

  function Apply<K(==, !new), V(!new)>(cap: nat, s: seq<Entry<K, V>>, op: Op<K, V>): seq<Entry<K, V>> {
    match op
    case Push(k, v) => RecencyList.Push(cap, s, k, v)
    case Get(k) => Touch(s, k)
  }

  /** The cache after a run, starting empty. */
  function Run<K(==, !new), V(!new)>(cap: nat, ops: seq<Op<K, V>>): seq<Entry<K, V>> {
    if ops == [] then [] else Apply(cap, Run(cap, ops[..|ops| - 1]), ops[|ops| - 1])
  }

  lemma {:induction false} RunShape<K(!new), V(!new)>(cap: nat, ops: seq<Op<K, V>>)
    ensures Distinct(Run(cap, ops)) && |Run(cap, ops)| <= cap
  {
    if ops != [] {
      var before := Run(cap, ops[..|ops| - 1]);
      var op := ops[|ops| - 1];
      RunShape(cap, ops[..|ops| - 1]);
      match op
      case Push(k, v) => PushKeepsShape(cap, before, k, v);
      case Get(k) => TouchKeepsShape(cap, before, k);
    }
  }

  // ---- The history of a run ----

  /** The value of the most recent push of k. */
  function LastPush<K(==, !new), V(!new)>(ops: seq<Op<K, V>>, k: K): Option<V> {
    if ops == [] then None
    else
      match ops[|ops| - 1]
      case Push(key, v) => if key == k then Some(v) else LastPush(ops[..|ops| - 1], k)
      case Get(_) => LastPush(ops[..|ops| - 1], k)
  }

  /** The keys pushed or hit, oldest first. A missed get leaves no trace. */
  function Uses<K(==, !new), V(!new)>(cap: nat, ops: seq<Op<K, V>>): seq<K> {
    if ops == [] then []
    else
      var before := ops[..|ops| - 1];
      match ops[|ops| - 1]
      case Push(k, _) => Uses(cap, before) + [k]
      case Get(k) => if Lookup(Run(cap, before), k).Some? then Uses(cap, before) + [k] else Uses(cap, before)
  }

  /** The distinct keys used after the last use of k. */
  function UsedSince<K(==, !new)>(uses: seq<K>, k: K): set<K> {
    if uses == [] || uses[|uses| - 1] == k then {}
    else {uses[|uses| - 1]} + UsedSince(uses[..|uses| - 1], k)
  }

  // ---- An unbounded recency order, to place every key ever used ----

  function Without<K(==, !new)>(s: seq<K>, k: K): seq<K> {
    if s == [] then [] else if s[0] == k then Without(s[1..], k) else [s[0]] + Without(s[1..], k)
  }

  /** All keys used, most recent first, each once. */
  function Recency<K(==, !new)>(uses: seq<K>): seq<K> {
    if uses == [] then []
    else [uses[|uses| - 1]] + Without(Recency(uses[..|uses| - 1]), uses[|uses| - 1])
  }

  /** The keys in front of k. */
  function Before<K(==, !new)>(s: seq<K>, k: K): set<K> {
    if s == [] || s[0] == k then {} else {s[0]} + Before(s[1..], k)
  }

  function Keys<K(!new), V(!new)>(s: seq<Entry<K, V>>): seq<K> {
    seq(|s|, i requires 0 <= i < |s| => s[i].key)
  }

  lemma {:induction false} WithoutMembers<K(!new)>(s: seq<K>, k: K)
    ensures forall x :: x in Without(s, k) <==> x in s && x != k
    ensures k !in s ==> Without(s, k) == s
  {
    if s != [] {
      WithoutMembers(s[1..], k);
      assert s == [s[0]] + s[1..];
    }
  }

  lemma {:induction false} WithoutNoRepeats<K(!new)>(s: seq<K>, k: K)
    requires NoRepeats(s)
    ensures NoRepeats(Without(s, k))
  {
    if s != [] {
      var r := Without(s[1..], k);
      WithoutNoRepeats(s[1..], k);
      WithoutMembers(s[1..], k);
      forall i | 0 <= i < |r| ensures r[i] != s[0] {
        assert r[i] in r;
        assert r[i] in s[1..];
      }
    }
  }

  lemma {:induction false} WithoutBefore<K(!new)>(s: seq<K>, x: K, k: K)
    requires x != k
    ensures Before(Without(s, x), k) == Before(s, k) - {x}
  {
    if s != [] {
      WithoutBefore(s[1..], x, k);
      if s[0] != x { assert ([s[0]] + Without(s[1..], x))[1..] == Without(s[1..], x); }
    }
  }

  /** Cutting a list before or after taking a key out is the same, up to one place. */
  lemma {:induction false} WithoutTake<K(!new)>(s: seq<K>, n: nat, k: K)
    requires NoRepeats(s)
    ensures Take(n, Without(Take(n + 1, s), k)) == Take(n, Without(s, k))
  {
    if s != [] {
      var t := s[1..];
      assert Take(n + 1, s) == [s[0]] + Take(n, t);
      assert Take(n + 1, s)[1..] == Take(n, t);
      if s[0] == k {
        assert k !in t;
        WithoutMembers(t, k);
        WithoutMembers(Take(n, t), k);
      } else if n > 0 {
        WithoutTake(t, n - 1, k);
        assert Take(n, [s[0]] + Without(t, k)) == [s[0]] + Take(n - 1, Without(t, k));
        assert Take(n, [s[0]] + Without(Take(n, t), k)) == [s[0]] + Take(n - 1, Without(Take(n, t), k));
      }
    }
  }

  lemma {:induction false} RecencyMembers<K(!new)>(uses: seq<K>)
    ensures forall k :: k in Recency(uses) <==> k in uses
  {
    if uses != [] {
      var before, last := uses[..|uses| - 1], uses[|uses| - 1];
      RecencyMembers(before);
      WithoutMembers(Recency(before), last);
      assert uses == before + [last];
    }
  }

  lemma {:induction false} RecencyNoRepeats<K(!new)>(uses: seq<K>)
    ensures NoRepeats(Recency(uses))
  {
    if uses != [] {
      var before, last := uses[..|uses| - 1], uses[|uses| - 1];
      var r := Without(Recency(before), last);
      RecencyNoRepeats(before);
      WithoutNoRepeats(Recency(before), last);
      WithoutMembers(Recency(before), last);
      assert last !in r;
    }
  }

  /** What lies in front of k in recency order is what was used since k. */
  lemma {:induction false} RecencyBefore<K(!new)>(uses: seq<K>, k: K)
    ensures Before(Recency(uses), k) == UsedSince(uses, k)
  {
    if uses != [] && uses[|uses| - 1] != k {
      var before := uses[..|uses| - 1];
      var last := uses[|uses| - 1];
      RecencyBefore(before, k);
      WithoutBefore(Recency(before), last, k);
      assert Recency(uses)[1..] == Without(Recency(before), last);
    }
  }

  /** In a list without repeats, k is among the first n iff fewer than n keys precede it. */
  lemma {:induction false} BeforeRank<K(!new)>(s: seq<K>, n: nat, k: K)
    requires NoRepeats(s) && k in s
    ensures k in Take(n, s) <==> |Before(s, k)| < n
  {
    if s[0] == k {
      assert n > 0 ==> Take(n, s)[0] == k;
    } else {
      var t := s[1..];
      assert s == [s[0]] + t;
      if n > 0 {
        BeforeRank(t, n - 1, k);
        assert Take(n, s) == [s[0]] + Take(n - 1, t);
      }
      BeforeMembers(t, k);
      assert s[0] !in t;
    }
  }

  lemma {:induction false} BeforeMembers<K(!new)>(s: seq<K>, k: K)
    ensures forall x :: x in Before(s, k) ==> x in s
  {
    if s != [] { BeforeMembers(s[1..], k); }
  }

  lemma {:induction false} KeysOfRemove<K(!new), V(!new)>(s: seq<Entry<K, V>>, k: K)
    ensures Keys(Remove(s, k)) == Without(Keys(s), k)
  {
    if s != [] {
      KeysOfRemove(s[1..], k);
      assert Keys(s)[1..] == Keys(s[1..]);
      assert Keys([s[0]] + Remove(s[1..], k)) == [s[0].key] + Keys(Remove(s[1..], k));
    }
  }

  lemma KeysOfTake<K(!new), V(!new)>(n: nat, s: seq<Entry<K, V>>)
    ensures Keys(Take(n, s)) == Take(n, Keys(s))
  {
  }

  lemma TakeFront<T>(n: nat, x: T, s: seq<T>)
    requires 1 <= n
    ensures Take(n, [x] + s) == [x] + Take(n - 1, s)
  {
  }

  /** Using a key rearranges the bounded cache as it rearranges the full recency order. */
  lemma KeysOfPush<K(!new), V(!new)>(cap: nat, s: seq<Entry<K, V>>, uses: seq<K>, k: K, v: V)
    requires 1 <= cap && Keys(s) == Take(cap, Recency(uses))
    ensures Keys(RecencyList.Push(cap, s, k, v)) == Take(cap, Recency(uses + [k]))
  {
    var full := Recency(uses);
    RecencyNoRepeats(uses);
    assert (uses + [k])[..|uses|] == uses;
    assert Recency(uses + [k]) == [k] + Without(full, k);
    var pushed := [Entry(k, v)] + Remove(s, k);
    KeysOfTake(cap, pushed);
    assert Keys(pushed) == [k] + Keys(Remove(s, k));
    KeysOfRemove(s, k);
    TakeFront(cap, k, Without(Keys(s), k));
    TakeFront(cap, k, Without(full, k));
    WithoutTake(full, cap - 1, k);
  }

  /** The cache holds exactly the first cap keys of the full recency order. */
  lemma {:induction false} RunKeys<K(!new), V(!new)>(cap: nat, ops: seq<Op<K, V>>)
    requires 1 <= cap
    ensures Keys(Run(cap, ops)) == Take(cap, Recency(Uses(cap, ops)))
  {
    if ops != [] {
      var before := ops[..|ops| - 1];
      var s := Run(cap, before);
      RunKeys(cap, before);
      match ops[|ops| - 1]
      case Push(k, v) =>
        KeysOfPush(cap, s, Uses(cap, before), k, v);
      case Get(k) =>
        LookupFacts(s, k);
        if HasKey(s, k) {
          RunShape(cap, before);
          TouchIsPush(cap, s, k);
          KeysOfPush(cap, s, Uses(cap, before), k, Lookup(s, k).value);
        }
    }
  }

  /** Every entry carries the value of the last push of its key. */
  lemma {:induction false} RunValues<K(!new), V(!new)>(cap: nat, ops: seq<Op<K, V>>, e: Entry<K, V>)
    requires e in Run(cap, ops)
    ensures LastPush(ops, e.key) == Some(e.value)
  {
    var before := ops[..|ops| - 1];
    var s := Run(cap, before);
    match ops[|ops| - 1]
    case Push(k, v) =>
      RemoveMembers(s, k);
      assert e in [Entry(k, v)] + Remove(s, k);
      if e.key != k { RunValues(cap, before, e); }
    case Get(k) =>
      RemoveMembers(s, k);
      LookupFacts(s, k);
      assert e in s;
      RunValues(cap, before, e);
  }

  /** A key has been used iff it has been pushed. */
  lemma {:induction false} UsedIffPushed<K(!new), V(!new)>(cap: nat, ops: seq<Op<K, V>>, k: K)
    ensures k in Uses(cap, ops) <==> LastPush(ops, k).Some?
  {
    if ops != [] {
      var before := ops[..|ops| - 1];
      UsedIffPushed(cap, before, k);
      match ops[|ops| - 1]
      case Push(_, _) =>
      case Get(key) =>
        var s := Run(cap, before);
        LookupFacts(s, key);
        if key == k && Lookup(s, k).Some? { RunValues(cap, before, Entry(k, Lookup(s, k).value)); }
    }
  }

  /**
   The exact hit law. After any run, get(k) hits iff k has been pushed and fewer than
   cap distinct other keys have been pushed or hit since k was last pushed or hit;
   a hit returns the value of k's most recent push.
   */
  lemma HitLaw<K(!new), V(!new)>(cap: nat, ops: seq<Op<K, V>>, k: K)
    requires 1 <= cap
    ensures Lookup(Run(cap, ops), k)
         == if |UsedSince(Uses(cap, ops), k)| < cap then LastPush(ops, k) else None
  {
    var s := Run(cap, ops);
    var uses := Uses(cap, ops);
    LookupFacts(s, k);
    UsedIffPushed(cap, ops, k);
    RunKeys(cap, ops);
    RecencyMembers(uses);
    RecencyNoRepeats(uses);
    RecencyBefore(uses, k);
    if Lookup(s, k).Some? {
      RunValues(cap, ops, Entry(k, Lookup(s, k).value));
    }
    if HasKey(s, k) {
      var i :| 0 <= i < |s| && s[i].key == k;
      assert Keys(s)[i] == k;
    }
    if k in Keys(s) {
      var i :| 0 <= i < |Keys(s)| && Keys(s)[i] == k;
      assert s[i].key == k;
    }
    if k in uses { BeforeRank(Recency(uses), cap, k); }
  }
}
