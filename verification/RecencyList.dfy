/**
 The specification of the cache in core/5thdlru_cache.h: a plain bounded list of
 entries, most recent first, without duplicate keys.
 */
module RecencyList {
  import opened Prelude

  datatype Entry<K(!new), V(!new)> = Entry(key: K, value: V)

  /** The first n elements, or all of them when there are fewer. */
  function Take<T>(n: nat, s: seq<T>): seq<T> {
    s[..Min(n, |s|)]
  }

  predicate HasKey<K(==, !new), V(!new)>(s: seq<Entry<K, V>>, k: K) {
    exists i :: 0 <= i < |s| && s[i].key == k
  }

  ghost predicate Distinct<K(!new), V(!new)>(s: seq<Entry<K, V>>) {
    forall i, j :: 0 <= i < j < |s| ==> s[i].key != s[j].key
  }

  function Remove<K(==, !new), V(!new)>(s: seq<Entry<K, V>>, k: K): seq<Entry<K, V>> {
    if s == [] then []
    else if s[0].key == k then Remove(s[1..], k)
    else [s[0]] + Remove(s[1..], k)
  }

  function Lookup<K(==, !new), V(!new)>(s: seq<Entry<K, V>>, k: K): Option<V> {
    if s == [] then None
    else if s[0].key == k then Some(s[0].value)
    else Lookup(s[1..], k)
  }

  /** Put the entry in front, drop an older entry for the key, keep the first cap. */
  function Push<K(==, !new), V(!new)>(cap: nat, s: seq<Entry<K, V>>, k: K, v: V): seq<Entry<K, V>> {
    Take(cap, [Entry(k, v)] + Remove(s, k))
  }

  /** A hit moves its entry to the front; a miss changes nothing. */
  function Touch<K(==, !new), V(!new)>(s: seq<Entry<K, V>>, k: K): seq<Entry<K, V>> {
    match Lookup(s, k)
    case Some(v) => [Entry(k, v)] + Remove(s, k)
    case None => s
  }

  // ---- Facts about single lists ----

  lemma {:induction false} RemoveMembers<K(!new), V(!new)>(s: seq<Entry<K, V>>, k: K)
    ensures |Remove(s, k)| <= |s|
    ensures forall e :: e in Remove(s, k) <==> e in s && e.key != k
  {
    if s != [] {
      RemoveMembers(s[1..], k);
      assert s == [s[0]] + s[1..];
    }
  }

  lemma {:induction false} RemoveMissing<K(!new), V(!new)>(s: seq<Entry<K, V>>, k: K)
    requires !HasKey(s, k)
    ensures Remove(s, k) == s
  {
    if s != [] {
      assert forall i :: 0 <= i < |s[1..]| ==> s[1..][i] == s[i + 1];
      RemoveMissing(s[1..], k);
    }
  }

  lemma {:induction false} RemoveDistinct<K(!new), V(!new)>(s: seq<Entry<K, V>>, k: K)
    requires Distinct(s)
    ensures Distinct(Remove(s, k))
    ensures |Remove(s, k)| == if HasKey(s, k) then |s| - 1 else |s|
  {
    if !HasKey(s, k) {
      RemoveMissing(s, k);
    } else if s[0].key == k {
      assert !HasKey(s[1..], k);
      RemoveMissing(s[1..], k);
    } else {
      var t := s[1..];
      var i :| 0 <= i < |s| && s[i].key == k;
      assert t[i - 1].key == k;
      RemoveDistinct(t, k);
      RemoveMembers(t, k);
      var r := Remove(t, k);
      forall j | 0 <= j < |r| ensures r[j].key != s[0].key {
        var e := r[j];
        assert e in r;
        assert e in t;
        var i :| 0 <= i < |t| && t[i] == e;
        assert s[i + 1] == e;
      }
    }
  }

  lemma RemoveFacts<K(!new), V(!new)>(s: seq<Entry<K, V>>, k: K)
    requires Distinct(s)
    ensures forall e :: e in Remove(s, k) <==> e in s && e.key != k
    ensures Distinct(Remove(s, k))
    ensures |Remove(s, k)| == if HasKey(s, k) then |s| - 1 else |s|
    ensures !HasKey(s, k) ==> Remove(s, k) == s
  {
    RemoveMembers(s, k);
    RemoveDistinct(s, k);
    if !HasKey(s, k) { RemoveMissing(s, k); }
  }

  lemma {:induction false} LookupFacts<K(!new), V(!new)>(s: seq<Entry<K, V>>, k: K)
    ensures Lookup(s, k).Some? <==> HasKey(s, k)
    ensures Lookup(s, k).Some? ==> Entry(k, Lookup(s, k).value) in s
    ensures Distinct(s) ==> forall v :: Entry(k, v) in s ==> Lookup(s, k) == Some(v)
  {
    if s != [] {
      var t := s[1..];
      LookupFacts(t, k);
      assert s == [s[0]] + t;
      if s[0].key == k {
        assert s[0] == Entry(k, s[0].value);
        if Distinct(s) {
          forall v | Entry(k, v) in s ensures Lookup(s, k) == Some(v) {
            var i :| 0 <= i < |s| && s[i] == Entry(k, v);
          }
        }
      } else {
        assert HasKey(s, k) ==> HasKey(t, k) by {
          if i :| 0 <= i < |s| && s[i].key == k { assert t[i - 1].key == k; }
        }
        assert HasKey(t, k) ==> HasKey(s, k) by {
          if i :| 0 <= i < |t| && t[i].key == k { assert s[i + 1].key == k; }
        }
        if Distinct(s) { assert Distinct(t); }
      }
    }
  }

  /** Neither operation ever breaks the bound or duplicates a key. */
  lemma PushKeepsShape<K(!new), V(!new)>(cap: nat, s: seq<Entry<K, V>>, k: K, v: V)
    requires Distinct(s)
    ensures Distinct(Push(cap, s, k, v)) && |Push(cap, s, k, v)| <= cap
  {
    RemoveFacts(s, k);
    var r := Remove(s, k);
    assert forall i :: 0 <= i < |r| ==> r[i] in r;
    assert Distinct([Entry(k, v)] + r);
  }

  /** What a push leaves behind the new entry. */
  function Rest<K(==, !new), V(!new)>(cap: nat, s: seq<Entry<K, V>>, k: K): seq<Entry<K, V>>
    requires 1 <= cap
  {
    Take(cap - 1, Remove(s, k))
  }

  lemma PushIsFront<K(!new), V(!new)>(cap: nat, s: seq<Entry<K, V>>, k: K, v: V)
    requires 1 <= cap
    ensures Push(cap, s, k, v) == [Entry(k, v)] + Rest(cap, s, k)
  {
  }

  /** The three cases of a push, as the code distinguishes them. */
  lemma RestCases<K(!new), V(!new)>(cap: nat, s: seq<Entry<K, V>>, k: K)
    requires Distinct(s) && |s| <= cap && 1 <= cap
    ensures |Rest(cap, s, k)| < cap
    ensures HasKey(s, k) ==> Rest(cap, s, k) == Remove(s, k)
    ensures !HasKey(s, k) && |s| < cap ==> Rest(cap, s, k) == s
    ensures !HasKey(s, k) && |s| == cap ==> Rest(cap, s, k) == s[..cap - 1]
  {
    RemoveFacts(s, k);
  }

  /** A hit behaves as a push of the value already held. */
  lemma TouchIsPush<K(!new), V(!new)>(cap: nat, s: seq<Entry<K, V>>, k: K)
    requires Distinct(s) && |s| <= cap && HasKey(s, k)
    ensures Lookup(s, k).Some?
    ensures Touch(s, k) == Push(cap, s, k, Lookup(s, k).value)
  {
    LookupFacts(s, k);
    RemoveFacts(s, k);
  }

  lemma TouchKeepsShape<K(!new), V(!new)>(cap: nat, s: seq<Entry<K, V>>, k: K)
    requires Distinct(s) && |s| <= cap
    ensures Distinct(Touch(s, k)) && |Touch(s, k)| <= cap
  {
    LookupFacts(s, k);
    if HasKey(s, k) {
      TouchIsPush(cap, s, k);
      PushKeepsShape(cap, s, k, Lookup(s, k).value);
    }
  }
}
