/**
 Runs of a shared slot pool. Every call holds the pool's mutex, so any interleaving of
 threads is a sequence of calls; each call is made through some owner's slot pointer.
 On the free slots the steps are those that GetSlot and ReleaseSlot promise for their
 free list (AfterGet, AfterRelease): a stack that starts as 0, 1, ..., size - 1.
 */
module SlotOwnership {
  import opened Prelude
  import opened SlotPool

  /** A slot pointer variable of some thread. */
  type Owner = nat

  datatype Call = Get(owner: Owner) | Release(owner: Owner)

  /** held: the pointers that are not null, and the slots they point at. */
  datatype State = State(free: seq<nat>, held: map<Owner, nat>)

  ghost function Init(size: nat): State {
    State(Range(0, size), map[])
  }

  function Step(s: State, call: Call): State {
    match call
    case Get(o) =>
      State(AfterGet(s.free), if s.free == [] then s.held - {o} else s.held[o := s.free[0]])
    case Release(o) =>
      if o in s.held then State(AfterRelease(s.free, s.held[o]), s.held - {o}) else s
  }

  ghost function Run(size: nat, calls: seq<Call>): State {
    if calls == [] then Init(size) else Step(Run(size, calls[..|calls| - 1]), calls[|calls| - 1])
  }

  /** No slot has two owners, and none is both owned and free. */
  ghost predicate Exclusive(size: nat, s: State) {
    && NoRepeats(s.free)
    && (forall i :: i in s.free ==> i < size)
    && (forall o :: o in s.held ==> s.held[o] < size && s.held[o] !in s.free)
    && (forall o, p :: o in s.held && p in s.held && o != p ==> s.held[o] != s.held[p])
  }

  lemma StepKeepsExclusive(size: nat, s: State, call: Call)
    requires Exclusive(size, s)
    ensures Exclusive(size, Step(s, call))
  {
    var s' := Step(s, call);
    match call
    case Get(o) =>
      if s.free != [] {
        assert forall j :: 0 <= j < |s'.free| ==> s'.free[j] == s.free[j + 1];
        assert forall i :: i in s'.free ==> i in s.free;
        assert s.free[0] in s.free && s.free[0] !in s'.free;
        forall p | p in s'.held ensures s'.held[p] < size && s'.held[p] !in s'.free {
          if p != o { assert s'.held[p] == s.held[p]; }
        }
      }
    case Release(o) =>
      forall p | p in s'.held ensures s'.held[p] !in s'.free {
        assert s'.held[p] == s.held[p];
      }
  }

  /** In any interleaving of gets and releases no slot is held by two owners. */
  lemma {:induction false} NoTwoOwners(size: nat, calls: seq<Call>)
    ensures Exclusive(size, Run(size, calls))
  {
    if calls == [] {
      assert forall i :: 0 <= i < size ==> Range(0, size)[i] == i;
    } else {
      NoTwoOwners(size, calls[..|calls| - 1]);
      StepKeepsExclusive(size, Run(size, calls[..|calls| - 1]), calls[|calls| - 1]);
    }
  }

  /** No owner overwrites a pointer that still holds a slot. */
  ghost predicate Careful(size: nat, calls: seq<Call>)
  {
    calls == [] ||
    (var before := calls[..|calls| - 1];
     var call := calls[|calls| - 1];
     Careful(size, before) && (call.Get? ==> call.owner !in Run(size, before).held))
  }

  /**
   With careful owners every slot is either free or held by exactly one owner, so the
   next get returns null iff all size slots are held.
   */
  lemma {:induction false} NullIffAllHeld(size: nat, calls: seq<Call>)
    requires Careful(size, calls)
    ensures |Run(size, calls).free| + |Run(size, calls).held| == size
    ensures Run(size, calls).free == [] <==> |Run(size, calls).held| == size
  {
    if calls != [] {
      var before := calls[..|calls| - 1];
      var call := calls[|calls| - 1];
      var s := Run(size, before);
      NullIffAllHeld(size, before);
      if call.owner in s.held {
        assert s.held.Keys == (s.held - {call.owner}).Keys + {call.owner};
        assert |s.held - {call.owner}| == |s.held| - 1 by {
          assert |(s.held - {call.owner}).Keys| == |s.held.Keys| - 1;
        }
      } else {
        assert s.held - {call.owner} == s.held;
      }
    }
  }

  /** A slot taken and given back straight away leaves the pool as it was. */
  lemma GetThenReleaseRestores(size: nat, calls: seq<Call>, o: Owner)
    requires o !in Run(size, calls).held
    ensures Run(size, calls + [Get(o), Release(o)]) == Run(size, calls)
  {
    var once := calls + [Get(o)];
    var twice := calls + [Get(o), Release(o)];
    assert once[..|calls|] == calls && twice[..|once|] == once;
    var s := Run(size, calls);
    if s.free != [] {
      assert Step(Step(s, Get(o)), Release(o)).held == s.held;
    } else {
      assert s.held - {o} == s.held;
    }
  }

  /** Conversely, a slot given back is the very next one to be handed out. */
  lemma ReleaseThenGetReturnsIt(size: nat, calls: seq<Call>, o: Owner, p: Owner)
    requires o in Run(size, calls).held
    ensures var s := Run(size, calls + [Release(o), Get(p)]);
            p in s.held && s.held[p] == Run(size, calls).held[o] && s.free == Run(size, calls).free
  {
    var once := calls + [Release(o)];
    var twice := calls + [Release(o), Get(p)];
    assert once[..|calls|] == calls && twice[..|once|] == once;
  }
}
