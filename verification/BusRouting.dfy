/**
 What the software bus does with a run of messages, as a function of the messages: its
 routing table, the slots it has lost to failed sends, and where each message goes.
 */
module BusRouting {
  import opened Prelude
  import opened IpcMessage

  /** lost: the pool slots in use between messages. */
  datatype View = View(clients: map<int, seq<Byte>>, lost: nat)

  /** A message, the routing id it came from, and how many frames of its forward the socket accepts. */
  datatype Arrival = Arrival(sender: seq<Byte>, msg: Message, failAt: nat)

  datatype Outcome = NotRead | NoDestination | NoSlot | SendFailed(to: seq<Byte>) | Forwarded(to: seq<Byte>)

  /** The frames of a forward: identity, delimiter, message. */
  const FORWARD_FRAMES: nat := 3

  function Register(clients: map<int, seq<Byte>>, id: int, sender: seq<Byte>): map<int, seq<Byte>> {
    if id in clients then clients else clients[id := sender]
  }

  /** What a message comes to once its sender is registered and a slot is out for receiving it. */
  function Fate(size: nat, used: nat, clients: map<int, seq<Byte>>, a: Arrival): Outcome {
    if a.msg.distId !in clients then NoDestination
    else if used == size then NoSlot
    else if a.failAt < FORWARD_FRAMES then SendFailed(clients[a.msg.distId])
    else Forwarded(clients[a.msg.distId])
  }

  function Handle(size: nat, v: View, a: Arrival): (View, Outcome) {
    if v.lost == size then (v, NotRead)
    else
      var clients := Register(v.clients, a.msg.srcId, a.sender);
      var fate := Fate(size, v.lost + 1, clients, a);
      (View(clients, v.lost + if fate.SendFailed? then 1 else 0), fate)
  }

  /** The bus after a run, starting with no client and a full pool. */
  function Run(size: nat, run: seq<Arrival>): View {
    if run == [] then View(map[], 0) else Handle(size, Run(size, run[..|run| - 1]), run[|run| - 1]).0
  }

  /** What becomes of the last message of a run. */
  function Last(size: nat, run: seq<Arrival>): Outcome
    requires run != []
  {
    Handle(size, Run(size, run[..|run| - 1]), run[|run| - 1]).1
  }

  // ---- The history ----

  /** The routing id of the first message that gave id as its source. */
  function FirstSender(run: seq<Arrival>, id: int): Option<seq<Byte>> {
    if run == [] then None
    else if run[0].msg.srcId == id then Some(run[0].sender)
    else FirstSender(run[1..], id)
  }

  /** The message has a destination that some message so far, itself included, came from. */
  predicate Addressed(run: seq<Arrival>)
    requires run != []
  {
    FirstSender(run, run[|run| - 1].msg.distId).Some?
  }

  /** How many addressed messages of the run meet a socket that refuses one of their frames. */
  function Refused(run: seq<Arrival>): nat {
    if run == [] then 0
    else Refused(run[..|run| - 1]) + (if Addressed(run) && run[|run| - 1].failAt < FORWARD_FRAMES then 1 else 0)
  }

  lemma {:induction false} FirstSenderAppend(run: seq<Arrival>, a: Arrival, id: int)
    ensures FirstSender(run + [a], id)
         == if FirstSender(run, id).Some? then FirstSender(run, id)
            else if a.msg.srcId == id then Some(a.sender) else None
  {
    if run == [] {
      assert run + [a] == [a];
    } else {
      FirstSenderAppend(run[1..], a, id);
      assert (run + [a])[1..] == run[1..] + [a];
    }
  }

  /** The bus always keeps one slot: a send needs a second one beside the receive slot. */
  lemma {:induction false} LostBelowSize(size: nat, run: seq<Arrival>)
    requires size >= 1
    ensures Run(size, run).lost < size
  {
    if run != [] { LostBelowSize(size, run[..|run| - 1]); }
  }

  /** What the table holds for one id. */
  function Binding(clients: map<int, seq<Byte>>, id: int): Option<seq<Byte>> {
    if id in clients then Some(clients[id]) else None
  }

  lemma HandleBinds(size: nat, v: View, a: Arrival, id: int)
    requires v.lost < size
    ensures Binding(Handle(size, v, a).0.clients, id)
         == if Binding(v.clients, id).Some? then Binding(v.clients, id)
            else if a.msg.srcId == id then Some(a.sender) else None
  {
  }

  /** The routing table is the history: each id is bound to its first sender. */
  lemma {:induction false} TableIsHistory(size: nat, run: seq<Arrival>, id: int)
    requires size >= 1
    ensures FirstSender(run, id) == Binding(Run(size, run).clients, id)
  {
    if run != [] {
      var before, a := run[..|run| - 1], run[|run| - 1];
      assert run == before + [a];
      TableIsHistory(size, before, id);
      LostBelowSize(size, before);
      FirstSenderAppend(before, a, id);
      HandleBinds(size, Run(size, before), a, id);
    }
  }

  /**
   Slot accounting: between messages, the slots in use are exactly the refused sends so
   far, up to size - 1 and no further, so every message gets its receive slot and is read.
   */
  lemma {:induction false} SlotAccounting(size: nat, run: seq<Arrival>)
    requires size >= 1
    ensures Run(size, run).lost == Min(Refused(run), size - 1)
    ensures run != [] ==> Last(size, run) != NotRead
  {
    if run != [] {
      var before, a := run[..|run| - 1], run[|run| - 1];
      SlotAccounting(size, before);
      TableIsHistory(size, run, a.msg.distId);
    }
  }

  /**
   The routing law: what becomes of a message, from the messages alone. It goes to the
   sender of the earliest message so far, itself included, whose source is its
   destination. It is forwarded there iff its frames are accepted and fewer than size - 1
   sends were refused before; with fewer than that and a frame refused it fails there; after
   size - 1 refusals it is dropped for want of a slot.
   */
  lemma RoutingLaw(size: nat, run: seq<Arrival>)
    requires size >= 1 && run != []
    ensures var a := run[|run| - 1];
            var slots := Refused(run[..|run| - 1]) < size - 1;
            Last(size, run) == match FirstSender(run, a.msg.distId)
                               case None => NoDestination
                               case Some(to) =>
                                 if !slots then NoSlot
                                 else if a.failAt < FORWARD_FRAMES then SendFailed(to)
                                 else Forwarded(to)
  {
    var before, a := run[..|run| - 1], run[|run| - 1];
    SlotAccounting(size, before);
    TableIsHistory(size, run, a.msg.distId);
  }

  /** A binding once made never changes. */
  lemma {:induction false} BindingsArePermanent(size: nat, run: seq<Arrival>, more: seq<Arrival>, id: int)
    requires size >= 1 && id in Run(size, run).clients
    ensures Binding(Run(size, run + more).clients, id) == Binding(Run(size, run).clients, id)
    decreases |more|
  {
    if more == [] {
      assert run + more == run;
    } else {
      var some := more[..|more| - 1];
      BindingsArePermanent(size, run, some, id);
      assert (run + more)[..|run + more| - 1] == run + some;
    }
  }

  lemma {:induction false} RefusedGrows(run: seq<Arrival>, more: seq<Arrival>)
    ensures Refused(run) <= Refused(run + more)
    decreases |more|
  {
    if more == [] {
      assert run + more == run;
    } else {
      RefusedGrows(run, more[..|more| - 1]);
      assert (run + more)[..|run + more| - 1] == run + more[..|more| - 1];
    }
  }

  /** After size - 1 refused sends the bus never forwards anything again. */
  lemma ExhaustedForGood(size: nat, run: seq<Arrival>, more: seq<Arrival>)
    requires size >= 1 && Refused(run) >= size - 1 && more != []
    ensures Last(size, run + more) == NoDestination || Last(size, run + more) == NoSlot
  {
    var all := run + more;
    assert all[..|all| - 1] == run + more[..|more| - 1];
    RefusedGrows(run, more[..|more| - 1]);
    NoSlotLeft(size, all);
  }

  lemma NoSlotLeft(size: nat, run: seq<Arrival>)
    requires size >= 1 && run != [] && Refused(run[..|run| - 1]) >= size - 1
    ensures Last(size, run) == NoDestination || Last(size, run) == NoSlot
  {
    RoutingLaw(size, run);
  }
}
