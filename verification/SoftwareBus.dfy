/** The message handler of the software bus, 5thD_Software_Bus/core/src/software_bus.cpp. */
module SoftwareBus {
  import opened Prelude
  import opened IpcMessage
  import opened Frames
  import opened SlotPool
  import opened BusRouting

  /** The frames of a forward to one client. */
  function ForwardFrames(identity: seq<Byte>, msg: Message): seq<Frame> {
    [Frame(identity, true), Frame([], true), Frame(Encode(msg), false)]
  }

  /**
   A forward is one multipart message to its addressee, who is left with the delimiter and
   the payload once the ROUTER socket has used up the identity frame, and reads the very
   message the bus received.
   */
  lemma ForwardArrives(to: seq<Byte>, msg: Message)
    ensures var frames := ForwardFrames(to, msg);
            && |frames| == FORWARD_FRAMES
            && Multipart(frames) && frames[0].bytes == to && frames[1].bytes == []
            && LastMessage(frames[1..]) == Some(Encode(msg))
            && Decode(LastMessage(frames[1..]).value) == msg
  {
    var rest := ForwardFrames(to, msg)[1..];
    assert rest[|rest| - 1] == Frame(Encode(msg), false);
    DecodeEncode(msg);
  }

  class SoftwareBus {
    const pool: SlotPool
    var clients: map<int, seq<Byte>>

    ghost predicate Valid()
      reads this, pool, pool.inUse, pool.next
    {
      pool.Valid()
    }

    ghost function State(): View
      reads this, pool
    {
      View(clients, pool.usedCount)
    }

    constructor (pool: SlotPool)
      requires pool.Valid() && pool.usedCount == 0
      ensures Valid() && this.pool == pool && State() == View(map[], 0)
    {
      this.pool := pool;
      clients := map[];
    }

    /** The three sends of a forward; the socket accepts the first failAt frames. */
    method SendFrames(msg: Message, identity: seq<Byte>, failAt: nat) returns (isErr: bool, sent: seq<Frame>)
      ensures isErr <==> failAt < FORWARD_FRAMES
      ensures sent == ForwardFrames(identity, msg)[..Min(failAt, FORWARD_FRAMES)]
    {
      sent := [];
      if |sent| == failAt { return true, sent; }
      sent := sent + [Frame(identity, true)];
      if |sent| == failAt { return true, sent; }
      sent := sent + [Frame([], true)];
      if |sent| == failAt { return true, sent; }
      sent := sent + [Frame(Encode(msg), false)];
      return false, sent;
    }

    /**
     Forwards a message. A refused frame, the one case in which the code returns an error,
     ends the call without giving the slot back.
     */
    method SendMessage(msg: Message, identity: seq<Byte>, failAt: nat)
      returns (outcome: Outcome, sent: seq<Frame>)
      requires pool.Valid()
      modifies pool, pool.inUse, pool.next
      ensures pool.Valid()
      ensures outcome == if old(pool.usedCount) == pool.size then NoSlot
                         else if failAt < FORWARD_FRAMES then SendFailed(identity)
                         else Forwarded(identity)
      ensures outcome.Forwarded? ==>
                sent == [Frame(identity, true), Frame([], true), Frame(Encode(msg), false)]
      ensures outcome.SendFailed? ==>
                failAt < 3 && sent == [Frame(identity, true), Frame([], true), Frame(Encode(msg), false)][..failAt]
      ensures outcome == NoSlot ==> sent == []
      ensures pool.FreeList() == if outcome.SendFailed? then old(pool.FreeList())[1..] else old(pool.FreeList())
      ensures pool.usedCount == old(pool.usedCount) + if outcome.SendFailed? then 1 else 0
      ensures forall i :: 0 <= i < pool.size && old(pool.inUse[i]) ==> pool.inUse[i]
    {
      var slot := pool.GetSlot();
      if slot == None {
        return NoSlot, [];
      }
      var isErr;
      isErr, sent := SendFrames(msg, identity, failAt);
      if isErr {
        return SendFailed(identity), sent;
      }
      var released, _ := pool.ReleaseSlot(slot);
      return Forwarded(identity), sent;
    }

    /** Reads the parts after the routing id; each message-sized one overwrites the last. */
    method ReceiveParts(frames: seq<Frame>) returns (data: Option<Message>, read: nat)
      requires Multipart(frames) && |frames| >= 2
      ensures read == |frames|
      ensures data == match LastMessage(frames[1..])
                      case Some(bytes) => Some(Decode(bytes))
                      case None => None
    {
      data, read := None, 1;
      var more := true;
      while more
        invariant 1 <= read <= |frames| && (more <==> read < |frames|)
        invariant data == match LastMessage(frames[1..read])
                          case Some(bytes) => Some(Decode(bytes))
                          case None => None
        decreases |frames| - read
      {
        var part := frames[read];
        assert frames[1..read + 1] == frames[1..read] + [part];
        assert frames[1..read + 1][..read - 1] == frames[1..read];
        if |part.bytes| == MESSAGE_SIZE {
          data := Some(Decode(part.bytes));
        }
        more := part.more;
        read := read + 1;
      }
      assert frames[1..read] == frames[1..];
    }

    /** The first locked block: only an unknown source id is bound to the sender. */
    method RegisterSender(id: int, sender: seq<Byte>)
      modifies this`clients
      ensures clients == Register(old(clients), id, sender)
    {
      if id !in clients {
        clients := clients[id := sender];
      }
    }

    /**
     The part of the handler after reading: register the sender, look the destination up,
     forward. The slot used for receiving is still out, hence the minus one.
     */
    method Route(msg: Message, sender: seq<Byte>, failAt: nat) returns (outcome: Outcome, sent: seq<Frame>)
      requires pool.Valid() && pool.usedCount >= 1
      modifies this, pool, pool.inUse, pool.next
      ensures pool.Valid() && pool.usedCount >= 1
      ensures clients == Register(old(clients), msg.srcId, sender)
      ensures outcome == Fate(pool.size, old(pool.usedCount), clients, Arrival(sender, msg, failAt))
      ensures pool.usedCount == old(pool.usedCount) + if outcome.SendFailed? then 1 else 0
      ensures outcome.Forwarded? ==>
                sent == [Frame(outcome.to, true), Frame([], true), Frame(Encode(msg), false)]
      ensures outcome.SendFailed? ==>
                failAt < 3 && sent == [Frame(outcome.to, true), Frame([], true), Frame(Encode(msg), false)][..failAt]
      ensures !outcome.Forwarded? && !outcome.SendFailed? ==> sent == []
      ensures forall i :: 0 <= i < pool.size && old(pool.inUse[i]) ==> pool.inUse[i]
    {
      sent := [];
      RegisterSender(msg.srcId, sender);
      if msg.distId !in clients {
        return NoDestination, sent;
      }
      outcome, sent := SendMessage(msg, clients[msg.distId], failAt);
    }

    /** The handler between taking the receive slot and giving it back. */
    method ReadAndRoute(frames: seq<Frame>, failAt: nat) returns (outcome: Outcome, sent: seq<Frame>)
      requires pool.Valid() && pool.usedCount >= 1
      requires Multipart(frames) && |frames| >= 2 && LastMessage(frames[1..]).Some?
      modifies this, pool, pool.inUse, pool.next
      ensures pool.Valid() && pool.usedCount >= 1
      ensures (View(clients, pool.usedCount - 1), outcome)
           == Handle(pool.size, View(old(clients), old(pool.usedCount) - 1),
                     Arrival(frames[0].bytes, Decode(LastMessage(frames[1..]).value), failAt))
      ensures outcome.Forwarded? ==>
                sent == [Frame(outcome.to, true), Frame([], true), Frame(LastMessage(frames[1..]).value, false)]
      ensures outcome.SendFailed? ==>
                && failAt < 3
                && sent == [Frame(outcome.to, true), Frame([], true), Frame(LastMessage(frames[1..]).value, false)][..failAt]
      ensures !outcome.Forwarded? && !outcome.SendFailed? ==> sent == []
      ensures forall i :: 0 <= i < pool.size && old(pool.inUse[i]) ==> pool.inUse[i]
    {
      var data, _ := ReceiveParts(frames);
      EncodeDecode(LastMessage(frames[1..]).value);
      outcome, sent := Route(data.value, frames[0].bytes, failAt);
    }

    /** The cleanup that runs on every way out of the handler: it gives the receive slot back. */
    method Cleanup(slot: Option<int>, ghost index: nat)
      requires pool.Valid() && index < pool.size && pool.inUse[index]
      requires slot == Some(pool.AddressOf(index))
      modifies pool, pool.inUse, pool.next
      ensures pool.Valid() && pool.usedCount == old(pool.usedCount) - 1
    {
      var released, _ := pool.ReleaseSlot(slot);
    }

    /**
     One incoming multipart message: routing id first, then the sender's frames, at least
     one of them message-sized. identityRead says whether reading the routing id succeeds.
     */
    method HandleMsg(frames: seq<Frame>, identityRead: bool, failAt: nat)
      returns (outcome: Outcome, sent: seq<Frame>)
      requires Valid()
      requires Multipart(frames) && |frames| >= 2 && LastMessage(frames[1..]).Some?
      modifies this, pool, pool.inUse, pool.next
      ensures Valid()
      ensures !identityRead ==> State() == old(State()) && outcome == NotRead && sent == []
      ensures identityRead ==>
                var msg := Decode(LastMessage(frames[1..]).value);
                (State(), outcome) == Handle(pool.size, old(State()), Arrival(frames[0].bytes, msg, failAt))
      ensures outcome.Forwarded? ==>
                sent == [Frame(outcome.to, true), Frame([], true), Frame(LastMessage(frames[1..]).value, false)]
      ensures outcome.SendFailed? ==>
                && failAt < 3
                && sent == [Frame(outcome.to, true), Frame([], true), Frame(LastMessage(frames[1..]).value, false)][..failAt]
      ensures !outcome.Forwarded? && !outcome.SendFailed? ==> sent == []
    {
      sent := [];
      var slot := pool.GetSlot();
      if slot == None {
        return NotRead, sent;
      }
      ghost var index := old(pool.FreeList())[0];
      if !identityRead {
        Cleanup(slot, index);
        return NotRead, sent;
      }
      outcome, sent := ReadAndRoute(frames, failAt);
      Cleanup(slot, index);
    }
  }
}
