/** Sending through a DEALER socket, core/transmitter.cpp. */
module Transmitter {
  import opened Prelude
  import opened IpcMessage
  import opened Frames
  import opened SlotPool

  datatype SendResult = Sent | BufferFull | InvalidIdentity | FailSendFrame

  class Transmitter {
    const identity: seq<Byte>
    const pool: SlotPool

    constructor (identity: seq<Byte>, pool: SlotPool)
      ensures this.identity == identity && this.pool == pool
    {
      this.identity, this.pool := identity, pool;
    }

    /**
     The sends made while a slot is held. The socket accepts the first failAt frames
     and refuses the next one; nothing is sent after a refusal.
     */
    method SendFrames(data: seq<Byte>, identityFrame: seq<Byte>, failAt: nat)
      returns (result: SendResult, sent: seq<Frame>)
      ensures sent == Outgoing(identityFrame, data)[..Min(failAt, |Outgoing(identityFrame, data)|)]
      ensures result == if |Outgoing(identityFrame, data)| <= failAt then Sent else FailSendFrame
      ensures |sent| >= 1 ==> sent[0] == Frame(identityFrame, true)
      ensures |sent| >= 2 ==> sent[1] == Frame([], true) && Concat(sent[2..]) <= data
      ensures result == Sent ==> |sent| >= 2 && Concat(sent[2..]) == data
      ensures result == FailSendFrame ==> |sent| == failAt && forall i :: 0 <= i < failAt ==> sent[i].more
    {
      ghost var all := Outgoing(identityFrame, data);
      OutgoingPrefix(identityFrame, data, Min(failAt, |all|));
      sent := [];
      if |sent| == failAt { return FailSendFrame, sent; }
      sent := sent + [Frame(identityFrame, true)];
      if |sent| == failAt { return FailSendFrame, sent; }
      sent := sent + [Frame([], true)];
      var rest := data;
      while |rest| > 0
        invariant sent + Chunks(rest) == all && |sent| <= failAt
        decreases |rest|
      {
        var min := Min(|rest|, MESSAGE_SIZE);
        if |sent| == failAt {
          assert sent == all[..failAt];
          return FailSendFrame, sent;
        }
        assert Chunks(rest) == [Frame(rest[..min], |rest| > min)] + Chunks(rest[min..]);
        sent := sent + [Frame(rest[..min], |rest| > min)];
        rest := rest[min..];
      }
      assert sent == all[..|all|];
      return Sent, sent;
    }

    /**
     Takes a slot, sends, and gives the slot back on every path, so that the pool is
     left exactly as it was. identityFrame is whatever the slot's identity part holds.
     */
    method Send(data: seq<Byte>, identityFrame: seq<Byte>, failAt: nat)
      returns (result: SendResult, sent: seq<Frame>)
      requires pool.Valid()
      modifies pool, pool.inUse, pool.next
      ensures pool.Valid()
      ensures pool.FreeList() == old(pool.FreeList())
      ensures pool.currentFree == old(pool.currentFree) && pool.usedCount == old(pool.usedCount)
      ensures pool.next[..] == old(pool.next[..]) && pool.inUse[..] == old(pool.inUse[..])
      ensures result == BufferFull <==> old(pool.usedCount) == pool.size
      ensures result == InvalidIdentity <==> old(pool.usedCount) < pool.size && identity == []
      ensures result in {BufferFull, InvalidIdentity} ==> sent == []
      ensures result !in {BufferFull, InvalidIdentity} ==>
                var all := Outgoing(identityFrame, data);
                && sent == all[..Min(failAt, |all|)]
                && result == if |all| <= failAt then Sent else FailSendFrame
      ensures |sent| >= 1 ==> sent[0] == Frame(identityFrame, true)
      ensures |sent| >= 2 ==> sent[1] == Frame([], true) && Concat(sent[2..]) <= data
      ensures result == Sent ==> |sent| >= 2 && Concat(sent[2..]) == data
      ensures result == FailSendFrame ==> |sent| == failAt && forall i :: 0 <= i < failAt ==> sent[i].more
    {
      var full := pool.IsFull();
      if full {
        return BufferFull, [];
      }
      var slot := pool.GetSlot();
      if identity == [] {
        result, sent := InvalidIdentity, [];
      } else {
        result, sent := SendFrames(data, identityFrame, failAt);
      }
      var released, _ := pool.ReleaseSlot(slot);
    }
  }
}
