/**
 Multipart messages as sequences of frames with a more flag, how the transmitter cuts
 a payload into them (core/transmitter.cpp), and what the bus keeps of them
 (5thD_Software_Bus/core/src/software_bus.cpp).
 */
module Frames {
  import opened Prelude
  import opened IpcMessage

  datatype Frame = Frame(bytes: seq<Byte>, more: bool)

  /** Exactly the last frame lacks the more flag. */
  ghost predicate Multipart(frames: seq<Frame>) {
    frames != [] && forall i :: 0 <= i < |frames| ==> (frames[i].more <==> i < |frames| - 1)
  }

  function Concat(frames: seq<Frame>): seq<Byte> {
    if frames == [] then [] else frames[0].bytes + Concat(frames[1..])
  }

  /** The data frames of a payload. An empty payload has none. */
  function Chunks(data: seq<Byte>): seq<Frame> {
    if data == [] then []
    else
      var min := Min(|data|, MESSAGE_SIZE);
      [Frame(data[..min], |data| > min)] + Chunks(data[min..])
  }

  /** All frames of one send: identity, empty delimiter, data. */
  function Outgoing(identity: seq<Byte>, data: seq<Byte>): seq<Frame> {
    [Frame(identity, true), Frame([], true)] + Chunks(data)
  }

  lemma {:induction false} ChunksConcat(data: seq<Byte>)
    ensures Concat(Chunks(data)) == data
  {
    if data != [] {
      var min := Min(|data|, MESSAGE_SIZE);
      ChunksConcat(data[min..]);
      assert Chunks(data)[1..] == Chunks(data[min..]);
      assert data == data[..min] + data[min..];
    }
  }

  lemma {:induction false} ChunksCount(data: seq<Byte>)
    ensures |Chunks(data)| == (|data| + MESSAGE_SIZE - 1) / MESSAGE_SIZE
  {
    if data != [] {
      ChunksCount(data[Min(|data|, MESSAGE_SIZE)..]);
    }
  }

  /** Every chunk but the last is full, the last is not empty, and only it lacks the more flag. */
  lemma {:induction false} ChunksShape(data: seq<Byte>)
    requires data != []
    ensures Multipart(Chunks(data))
    ensures var c := Chunks(data);
            && (forall i :: 0 <= i < |c| - 1 ==> |c[i].bytes| == MESSAGE_SIZE)
            && 1 <= |c[|c| - 1].bytes| <= MESSAGE_SIZE
  {
    var min := Min(|data|, MESSAGE_SIZE);
    var rest := data[min..];
    if rest != [] {
      ChunksShape(rest);
      var c := Chunks(data);
      assert c[1..] == Chunks(rest);
      forall i | 0 <= i < |c| ensures c[i].more <==> i < |c| - 1 {
        if i > 0 { assert c[i] == Chunks(rest)[i - 1]; }
      }
      forall i | 0 <= i < |c| - 1 ensures |c[i].bytes| == MESSAGE_SIZE {
        if i > 0 { assert c[i] == Chunks(rest)[i - 1]; }
      }
      assert c[|c| - 1] == Chunks(rest)[|Chunks(rest)| - 1];
    }
  }

  /**
   Chunking: after the identity and the empty delimiter, the data frames of a non-empty
   payload put together are the payload, there are ceil(n / 302) of them, and all but the
   last are full and carry the more flag.
   */
  lemma ChunkingLaw(identity: seq<Byte>, data: seq<Byte>)
    requires data != []
    ensures Multipart(Outgoing(identity, data))
    ensures var frames := Outgoing(identity, data);
            var c := frames[2..];
            && frames[0] == Frame(identity, true) && frames[1] == Frame([], true)
            && Concat(c) == data
            && |c| == (|data| + MESSAGE_SIZE - 1) / MESSAGE_SIZE
            && (forall i :: 0 <= i < |c| - 1 ==> |c[i].bytes| == MESSAGE_SIZE)
            && 1 <= |c[|c| - 1].bytes| <= MESSAGE_SIZE
  {
    ChunksConcat(data);
    ChunksCount(data);
    ChunksShape(data);
    var frames := Outgoing(identity, data);
    assert frames[2..] == Chunks(data);
    forall i | 0 <= i < |frames| ensures frames[i].more <==> i < |frames| - 1 {
      if i >= 2 { assert frames[i] == Chunks(data)[i - 2]; }
    }
  }

  lemma {:induction false} ConcatPrefix(frames: seq<Frame>, n: nat)
    requires n <= |frames|
    ensures Concat(frames[..n]) <= Concat(frames)
  {
    if n > 0 {
      ConcatPrefix(frames[1..], n - 1);
      assert frames[..n][1..] == frames[1..][..n - 1];
    }
  }

  /** What a send has emitted when the socket has accepted n of its frames. */
  lemma OutgoingPrefix(identity: seq<Byte>, data: seq<Byte>, n: nat)
    requires n <= |Outgoing(identity, data)|
    ensures var sent := Outgoing(identity, data)[..n];
            && (n >= 1 ==> sent[0] == Frame(identity, true))
            && (n >= 2 ==> sent[1] == Frame([], true))
            && (n >= 2 ==> Concat(sent[2..]) <= data)
            && (n == |Outgoing(identity, data)| ==> Concat(sent[2..]) == data)
            && (n < |Outgoing(identity, data)| ==> forall i :: 0 <= i < n ==> sent[i].more)
  {
    var all := Outgoing(identity, data);
    assert all[2..] == Chunks(data);
    ChunksConcat(data);
    if n >= 2 {
      ConcatPrefix(Chunks(data), n - 2);
      assert all[..n][2..] == Chunks(data)[..n - 2];
    }
    if data != [] { ChunkingLaw(identity, data); }
    if n == |all| { assert all[..n] == all; }
  }

  /** The last frame of exactly message size. */
  function LastMessage(frames: seq<Frame>): (last: Option<seq<Byte>>)
    ensures last.Some? ==> |last.value| == MESSAGE_SIZE
  {
    if frames == [] then None
    else if |frames[|frames| - 1].bytes| == MESSAGE_SIZE then Some(frames[|frames| - 1].bytes)
    else LastMessage(frames[..|frames| - 1])
  }

  /** It is the one after which no frame has message size; there is none iff no frame has. */
  lemma {:induction false} LastMessageIsLast(frames: seq<Frame>)
    ensures LastMessage(frames) == None <==> forall i :: 0 <= i < |frames| ==> |frames[i].bytes| != MESSAGE_SIZE
    ensures LastMessage(frames).Some? ==>
              exists i :: 0 <= i < |frames| && frames[i].bytes == LastMessage(frames).value
                && forall j :: i < j < |frames| ==> |frames[j].bytes| != MESSAGE_SIZE
  {
    if frames != [] && |frames[|frames| - 1].bytes| != MESSAGE_SIZE {
      var before := frames[..|frames| - 1];
      LastMessageIsLast(before);
      if LastMessage(before).Some? {
        var i :| 0 <= i < |before| && before[i].bytes == LastMessage(before).value
          && forall j :: i < j < |before| ==> |before[j].bytes| != MESSAGE_SIZE;
        assert |before[i].bytes| == MESSAGE_SIZE;
        forall j | i < j < |frames| ensures |frames[j].bytes| != MESSAGE_SIZE {
          if j < |before| { assert frames[j] == before[j]; }
        }
        assert frames[i].bytes == LastMessage(frames).value;
      }
    }
  }

  /**
   The message round trip. For every message, whatever the identity frame holds, the
   frames of its encoding with the routing id in front form one multipart message, and
   the receiver's last message-sized frame after the routing id decodes to it.
   */
  lemma MessageRoundTrip(m: Message, identity: seq<Byte>, routingId: seq<Byte>)
    ensures var frames := [Frame(routingId, true)] + Outgoing(identity, Encode(m));
            && Multipart(frames)
            && LastMessage(frames[1..]) == Some(Encode(m))
            && Decode(LastMessage(frames[1..]).value) == m
  {
    var sent := Outgoing(identity, Encode(m));
    var frames := [Frame(routingId, true)] + sent;
    ChunkingLaw(identity, Encode(m));
    assert frames[1..] == sent;
    assert Encode(m)[302..] == [] && Encode(m)[..302] == Encode(m);
    assert Chunks(Encode(m)) == [Frame(Encode(m), false)];
    assert sent[|sent| - 1] == Frame(Encode(m), false);
    DecodeEncode(m);
  }
}
