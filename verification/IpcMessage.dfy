/**
 The message of core/common/5thdipcmsg.h and its packed byte image on a little-endian
 machine with 32-bit int: 4 + 4 + 8 + 30 + 256 = 302 bytes.
 */
module IpcMessage {
  import opened Prelude

  type Byte = b: int | 0 <= b < 256

  const CATEGORY_LENGTH: nat := 30
  const DATA_LENGTH: nat := 256
  const MESSAGE_SIZE: nat := 302

  type Int32 = x: int | -0x8000_0000 <= x < 0x8000_0000
  type Int64 = x: int | -0x8000_0000_0000_0000 <= x < 0x8000_0000_0000_0000

  datatype RawMessage = Message(
    srcId: Int32,
    distId: Int32,
    timestamp: Int64,
    category: seq<Byte>,
    data: seq<Byte>)

  type Message = m: RawMessage | |m.category| == CATEGORY_LENGTH && |m.data| == DATA_LENGTH
    witness Message(0, 0, 0, seq(30, _ => 0), seq(256, _ => 0))

  function Pow256(k: nat): (p: nat)
    ensures p > 0
  {
    if k == 0 then 1 else 256 * Pow256(k - 1)
  }

  /** The k low bytes of u, least significant first. */
  function ToBytes(u: nat, k: nat): (s: seq<Byte>)
    ensures |s| == k
  {
    if k == 0 then [] else [u % 256] + ToBytes(u / 256, k - 1)
  }

  function FromBytes(s: seq<Byte>): nat {
    if s == [] then 0 else s[0] + 256 * FromBytes(s[1..])
  }

  lemma {:induction false} FromToBytes(u: nat, k: nat)
    requires u < Pow256(k)
    ensures FromBytes(ToBytes(u, k)) == u
  {
    if k > 0 {
      FromToBytes(u / 256, k - 1);
      assert ToBytes(u, k)[1..] == ToBytes(u / 256, k - 1);
    }
  }

  lemma {:induction false} ToFromBytes(s: seq<Byte>)
    ensures FromBytes(s) < Pow256(|s|)
    ensures ToBytes(FromBytes(s), |s|) == s
  {
    if s != [] {
      ToFromBytes(s[1..]);
      assert FromBytes(s) % 256 == s[0] && FromBytes(s) / 256 == FromBytes(s[1..]);
    }
  }

  /** Half the range of k bytes: the weight of the sign bit. */
  function Half(k: nat): (h: int)
    requires k > 0
    ensures 0 < h
  {
    128 * Pow256(k - 1)
  }

  /** Two's complement in k bytes. */
  function IntBytes(x: int, k: nat): (s: seq<Byte>)
    requires k > 0 && -Half(k) <= x < Half(k)
    ensures |s| == k
  {
    ToBytes(if x < 0 then x + Pow256(k) else x, k)
  }

  function BytesInt(s: seq<Byte>): int
    requires s != []
  {
    var u := FromBytes(s);
    if u < Half(|s|) then u else u - Pow256(|s|)
  }

  lemma IntRoundTrip(x: int, k: nat)
    requires k > 0 && -Half(k) <= x < Half(k)
    ensures BytesInt(IntBytes(x, k)) == x
  {
    FromToBytes(if x < 0 then x + Pow256(k) else x, k);
  }

  lemma BytesRoundTrip(s: seq<Byte>)
    requires s != []
    ensures -Half(|s|) <= BytesInt(s) < Half(|s|)
    ensures IntBytes(BytesInt(s), |s|) == s
  {
    var u := FromBytes(s);
    ToFromBytes(s);
    assert Pow256(|s|) == 2 * Half(|s|);
    assert (if BytesInt(s) < 0 then BytesInt(s) + Pow256(|s|) else BytesInt(s)) == u;
  }

  lemma WordSizes()
    ensures Pow256(4) == 2 * Half(4) == 0x1_0000_0000
    ensures Pow256(8) == 2 * Half(8) == 0x1_0000_0000_0000_0000
  {
    assert Pow256(1) == 256 * Pow256(0);
    assert Pow256(2) == 256 * Pow256(1);
    assert Pow256(3) == 256 * Pow256(2);
    assert Pow256(4) == 256 * Pow256(3);
    assert Pow256(5) == 256 * Pow256(4);
    assert Pow256(6) == 256 * Pow256(5);
    assert Pow256(7) == 256 * Pow256(6);
    assert Pow256(8) == 256 * Pow256(7);
  }

  function Encode(m: Message): (s: seq<Byte>)
    ensures |s| == MESSAGE_SIZE
  {
    WordSizes();
    IntBytes(m.srcId, 4) + IntBytes(m.distId, 4) + IntBytes(m.timestamp, 8) + m.category + m.data
  }

  function Decode(s: seq<Byte>): Message
    requires |s| == MESSAGE_SIZE
  {
    WordSizes();
    BytesRoundTrip(s[0..4]);
    BytesRoundTrip(s[4..8]);
    BytesRoundTrip(s[8..16]);
    Message(BytesInt(s[0..4]), BytesInt(s[4..8]), BytesInt(s[8..16]), s[16..46], s[46..302])
  }

  /** Byte j of an integer has weight 256 to the power j: little-endian. */
  lemma {:induction false} ByteAt(u: nat, k: nat, j: nat)
    requires j < k
    ensures ToBytes(u, k)[j] == (u / Pow256(j)) % 256
  {
    if j > 0 {
      ByteAt(u / 256, k - 1, j - 1);
      DivideTwice(u, Pow256(j - 1));
      assert ToBytes(u, k)[j] == ToBytes(u / 256, k - 1)[j - 1];
    }
  }

  /** Two's complement is counting modulo the range. */
  lemma Int32Bytes(x: Int32)
    ensures -Half(4) <= x < Half(4)
    ensures IntBytes(x, 4) == ToBytes(x % 0x1_0000_0000, 4)
  {
    WordSizes();
    assert x % 0x1_0000_0000 == if x < 0 then x + 0x1_0000_0000 else x;
  }

  lemma Int64Bytes(x: Int64)
    ensures -Half(8) <= x < Half(8)
    ensures IntBytes(x, 8) == ToBytes(x % 0x1_0000_0000_0000_0000, 8)
  {
    WordSizes();
    assert x % 0x1_0000_0000_0000_0000 == if x < 0 then x + 0x1_0000_0000_0000_0000 else x;
  }

  lemma Int32ByteAt(x: Int32, j: nat)
    requires j < 4
    ensures -Half(4) <= x < Half(4)
    ensures IntBytes(x, 4)[j] == ((x % 0x1_0000_0000) / Pow256(j)) % 256
  {
    Int32Bytes(x);
    ByteAt(x % 0x1_0000_0000, 4, j);
  }

  lemma Int64ByteAt(x: Int64, j: nat)
    requires j < 8
    ensures -Half(8) <= x < Half(8)
    ensures IntBytes(x, 8)[j] == ((x % 0x1_0000_0000_0000_0000) / Pow256(j)) % 256
  {
    Int64Bytes(x);
    ByteAt(x % 0x1_0000_0000_0000_0000, 8, j);
  }

  ghost predicate WordsFit(m: Message) {
    && -Half(4) <= m.srcId < Half(4)
    && -Half(4) <= m.distId < Half(4)
    && -Half(8) <= m.timestamp < Half(8)
  }

  /** Which byte of which integer a byte of the image is. */
  lemma ImageByte(m: Message, j: nat)
    requires j < 16 && WordsFit(m)
    ensures Encode(m)[j] == if j < 4 then IntBytes(m.srcId, 4)[j]
                            else if j < 8 then IntBytes(m.distId, 4)[j - 4]
                            else IntBytes(m.timestamp, 8)[j - 8]
  {
  }

  /** The integers are little-endian: byte j counts 256 to the power j. */
  lemma IntegersAreLittleEndian(m: Message, j: nat)
    ensures j < 4 ==> Encode(m)[j] == ((m.srcId % 0x1_0000_0000) / Pow256(j)) % 256
    ensures j < 4 ==> Encode(m)[4 + j] == ((m.distId % 0x1_0000_0000) / Pow256(j)) % 256
    ensures j < 8 ==> Encode(m)[8 + j] == ((m.timestamp % 0x1_0000_0000_0000_0000) / Pow256(j)) % 256
  {
    WordSizes();
    if j < 4 {
      Int32ByteAt(m.srcId, j);
      ImageByte(m, j);
      Int32ByteAt(m.distId, j);
      ImageByte(m, 4 + j);
    }
    if j < 8 {
      Int64ByteAt(m.timestamp, j);
      ImageByte(m, 8 + j);
    }
  }

  /** The fields lie packed in declaration order: offsets 0, 4, 8, 16 and 46. */
  lemma LayoutIsPacked(m: Message)
    ensures var s := Encode(m);
            && BytesInt(s[0..4]) == m.srcId && BytesInt(s[4..8]) == m.distId
            && BytesInt(s[8..16]) == m.timestamp
            && s[16..46] == m.category && s[46..] == m.data
  {
    WordSizes();
    IntRoundTrip(m.srcId, 4);
    IntRoundTrip(m.distId, 4);
    IntRoundTrip(m.timestamp, 8);
    var a, b, c := IntBytes(m.srcId, 4), IntBytes(m.distId, 4), IntBytes(m.timestamp, 8);
    var s := Encode(m);
    assert s[0..4] == a && s[4..8] == b && s[8..16] == c && s[16..46] == m.category && s[46..] == m.data;
  }

  lemma DecodeEncode(m: Message)
    ensures Decode(Encode(m)) == m
  {
    LayoutIsPacked(m);
    assert Encode(m)[46..302] == Encode(m)[46..];
  }

  /** Every 302-byte frame is the image of exactly one message. */
  lemma EncodeDecode(s: seq<Byte>)
    requires |s| == MESSAGE_SIZE
    ensures Encode(Decode(s)) == s
  {
    WordSizes();
    BytesRoundTrip(s[0..4]);
    BytesRoundTrip(s[4..8]);
    BytesRoundTrip(s[8..16]);
    assert s == s[0..4] + s[4..8] + s[8..16] + s[16..46] + s[46..302];
  }
}
