/** Files that end inside a frame: what a receive still gives back, and when the loss goes unnoticed. */
module FileCuts {
  import opened LittleEndian
  import opened PacketCodec
  import opened FileLog
  import opened Wrappers

  /** A size word cut short is never negative, and is zero exactly when no digit but zeros remains. */
  lemma CutSize(bs: seq<byte>)
    requires |bs| < 8
    ensures 0 <= SignedValue(Padded(bs, 8)) < SIGNED_LIMIT
    ensures SignedValue(Padded(bs, 8)) == 0 <==> bs == Zeros(|bs|)
  {
    ValueWithZeros(bs, 8 - |bs|);
    ValueIsZero(bs);
    Power256Grows(|bs|, 7);
    Power256Of8();
    assert Power256(8) == 256 * Power256(7);
  }

  /** What parsing makes of the start of a frame. */
  lemma ParseCutFrame(p: Packet, k: nat, junk: seq<byte> -> Packet)
    requires Allocatable(p) && k < |Frame(p)|
    ensures var cut := Frame(p)[..k];
            var size := SizeValue(Padded(cut, 8));
            && size < SIGNED_LIMIT
            && (size == 0 <==> k < 8 && cut == Zeros(k))
            && ParseFrames(cut, junk) ==
               if size == 0 then Parse([], ZeroSize)
               else Parse([Decode(Padded(if k < 8 then [] else cut[8..], size), junk)], EndOfFile)
  {
    hide Readable, DeserializePacket, SizeBytes, SizeValue, Serialized, Decode;
    var cut, size := Frame(p)[..k], |Serialized(p)|;
    if k < 8 {
      CutSize(cut);
    } else {
      assert Padded(cut, 8) == SizeBytes(size);
      SizeRoundTrip(size, SizeBytes(size));
    }
  }

  /**
   * A file that ends inside its last frame still gives back every whole frame, and at most one packet more.
   * None follows exactly when the cut leaves only zero bytes of the size. The cut goes unnoticed exactly when
   * only zero bytes are missing, but for a size word cut down to less than any message has.
   */
  lemma CutLogKeepsWholeFrames(ps: seq<Packet>, p: Packet, k: nat, junk: seq<byte> -> Packet)
    requires AllAllocatable(ps) && Allocatable(p) && k < |Frame(p)|
    ensures var frame := Frame(p);
            var size := SizeValue(Padded(frame[..k], 8));
            var r := Received(Some(Log(ps) + frame[..k]), junk);
            && r.Success? && ps <= r.value && |r.value| <= |ps| + 1
            && (r.value == ps <==> k < 8 && frame[..k] == Zeros(k))
            && (r.value == ps + [p] <==>
                  frame[k..] == Zeros(|frame| - k) || (k < 8 && 0 < size < 16 && junk(Zeros(size)) == p))
  {
    var cut := Frame(p)[..k];
    ParseCutFrame(p, k, junk);
    CutFrameUnnoticed(p, k, junk);
    ReceivedThroughLog(ps, cut, junk);
    hide Frame, Log, ParseFrames, Received, Zeros, SizeValue, Decode, Padded;
    var extra := ParseFrames(cut, junk).packets;
    SameExtension(ps, extra, []);
    SameExtension(ps, extra, [p]);
    assert ps + [] == ps;
  }

  lemma SameExtension(ps: seq<Packet>, x: seq<Packet>, y: seq<Packet>)
    ensures ps + x == ps + y <==> x == y
  {
    assert x == (ps + x)[|ps|..] && y == (ps + y)[|ps|..];
  }

  lemma ZeroSizeValue()
    ensures SizeValue(Zeros(8)) == 0
  {
    ValueIsZero(Zeros(8));
  }

  /** Messages of zeros deserialize to the empty packet. */
  lemma ZeroMessage(size: nat)
    requires 16 <= size < SIZE_LIMIT
    ensures Readable(Zeros(size)) && DeserializePacket(Zeros(size)) == Packet([], [])
  {
    ZeroSizeValue();
    hide SizeValue, DeserializePacket;
    var m := Zeros(size);
    assert m[0..8] == Zeros(8) && m[8..16] == Zeros(8);
    assert SizeAt(m, 0) == 0 && SizeAt(m, 8) == 0;
    DeserializedFields(m);
  }

  lemma SizeOf16()
    ensures SizeBytes(16) == [16] + Zeros(7) && SizeBytes(0) == Zeros(8)
    ensures Serialized(Packet([], [])) == Zeros(16)
  {
    Power256Of8();
    ZeroDigits(7);
    ZeroDigits(8);
    assert Digits(16, 8) == [16] + Digits(0, 7);
  }

  /** Of the empty packet's frame, only the first byte is not zero. */
  lemma CutOfEmptyPacket(k: nat)
    requires 1 <= k < 8
    ensures Frame(Packet([], []))[k..] == Zeros(24 - k)
  {
    SizeOf16();
    hide SizeBytes, Serialized;
    assert Frame(Packet([], [])) == [16] + Zeros(7) + Zeros(16);
  }

  /** When only zeros are missing from the size word on, the message is the padded one. */
  lemma CutZeros(p: Packet, k: nat, junk: seq<byte> -> Packet)
    requires Allocatable(p) && k < 8 && Frame(p)[k..] == Zeros(|Frame(p)| - k)
    ensures SizeValue(Padded(Frame(p)[..k], 8)) == |Serialized(p)|
    ensures Decode(Zeros(|Serialized(p)|), junk) == p
  {
    var frame, length := Frame(p), |Serialized(p)|;
    var word := SizeBytes(length);
    SizeRoundTrip(length, word);
    DeserializeSerialized(p, []);
    hide SizeBytes, SizeValue, Serialized, Readable, DeserializePacket;
    assert frame == word + Serialized(p);
    assert word[k..] == frame[k..][..8 - k] && Serialized(p) == frame[k..][8 - k..];
    assert frame[..k] == word[..k] && word == word[..k] + word[k..];
    assert Padded(frame[..k], 8) == word;
    assert Serialized(p) + [] == Zeros(length);
  }

  /** Cutting inside the size word: the message is all zeros. */
  lemma CutSizeUnnoticed(p: Packet, k: nat, junk: seq<byte> -> Packet)
    requires Allocatable(p) && k < 8
    ensures var size := SizeValue(Padded(Frame(p)[..k], 8));
            (size != 0 && Decode(Zeros(size), junk) == p) <==>
            (Frame(p)[k..] == Zeros(|Frame(p)| - k) || (0 < size < 16 && junk(Zeros(size)) == p))
  {
    var frame := Frame(p);
    var size := SizeValue(Padded(frame[..k], 8));
    if k == 0 {
      assert Padded(frame[..0], 8) == Zeros(8);
      ZeroSizeValue();
    } else if p == Packet([], []) {
      CutOfEmptyPacket(k);
    }
    hide Frame, SizeBytes, SizeValue, Serialized, Padded, Readable, DeserializePacket;
    if frame[k..] == Zeros(|frame| - k) {
      CutZeros(p, k, junk);
    } else if size >= 16 {
      ZeroMessage(size);
    } else if size > 0 {
      ShortIsUnreadable(Zeros(size));
    }
  }

  lemma ShortIsUnreadable(m: seq<byte>)
    requires |m| < 16
    ensures !Readable(m)
  {
  }

  /** Cutting inside the message: the missing bytes are read as zeros. */
  lemma CutMessageUnnoticed(p: Packet, j: nat, junk: seq<byte> -> Packet)
    requires Allocatable(p) && j < |Serialized(p)|
    ensures var m := Padded(Serialized(p)[..j], |Serialized(p)|);
            Decode(m, junk) == p <==> Serialized(p)[j..] == Zeros(|Serialized(p)| - j)
  {
    var whole := Serialized(p);
    var m := Padded(whole[..j], |whole|);
    CutMessageReadable(p, j);
    hide Serialized, Readable, DeserializePacket, Exact;
    assert m == whole <==> whole[j..] == Zeros(|whole| - j) by {
      hide Fits, Allocatable;
      assert m == whole[..j] + Zeros(|whole| - j);
      assert whole == whole[..j] + whole[j..];
      assert m[j..] == Zeros(|whole| - j);
    }
    assert DeserializePacket(m) == p ==> m == whole by {
      if DeserializePacket(m) == p {
        SameLengthIsExact(m, p);
        SerializeDeserialized(m);
      }
    }
    DeserializeSerialized(p, []);
    assert whole + [] == whole;
  }

  lemma SameLengthIsExact(m: seq<byte>, p: Packet)
    requires Readable(m) && DeserializePacket(m) == p && |m| == 16 + |p.schema| + |p.data|
    ensures Exact(m)
  {
    hide SizeAt;
    DeserializedFields(m);
    var s := SizeAt(m, 0);
    var d := SizeAt(m, 8 + s);
    assert |m[8..8 + s]| == s && |m[16 + s..16 + s + d]| == d;
  }

  /** A frame that ends inside its message. */
  lemma ParseCutMessage(p: Packet, j: nat, junk: seq<byte> -> Packet)
    requires Allocatable(p) && j < |Serialized(p)|
    ensures var m := Serialized(p)[..j] + Zeros(|Serialized(p)| - j);
            && Readable(m) && m == Padded(Serialized(p)[..j], |Serialized(p)|)
            && ParseFrames(Frame(p)[..8 + j], junk) == Parse([DeserializePacket(m)], EndOfFile)
  {
    hide Serialized, SizeBytes, Readable, DeserializePacket, ParseFrames, Zeros;
    var whole := Serialized(p);
    assert Frame(p)[..8 + j] == SizeBytes(|whole|) + whole[..j];
    hide Frame;
    CutMessageReadable(p, j);
    ParseAnyMessage(|whole|, whole[..j], junk);
  }

  lemma CutFrameUnnoticed(p: Packet, k: nat, junk: seq<byte> -> Packet)
    requires Allocatable(p) && k < |Frame(p)|
    ensures var frame := Frame(p);
            var size := SizeValue(Padded(frame[..k], 8));
            ParseFrames(frame[..k], junk).packets == [p] <==>
            frame[k..] == Zeros(|frame| - k) || (k < 8 && 0 < size < 16 && junk(Zeros(size)) == p)
  {
    var frame, whole := Frame(p), Serialized(p);
    if k < 8 {
      ParseCutFrame(p, k, junk);
      CutSizeUnnoticed(p, k, junk);
      hide Frame, SizeValue, ParseFrames, Decode;
      assert forall n: nat :: Padded([], n) == Zeros(n);
    } else {
      hide Serialized, SizeBytes, SizeValue, ParseFrames, Padded, Readable, DeserializePacket, Zeros;
      assert frame[k..] == whole[k - 8..];
      hide Frame;
      ParseCutMessage(p, k - 8, junk);
      CutMessageUnnoticed(p, k - 8, junk);
    }
  }

  /** Zeros in place of the missing bytes never make the message unreadable. */
  lemma CutMessageReadable(p: Packet, j: nat)
    requires Allocatable(p) && j < |Serialized(p)|
    ensures Readable(Padded(Serialized(p)[..j], |Serialized(p)|))
  {
    var whole, s := Serialized(p), |p.schema|;
    var m := Padded(whole[..j], |whole|);
    FieldsOfSerialized(p, []);
    assert whole + [] == whole;
    hide Serialized, SizeAt, Padded;
    CutSizeAt(whole, j, 0);
    CutSizeAt(whole, j, 8 + SizeAt(m, 0));
  }

  lemma SliceOfCut(whole: seq<byte>, j: nat, offset: nat)
    requires j <= |whole| && offset + 8 <= |whole|
    ensures var slice := Padded(whole[..j], |whole|)[offset..offset + 8];
            slice == if j <= offset then Zeros(8)
                     else if offset + 8 <= j then whole[offset..offset + 8]
                     else whole[offset..offset + 8][..j - offset] + Zeros(8 - (j - offset))
  {
    var m := Padded(whole[..j], |whole|);
    assert m == whole[..j] + Zeros(|whole| - j);
    assert forall i | 0 <= i < |whole| :: m[i] == if i < j then whole[i] else 0;
  }

  /** A size read from a cut message: smaller at most, the same before the cut, and zero behind it. */
  lemma CutSizeAt(whole: seq<byte>, j: nat, offset: nat)
    requires j <= |whole| && offset + 8 <= |whole|
    ensures var cut := SizeAt(Padded(whole[..j], |whole|), offset);
            && cut <= SizeAt(whole, offset)
            && (offset + 8 <= j ==> cut == SizeAt(whole, offset))
            && (j <= offset ==> cut == 0)
  {
    var bs := whole[offset..offset + 8];
    SliceOfCut(whole, j, offset);
    if j <= offset {
      ValueIsZero(Zeros(8));
    } else if j < offset + 8 {
      ValueWithZeros(bs[..j - offset], 8 - (j - offset));
      ValueOfPrefix(bs, j - offset);
    }
  }

  /**
   * Behind the whole frames, a size cut short yields no packet if it is zero, junk if it is less than any message
   * has, and otherwise the empty packet.
   */
  lemma ExtraPacketOfCutSize(ps: seq<Packet>, p: Packet, k: nat, junk: seq<byte> -> Packet)
    requires AllAllocatable(ps) && Allocatable(p) && k < 8
    ensures var cut := Frame(p)[..k];
            var size := SizeValue(Padded(cut, 8));
            Received(Some(Log(ps) + cut), junk) == Success(
              ps + if size == 0 then [] else if size < 16 then [junk(Zeros(size))] else [Packet([], [])])
  {
    var cut := Frame(p)[..k];
    var size := SizeValue(Padded(cut, 8));
    ParseCutFrame(p, k, junk);
    assert Padded([], size) == Zeros(size);
    hide Frame, Serialized, SizeValue, ParseFrames, Received, Log, Decode, Padded, Zeros;
    ReceivedThroughLog(ps, cut, junk);
    ExtraPacketOfZeros(size, junk);
  }

  /** Behind the whole frames, a message cut short yields what it is with zeros at its end. */
  lemma ExtraPacketOfCutMessage(ps: seq<Packet>, p: Packet, j: nat, junk: seq<byte> -> Packet)
    requires AllAllocatable(ps) && Allocatable(p) && j < |Serialized(p)|
    ensures var m := Serialized(p)[..j] + Zeros(|Serialized(p)| - j);
            && Readable(m)
            && Received(Some(Log(ps) + Frame(p)[..8 + j]), junk) == Success(ps + [DeserializePacket(m)])
  {
    hide Serialized, Received, Log, Readable, DeserializePacket, ParseFrames, Frame, Zeros;
    ParseCutMessage(p, j, junk);
    ReceivedThroughLog(ps, Frame(p)[..8 + j], junk);
  }

  lemma ExtraPacketOfZeros(size: nat, junk: seq<byte> -> Packet)
    requires size < SIZE_LIMIT
    ensures Decode(Zeros(size), junk) == if size < 16 then junk(Zeros(size)) else Packet([], [])
  {
    hide SizeValue, DeserializePacket;
    if size < 16 {
      ShortIsUnreadable(Zeros(size));
    } else {
      ZeroMessage(size);
    }
  }

  /** The shortest cut that yields a packet too many: one byte of a size is enough. */
  lemma CutYieldsOneTooMany(junk: seq<byte> -> Packet)
    ensures Received(Some(SIGNATURE + [16]), junk) == Success([Packet([], [])])
  {
    SizeOf16();
    var p := Packet([], []);
    assert Frame(p)[..1] == [16] && Frame(p)[1..] == Zeros(23);
    assert Log([]) + [16] == SIGNATURE + [16];
    CutLogKeepsWholeFrames([], p, 1, junk);
    hide Frame, Received, Log, SizeValue, Padded;
    assert [] + [p] == [p];
  }
}
