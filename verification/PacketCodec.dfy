/** The serialized form of a packet: two length-prefixed fields in one buffer. */
module PacketCodec {
  import opened LittleEndian
  import opened Wrappers

  datatype Packet = Packet(schema: seq<byte>, data: seq<byte>)

  /** The offsets computed for `p` stay below the range of `std::size_t`. */
  predicate Fits(p: Packet) {
    16 + |p.schema| + |p.data| < SIZE_LIMIT
  }

  predicate AllFit(ps: seq<Packet>) {
    forall p | p in ps :: Fits(p)
  }

  /** A `std::vector` of bytes can hold the message; a longer one makes its constructor throw. */
  predicate Allocatable(p: Packet) {
    16 + |p.schema| + |p.data| < SIGNED_LIMIT
  }

  predicate AllAllocatable(ps: seq<Packet>) {
    forall p | p in ps :: Allocatable(p)
  }

  datatype Error = LengthError

  /** The serialized form, read as a grammar: size, schema, size, data. */
  function Serialized(p: Packet): (m: seq<byte>)
    requires Fits(p)
    ensures |m| == 16 + |p.schema| + |p.data|
  {
    SizeBytes(|p.schema|) + p.schema + SizeBytes(|p.data|) + p.data
  }

  /** Where every byte of a serialized packet comes from. */
  lemma SerializedLayout(p: Packet)
    requires Fits(p)
    ensures var m, s := Serialized(p), |p.schema|;
            && (forall j | 0 <= j < 8 :: m[j] == s / Power256(j) % 256)
            && m[8..8 + s] == p.schema
            && (forall j | 0 <= j < 8 :: m[8 + s + j] == |p.data| / Power256(j) % 256)
            && m[16 + s..] == p.data
  {
    hide SizeBytes, Power256;
    forall j | 0 <= j < 8
      ensures SizeBytes(|p.schema|)[j] == |p.schema| / Power256(j) % 256
      ensures SizeBytes(|p.data|)[j] == |p.data| / Power256(j) % 256
    {
      SizeByteAt(|p.schema|, j);
      SizeByteAt(|p.data|, j);
    }
  }

  /** A vector can hold the message exactly when its size is the same read as signed, the top bit being clear. */
  lemma AllocatableIffSignedSize(p: Packet)
    requires Fits(p)
    ensures var word := SizeBytes(|Serialized(p)|);
            && (Allocatable(p) <==> SignedValue(word) == |Serialized(p)|)
            && (Allocatable(p) <==> word[7] < 0x80)
  {
    hide SizeBytes, SizeValue, Serialized;
    var word := SizeBytes(|Serialized(p)|);
    SizeRoundTrip(|Serialized(p)|, word);
    SignIsTopBit(word);
  }

  /** `std::memcpy` into a buffer. */
  method CopyInto(message: array<byte>, offset: nat, source: seq<byte>)
    requires offset + |source| <= message.Length
    modifies message
    ensures message[..] == old(message[..offset]) + source + old(message[offset + |source|..])
  {
    forall i | 0 <= i < |source| {
      message[offset + i] := source[i];
    }
  }

  /** The buffer starts with arbitrary bytes, so the result also says that the four writes cover it. */
  method SerializePacket(p: Packet) returns (r: Result<array<byte>, Error>)
    requires Fits(p)
    ensures if Allocatable(p) then r.Success? && fresh(r.value) && r.value[..] == Serialized(p)
            else r == Failure(LengthError)
  {
    var schemaSizeOffset := 0;
    var schemaOffset := AddSize(schemaSizeOffset, 8);
    var dataSizeOffset := AddSize(schemaOffset, |p.schema|);
    var dataOffset := AddSize(dataSizeOffset, 8);
    var messageSize := AddSize(dataOffset, |p.data|);

    if messageSize >= SIGNED_LIMIT {
      return Failure(LengthError);
    }
    var message := new byte[messageSize];
    CopyInto(message, schemaSizeOffset, SizeBytes(|p.schema|));
    CopyInto(message, schemaOffset, p.schema);
    assert message[..dataSizeOffset] == SizeBytes(|p.schema|) + p.schema;
    CopyInto(message, dataSizeOffset, SizeBytes(|p.data|));
    assert message[..dataOffset] == SizeBytes(|p.schema|) + p.schema + SizeBytes(|p.data|);
    CopyInto(message, dataOffset, p.data);
    r := Success(message);
  }

  /** The message size computed with wrapping additions is the real one exactly for the packets that fit. */
  lemma MessageSizeIsExact(p: Packet)
    requires |p.schema| < SIZE_LIMIT && |p.data| < SIZE_LIMIT
    ensures Fits(p) <==>
            AddSize(AddSize(AddSize(AddSize(0, 8), |p.schema|), 8), |p.data|) == 16 + |p.schema| + |p.data|
  {
  }

  function SizeAt(m: seq<byte>, offset: nat): nat
    requires offset + 8 <= |m|
  {
    SizeValue(m[offset..offset + 8])
  }

  /** Every byte that deserializing reads lies inside the message. */
  predicate Readable(m: seq<byte>) {
    && 16 <= |m| < SIZE_LIMIT
    && 16 + SizeAt(m, 0) <= |m|
    && 16 + SizeAt(m, 0) + SizeAt(m, 8 + SizeAt(m, 0)) <= |m|
  }

  /** The embedded sizes account for every byte of the message. */
  predicate Exact(m: seq<byte>) {
    Readable(m) && 16 + SizeAt(m, 0) + SizeAt(m, 8 + SizeAt(m, 0)) == |m|
  }

  function DeserializePacket(m: seq<byte>): Packet
    requires Readable(m)
  {
    var schemaSize := SizeAt(m, 0);
    var schemaOffset := AddSize(0, 8);
    var dataSizeOffset := AddSize(schemaOffset, schemaSize);
    var dataSize := SizeAt(m, dataSizeOffset);
    var dataOffset := AddSize(dataSizeOffset, 8);
    Packet(m[schemaOffset..schemaOffset + schemaSize], m[dataOffset..dataOffset + dataSize])
  }

  /** Deserializing any message; `junk` stands for reads past the end of an unreadable one. */
  function Decode(m: seq<byte>, junk: seq<byte> -> Packet): Packet {
    if Readable(m) then DeserializePacket(m) else junk(m)
  }

  /** On a readable message none of the offsets wraps. */
  lemma DeserializedFields(m: seq<byte>)
    requires Readable(m)
    ensures var s := SizeAt(m, 0);
            var d := SizeAt(m, 8 + s);
            DeserializePacket(m) == Packet(m[8..8 + s], m[16 + s..16 + s + d])
  {
    var s := SizeAt(m, 0);
    assert AddSize(0, 8) == 8 && AddSize(8, s) == 8 + s && AddSize(8 + s, 8) == 16 + s;
  }

  /** Where the four fields of a serialized packet lie, whatever follows it. */
  lemma FieldsOfSerialized(p: Packet, tail: seq<byte>)
    requires Fits(p)
    ensures var m := Serialized(p) + tail;
            && SizeAt(m, 0) == |p.schema|
            && m[8..8 + |p.schema|] == p.schema
            && SizeAt(m, 8 + |p.schema|) == |p.data|
            && m[16 + |p.schema|..16 + |p.schema| + |p.data|] == p.data
  {
    hide SizeBytes, SizeValue;
    var m := Serialized(p) + tail;
    assert m[0..8] == SizeBytes(|p.schema|);
    assert m[8 + |p.schema|..16 + |p.schema|] == SizeBytes(|p.data|);
    SizeRoundTrip(|p.schema|, m[0..8]);
    SizeRoundTrip(|p.data|, m[0..8]);
  }

  /** Deserializing reads back the packet and ignores what follows it. */
  lemma DeserializeSerialized(p: Packet, tail: seq<byte>)
    requires Fits(p) && |Serialized(p)| + |tail| < SIZE_LIMIT
    ensures Readable(Serialized(p) + tail)
    ensures DeserializePacket(Serialized(p) + tail) == p
  {
    FieldsOfSerialized(p, tail);
    DeserializedFields(Serialized(p) + tail);
  }

  /** A message with no slack is the serialized form of what it deserializes to. */
  lemma SerializeDeserialized(m: seq<byte>)
    requires Exact(m)
    ensures Fits(DeserializePacket(m))
    ensures Serialized(DeserializePacket(m)) == m
  {
    hide SizeBytes, SizeValue, DeserializePacket;
    DeserializedFields(m);
    var s := SizeAt(m, 0);
    SizeRoundTrip(0, m[0..8]);
    SizeRoundTrip(0, m[8 + s..16 + s]);
    assert m == m[0..8] + m[8..8 + s] + m[8 + s..16 + s] + m[16 + s..];
  }

  /** The serialized packets are exactly the messages without slack. */
  lemma ImageOfSerialized(m: seq<byte>)
    ensures Exact(m) <==> exists p :: Fits(p) && Serialized(p) == m
  {
    if Exact(m) {
      SerializeDeserialized(m);
    }
    if p :| Fits(p) && Serialized(p) == m {
      FieldsOfSerialized(p, []);
      assert Serialized(p) + [] == m;
    }
  }

  /** Serialized packets delimit themselves: equal streams start with equal packets. */
  lemma SelfDelimiting(p: Packet, q: Packet, pTail: seq<byte>, qTail: seq<byte>)
    requires Fits(p) && Fits(q)
    requires Serialized(p) + pTail == Serialized(q) + qTail
    ensures p == q && pTail == qTail
  {
    FieldsOfSerialized(p, pTail);
    FieldsOfSerialized(q, qTail);
    assert pTail == (Serialized(p) + pTail)[|Serialized(p)|..];
    assert qTail == (Serialized(q) + qTail)[|Serialized(q)|..];
  }

  lemma NoProperPrefix(p: Packet, q: Packet)
    requires Fits(p) && Fits(q)
    requires Serialized(p) <= Serialized(q)
    ensures p == q
  {
    var rest := Serialized(q)[|Serialized(p)|..];
    assert Serialized(p) + rest == Serialized(q) + [];
    SelfDelimiting(p, q, rest, []);
  }

  function Concatenated(ps: seq<Packet>): seq<byte>
    requires AllFit(ps)
  {
    if ps == [] then [] else Serialized(ps[0]) + Concatenated(ps[1..])
  }

  /** A concatenation of serialized packets splits in one way only. */
  lemma {:induction false} UniqueDecomposition(ps: seq<Packet>, qs: seq<Packet>)
    requires AllFit(ps) && AllFit(qs)
    requires Concatenated(ps) == Concatenated(qs)
    ensures ps == qs
  {
    if ps == [] || qs == [] {
      assert ps == qs;
    } else {
      SelfDelimiting(ps[0], qs[0], Concatenated(ps[1..]), Concatenated(qs[1..]));
      UniqueDecomposition(ps[1..], qs[1..]);
      assert ps == [ps[0]] + ps[1..] && qs == [qs[0]] + qs[1..];
    }
  }
}
