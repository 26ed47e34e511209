/** The bytes in a contra file: what a run of sends leaves, and what a receive makes of any file. */
module FileLog {
  import opened LittleEndian
  import opened PacketCodec
  import opened Wrappers

  const SIGNATURE: seq<byte> := [67, 79, 78, 84, 82, 65] // the characters C O N T R A

  // ---------- Writing ----------

  /** What a successful send appends: the size of the serialized packet, then the packet. */
  function Frame(p: Packet): (bs: seq<byte>)
    requires Allocatable(p)
    ensures |bs| == 24 + |p.schema| + |p.data|
  {
    SizeBytes(|Serialized(p)|) + Serialized(p)
  }

  function Frames(ps: seq<Packet>): seq<byte>
    requires AllAllocatable(ps)
  {
    if ps == [] then [] else Frame(ps[0]) + Frames(ps[1..])
  }

  /** The well-formed file that holds `ps`. */
  function Log(ps: seq<Packet>): seq<byte>
    requires AllAllocatable(ps)
  {
    SIGNATURE + Frames(ps)
  }

  lemma {:induction false} FramesAppend(ps: seq<Packet>, p: Packet)
    requires AllAllocatable(ps) && Allocatable(p)
    ensures Frames(ps + [p]) == Frames(ps) + Frame(p)
  {
    hide Frame;
    if ps == [] {
      assert Frames([p]) == Frame(p) + Frames([]);
    } else {
      FramesAppend(ps[1..], p);
      assert (ps + [p])[1..] == ps[1..] + [p];
    }
  }

  /** The packets of a send: none when its message cannot be allocated. */
  function Kept(p: Packet): (ps: seq<Packet>)
    ensures AllAllocatable(ps)
  {
    if Allocatable(p) then [p] else []
  }

  lemma FramesOfKept(p: Packet)
    ensures Frames(Kept(p)) == if Allocatable(p) then Frame(p) else []
  {
    hide Frame;
    if Allocatable(p) {
      assert Frames([p]) == Frame(p) + Frames([]);
    }
  }

  /**
   * The file after one send; `first` is the sender's `first_time_sending_` flag. A send whose message cannot
   * be allocated throws only after it has opened, and perhaps truncated, the file.
   */
  function AfterSend(content: Option<seq<byte>>, first: bool, p: Packet): seq<byte> {
    (if first then SIGNATURE else content.GetOr([])) + Frames(Kept(p))
  }

  /** A first send leaves a log of its own packet; a later one extends the log it finds. */
  lemma SendKeepsLog(content: Option<seq<byte>>, ps: seq<Packet>, p: Packet)
    requires AllAllocatable(ps)
    ensures AfterSend(content, true, p) == Log(Kept(p))
    ensures content == Some(Log(ps)) ==> AfterSend(content, false, p) == Log(ps + Kept(p))
  {
    hide Frame;
    if Allocatable(p) {
      FramesOfKept(p);
      FramesAppend(ps, p);
      assert Log(ps + [p]) == Log(ps) + Frame(p);
    } else {
      assert ps + [] == ps;
    }
  }

  /** Where every byte of a frame comes from. */
  lemma FrameLayout(p: Packet)
    requires Allocatable(p)
    ensures var frame := Frame(p);
            && (forall j | 0 <= j < 8 :: frame[j] == |Serialized(p)| / Power256(j) % 256)
            && frame[8..] == Serialized(p)
  {
    hide SizeBytes, Power256, Serialized;
    forall j | 0 <= j < 8
      ensures SizeBytes(|Serialized(p)|)[j] == |Serialized(p)| / Power256(j) % 256
    {
      SizeByteAt(|Serialized(p)|, j);
    }
  }

  // ---------- Reading ----------

  datatype Exit =
    | ZeroSize      // a size of zero was read
    | EndOfFile     // a frame ended short, so the stream is at its end
    | NegativeSize  // the size is negative as a streamsize; allocating the buffer throws

  datatype Parse = Parse(packets: seq<Packet>, exit: Exit)

  /** The first `n` bytes; what is missing stays zero. */
  function Padded(bs: seq<byte>, n: nat): (r: seq<byte>)
    ensures |r| == n
  {
    if n <= |bs| then bs[..n] else bs + Zeros(n - |bs|)
  }

  /** The frames in `rest`, described without a stream: by what is left to read. */
  function ParseFrames(rest: seq<byte>, junk: seq<byte> -> Packet): (r: Parse)
    ensures r.exit == ZeroSize ==> |r.packets| <= |rest|
    decreases |rest|
  {
    var size := SignedValue(Padded(rest, 8));
    if size == 0 then
      Parse([], ZeroSize)
    else if size < 0 then
      Parse([], NegativeSize)
    else
      var payload := if |rest| < 8 then [] else rest[8..];
      var packet := Decode(Padded(payload, size), junk);
      if |payload| < size then
        Parse([packet], EndOfFile)
      else
        Prepend([packet], ParseFrames(payload[size..], junk))
  }

  function Prepend(ps: seq<Packet>, tail: Parse): Parse {
    Parse(ps + tail.packets, tail.exit)
  }

  /** One turn of the receive loop: what is still to be parsed moves over to what was parsed. */
  lemma ParseTurn(ps: seq<Packet>, rest: seq<byte>, junk: seq<byte> -> Packet)
    ensures var size := SignedValue(Padded(rest, 8));
            var payload := if |rest| < 8 then [] else rest[8..];
            var all := Prepend(ps, ParseFrames(rest, junk));
            && (size == 0 ==> all == Parse(ps, ZeroSize))
            && (size < 0 ==> all.exit == NegativeSize)
            && (size > 0 ==>
                  var parsed := ps + [Decode(Padded(payload, size), junk)];
                  all == if |payload| < size then Parse(parsed, EndOfFile)
                         else Prepend(parsed, ParseFrames(payload[size..], junk)))
  {
    hide SignedValue, Decode;
    var size := SignedValue(Padded(rest, 8));
    var payload := if |rest| < 8 then [] else rest[8..];
    assert ps + [] == ps;
    if size > 0 && size <= |payload| {
      var packet := Decode(Padded(payload, size), junk);
      var tail := ParseFrames(payload[size..], junk);
      assert ps + ([packet] + tail.packets) == ps + [packet] + tail.packets;
    }
  }

  predicate HasSignature(content: Option<seq<byte>>) {
    content.Some? && SIGNATURE <= content.value
  }

  /** The signature is the text CONTRA, in six bytes. */
  lemma HasSignatureIffContra(content: Option<seq<byte>>)
    ensures HasSignature(content) <==>
            content.Some? && |content.value| >= 6 && forall i | 0 <= i < 6 :: content.value[i] == "CONTRA"[i] as int
  {
    assert forall i | 0 <= i < 6 :: SIGNATURE[i] == "CONTRA"[i] as int;
    if HasSignature(content) {
      assert content.value[..6] == SIGNATURE;
    }
  }

  /** What a receive returns for a file with this content, or for a missing file. */
  function Received(content: Option<seq<byte>>, junk: seq<byte> -> Packet): Result<seq<Packet>, Error> {
    if !HasSignature(content) then
      Success([])
    else
      var parse := ParseFrames(content.value[|SIGNATURE|..], junk);
      if parse.exit == NegativeSize then Failure(LengthError) else Success(parse.packets)
  }

  /** A missing file, one that is too short, and one that starts otherwise, all count as empty. */
  lemma UnsignedFileIsEmpty(content: Option<seq<byte>>, junk: seq<byte> -> Packet)
    requires content.None? || |content.value| < 6 || exists i | 0 <= i < 6 :: content.value[i] != "CONTRA"[i] as int
    ensures Received(content, junk) == Success([])
  {
    HasSignatureIffContra(content);
  }

  /**
   * Behind the signature, a positive size takes that many bytes, zeros in place of missing ones, whatever
   * message they are. One that deserializing reads past yields junk, and a short one ends the receive.
   */
  lemma ParseAnyMessage(size: nat, payload: seq<byte>, junk: seq<byte> -> Packet)
    requires 0 < size < SIGNED_LIMIT
    ensures var m := if size <= |payload| then payload[..size] else payload + Zeros(size - |payload|);
            var packet := if Readable(m) then DeserializePacket(m) else junk(m);
            ParseFrames(SizeBytes(size) + payload, junk) ==
            if size <= |payload| then Prepend([packet], ParseFrames(payload[size..], junk))
            else Parse([packet], EndOfFile)
  {
    var bytes := SizeBytes(size) + payload;
    SignedOfSizeBytes(size);
    hide SizeBytes, SignedValue, Readable, DeserializePacket, Zeros, ParseFrames;
    assert Padded(bytes, 8) == SizeBytes(size) && bytes[8..] == payload;
    ParseSized(bytes, payload, junk);
  }

  lemma ParseSized(bytes: seq<byte>, payload: seq<byte>, junk: seq<byte> -> Packet)
    requires |bytes| >= 8 && bytes[8..] == payload && SignedValue(Padded(bytes, 8)) > 0
    ensures var size := SignedValue(Padded(bytes, 8));
            var packet := Decode(Padded(payload, size), junk);
            ParseFrames(bytes, junk) ==
            if size <= |payload| then Prepend([packet], ParseFrames(payload[size..], junk))
            else Parse([packet], EndOfFile)
  {
    hide SignedValue, Padded, Decode;
  }

  // ---------- Reading inverts writing ----------

  lemma ParseFrame(p: Packet, rest: seq<byte>, junk: seq<byte> -> Packet)
    requires Allocatable(p)
    ensures ParseFrames(Frame(p) + rest, junk) == Prepend([p], ParseFrames(rest, junk))
  {
    hide SizeBytes, Readable, DeserializePacket, ParseFrames;
    var payload, size := Serialized(p) + rest, |Serialized(p)|;
    assert Frame(p) + rest == SizeBytes(size) + payload;
    assert payload[..size] == Serialized(p) + [] && payload[size..] == rest;
    ParseAnyMessage(size, payload, junk);
    DeserializeSerialized(p, []);
  }

  /** Parsing goes through the written packets and then on with what follows them. */
  lemma {:induction false} ParseThroughFrames(ps: seq<Packet>, rest: seq<byte>, junk: seq<byte> -> Packet)
    requires AllAllocatable(ps)
    ensures ParseFrames(Frames(ps) + rest, junk) == Prepend(ps, ParseFrames(rest, junk))
  {
    hide Frame, ParseFrames;
    if ps == [] {
      assert Frames(ps) + rest == rest;
    } else {
      var more := Frames(ps[1..]) + rest;
      assert Frames(ps) + rest == Frame(ps[0]) + more;
      ParseFrame(ps[0], more, junk);
      ParseThroughFrames(ps[1..], rest, junk);
      PrependTwice(ps[0], ps[1..], ParseFrames(rest, junk));
    }
  }

  lemma PrependTwice(p: Packet, ps: seq<Packet>, tail: Parse)
    ensures Prepend([p], Prepend(ps, tail)) == Prepend([p] + ps, tail)
  {
    assert [p] + (ps + tail.packets) == [p] + ps + tail.packets;
  }

  /** Parsing returns the written packets and leaves by the zero size behind the last frame. */
  lemma ParseInvertsFrames(ps: seq<Packet>, junk: seq<byte> -> Packet)
    requires AllAllocatable(ps)
    ensures ParseFrames(Frames(ps), junk) == Parse(ps, ZeroSize)
  {
    hide Frames;
    ParseThroughFrames(ps, [], junk);
    assert Frames(ps) + [] == Frames(ps) && ps + [] == ps;
    assert Padded([], 8) == Zeros(8);
    ZeroIsZero();
  }

  lemma ZeroIsZero()
    ensures SignedValue(Zeros(8)) == 0
  {
    assert SizeBytes(0) == Zeros(8) by {
      Power256Of8();
      ZeroDigits(8);
    }
    SizeRoundTrip(0, Zeros(8));
  }

  lemma {:induction false} ZeroDigits(k: nat)
    ensures 0 < Power256(k) && Digits(0, k) == Zeros(k)
  {
    if k != 0 {
      ZeroDigits(k - 1);
    }
  }

  /** A receive goes through the log and then on with what follows it. */
  lemma ReceivedThroughLog(ps: seq<Packet>, rest: seq<byte>, junk: seq<byte> -> Packet)
    requires AllAllocatable(ps)
    ensures var parse := ParseFrames(rest, junk);
            Received(Some(Log(ps) + rest), junk) ==
            if parse.exit == NegativeSize then Failure(LengthError) else Success(ps + parse.packets)
  {
    hide Frames, ParseFrames;
    ParseThroughFrames(ps, rest, junk);
    assert (Log(ps) + rest)[|SIGNATURE|..] == Frames(ps) + rest;
  }

  /** Receiving a written file returns its packets, in order. */
  lemma ReceiveInvertsSends(ps: seq<Packet>, junk: seq<byte> -> Packet)
    requires AllAllocatable(ps)
    ensures Received(Some(Log(ps)), junk) == Success(ps)
  {
    hide Frames, ParseFrames;
    ParseInvertsFrames(ps, junk);
    assert Log(ps)[|SIGNATURE|..] == Frames(ps);
  }

  lemma ParseSizeWord(n: nat, rest: seq<byte>, junk: seq<byte> -> Packet)
    requires n == 0 || SIGNED_LIMIT <= n < SIZE_LIMIT
    ensures ParseFrames(SizeBytes(n) + rest, junk) == Parse([], if n == 0 then ZeroSize else NegativeSize)
  {
    hide SizeBytes, SizeValue, Decode;
    assert Padded(SizeBytes(n) + rest, 8) == SizeBytes(n);
    SizeRoundTrip(n, SizeBytes(n));
  }

  /** Behind a log, a size word of zero ends the receive, and one that no send writes, of 2^63 or more, throws. */
  lemma SizeWordBehindLog(ps: seq<Packet>, n: nat, rest: seq<byte>, junk: seq<byte> -> Packet)
    requires AllAllocatable(ps) && (n == 0 || SIGNED_LIMIT <= n < SIZE_LIMIT)
    ensures Received(Some(Log(ps) + (SizeBytes(n) + rest)), junk) ==
            if n == 0 then Success(ps) else Failure(LengthError)
  {
    ParseSizeWord(n, rest, junk);
    hide Log, ParseFrames, SizeBytes, Received;
    ReceivedThroughLog(ps, SizeBytes(n) + rest, junk);
    assert ps + [] == ps;
  }

  /** Different packet lists leave different files. */
  lemma LogIsInjective(ps: seq<Packet>, qs: seq<Packet>)
    requires AllAllocatable(ps) && AllAllocatable(qs)
    requires Log(ps) == Log(qs)
    ensures ps == qs
  {
    var junk := (m: seq<byte>) => Packet([], []);
    ReceiveInvertsSends(ps, junk);
    ReceiveInvertsSends(qs, junk);
  }
}
