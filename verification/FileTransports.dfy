/** The file transport as objects: streams with position and state bits, and a flag per transport. */
module FileTransports {
  import opened LittleEndian
  import opened PacketCodec
  import opened FileLog
  import opened Wrappers

  class DiskFile {
    var content: Option<seq<byte>>

    constructor (content: Option<seq<byte>>)
      ensures this.content == content
    {
      this.content := content;
    }
  }

  /** A `std::ofstream` on a file. */
  class OutputStream {
    const file: DiskFile

    /** Opening truncates; opening with `app` creates a missing file and keeps an existing one. */
    constructor (file: DiskFile, append: bool)
      modifies file
      ensures this.file == file
      ensures file.content == Some(if append then old(file.content).GetOr([]) else [])
    {
      this.file := file;
      new;
      file.content := Some(if append then file.content.GetOr([]) else []);
    }

    method Write(bytes: seq<byte>)
      requires file.content.Some?
      modifies file
      ensures file.content == Some(old(file.content).value + bytes)
    {
      file.content := Some(file.content.value + bytes);
    }
  }

  /** A `std::ifstream`: what is left to read, and the end-of-file and failure bits. */
  class InputStream {
    const bytes: seq<byte>
    var pos: nat
    var eof: bool
    var fail: bool

    ghost predicate Valid()
      reads this
    {
      pos <= |bytes|
    }

    ghost function Rest(): seq<byte>
      requires Valid()
      reads this
    {
      bytes[pos..]
    }

    constructor (content: Option<seq<byte>>)
      ensures Valid() && bytes == content.GetOr([]) && pos == 0
      ensures !eof && fail == content.None?
    {
      bytes, pos, eof, fail := content.GetOr([]), 0, false, content.None?;
    }

    /** Reads `n` bytes. A short read sets both bits and leaves the rest of the buffer untouched. */
    method Read(buffer: array<byte>, n: nat)
      requires Valid() && n <= buffer.Length
      modifies this, buffer
      ensures Valid()
      ensures old(eof || fail) ==>
                fail && eof == old(eof) && pos == old(pos) && buffer[..] == old(buffer[..])
      ensures !old(eof || fail) && n <= |old(Rest())| ==>
                !eof && !fail && pos == old(pos) + n && buffer[..] == old(Rest())[..n] + old(buffer[n..])
      ensures !old(eof || fail) && |old(Rest())| < n ==>
                eof && fail && pos == |bytes| && buffer[..] == old(Rest()) + old(buffer[|bytes| - pos..])
    {
      if eof || fail {
        fail := true;
        return;
      }
      var count := if n <= |bytes| - pos then n else |bytes| - pos;
      forall i | 0 <= i < count {
        buffer[i] := bytes[pos + i];
      }
      pos := pos + count;
      if count < n {
        eof, fail := true, true;
      }
    }
  }

  /** The three reads of a receive: into a buffer of `n` zero bytes. */
  method ReadZeroed(stream: InputStream, n: nat) returns (buffer: array<byte>)
    requires stream.Valid() && (stream.eof ==> stream.Rest() == [])
    requires stream.eof || !stream.fail
    modifies stream
    ensures fresh(buffer) && stream.Valid()
    ensures buffer[..] == Padded(old(stream.Rest()), n)
    ensures stream.eof <==> old(stream.eof) || |old(stream.Rest())| < n
    ensures stream.eof ==> stream.Rest() == []
    ensures !stream.eof ==> !stream.fail && stream.Rest() == old(stream.Rest())[n..]
  {
    buffer := new byte[n](_ => 0);
    assert buffer[..] == Zeros(n);
    stream.Read(buffer, n);
  }

  /** `std::string(const char*)`: the characters before the first zero byte. */
  function CString(buffer: seq<byte>): (s: seq<byte>)
    requires 0 in buffer
    ensures s < buffer && buffer[|s|] == 0 && 0 !in s
  {
    if buffer[0] == 0 then [] else [buffer[0]] + CString(buffer[1..])
  }

  /** Comparing through the zero-filled buffer accepts exactly the files that start with the signature. */
  lemma SignatureCheckIsExact(bytes: seq<byte>, buffer: seq<byte>)
    requires buffer == Padded(bytes, 6) + [0]
    ensures 0 in buffer
    ensures CString(buffer) == SIGNATURE <==> SIGNATURE <= bytes
  {
    assert buffer[6] == 0;
    var s := CString(buffer);
    if s == SIGNATURE {
      assert buffer[..6] == SIGNATURE;
      assert buffer[5] == 65;
      assert bytes[..6] == SIGNATURE;
    }
    if SIGNATURE <= bytes {
      assert buffer[..6] == SIGNATURE;
      assert forall i | 0 <= i < 6 :: buffer[i] == SIGNATURE[i] && SIGNATURE[i] != 0;
      assert s == buffer[..6];
    }
  }

  class FileTransport {
    const file: DiskFile
    var firstTimeSending: bool

    constructor (file: DiskFile)
      ensures this.file == file && firstTimeSending
    {
      this.file := file;
      firstTimeSending := true;
    }

    /** Reports the exception that ends the call. The file has been opened by then. */
    method Send(p: Packet) returns (thrown: Option<Error>)
      requires Fits(p)
      modifies this, file
      ensures thrown == if Allocatable(p) then None else Some(LengthError)
      ensures !firstTimeSending
      ensures file.content == Some(AfterSend(old(file.content), old(firstTimeSending), p))
    {
      hide Serialized, SizeBytes;
      FramesOfKept(p);
      ghost var before := if firstTimeSending then SIGNATURE else file.content.GetOr([]);
      assert before + [] == before;
      var stream: OutputStream;
      if firstTimeSending {
        stream := new OutputStream(file, false);
        stream.Write(SIGNATURE);
        firstTimeSending := false;
      } else {
        stream := new OutputStream(file, true);
      }
      var serialized := SerializePacket(p);
      if serialized.Failure? {
        assert file.content.value == before + [];
        return Some(serialized.error);
      }
      var message := serialized.value;
      stream.Write(SizeBytes(message.Length));
      stream.Write(message[..]);
      assert file.content.value == before + (SizeBytes(|Serialized(p)|) + Serialized(p));
      thrown := None;
    }

    /** Terminates on every file, and changes nothing that existed before. */
    method Receive(junk: seq<byte> -> Packet) returns (r: Result<seq<Packet>, Error>)
      ensures r == Received(file.content, junk)
    {
      hide ParseFrames, Decode, SignedValue, Padded;
      var stream := new InputStream(file.content);
      var accepted := ReadAndCheckSignature(stream);
      if !accepted {
        return Success([]);
      }
      ghost var all := ParseFrames(stream.Rest(), junk);
      var packets: seq<Packet> := [];
      assert all == Prepend(packets, all);
      while !stream.eof
        invariant stream.Valid() && fresh(stream)
        invariant if stream.eof then stream.Rest() == [] else !stream.fail
        invariant if stream.eof then all == Parse(packets, EndOfFile)
                  else all == Prepend(packets, ParseFrames(stream.Rest(), junk))
        decreases !stream.eof, |stream.bytes| - stream.pos
      {
        ParseTurn(packets, stream.Rest(), junk);
        var sizeBuffer := ReadZeroed(stream, 8);
        var size := SignedValue(sizeBuffer[..]);
        if size == 0 {
          return Success(packets);
        }
        if size < 0 {
          return Failure(LengthError);
        }
        var serialized := ReadZeroed(stream, size);
        packets := packets + [Decode(serialized[..], junk)];
      }
      return Success(packets);
    }

    method ReadAndCheckSignature(stream: InputStream) returns (accepted: bool)
      requires stream.Valid() && stream.pos == 0 && !stream.eof && stream.fail == file.content.None?
      requires stream.bytes == file.content.GetOr([])
      modifies stream
      ensures stream.Valid()
      ensures accepted <==> HasSignature(file.content)
      ensures accepted ==> !stream.eof && !stream.fail && stream.Rest() == file.content.value[|SIGNATURE|..]
    {
      var buffer := new byte[7](_ => 0);
      stream.Read(buffer, 6);
      assert buffer[..] == Padded(stream.bytes, 6) + [0];
      SignatureCheckIsExact(stream.bytes, buffer[..]);
      accepted := CString(buffer[..]) == SIGNATURE;
    }
  }
}
