/**
 * The shared-memory transport as objects. Each method is proved against the functions that the step system
 * takes for the same call, run without interruption.
 */
module SharedMemoryTransports {
  import opened PacketCodec
  import opened Wrappers
  import opened FifoQueue
  import opened SharedMemory

  /** A named segment and the two objects that may have been constructed in it. */
  class ManagedSegment {
    var packetStorage: Option<seq<Packet>>
    var referenceCount: Option<int>

    constructor ()
      ensures packetStorage.None? && referenceCount.None?
    {
      packetStorage, referenceCount := None, None;
    }

    ghost predicate Constructed()
      reads this
    {
      packetStorage.Some? && referenceCount.Some?
    }

    ghost function Contents(): Segment
      requires Constructed()
      reads this
    {
      Segment(packetStorage.value, referenceCount.value)
    }

    method FindOrConstructPacketStorage()
      modifies this`packetStorage
      ensures packetStorage == Some(old(packetStorage).GetOr([]))
    {
      if packetStorage.None? {
        packetStorage := Some([]);
      }
    }

    method FindOrConstructReferenceCount()
      modifies this`referenceCount
      ensures referenceCount == Some(old(referenceCount).GetOr(0))
    {
      if referenceCount.None? {
        referenceCount := Some(0);
      }
    }
  }

  class NamedMutex {
    var locked: bool

    constructor ()
      ensures !locked
    {
      locked := false;
    }

    method Lock()
      requires !locked
      modifies this
      ensures locked
    {
      locked := true;
    }

    method Unlock()
      requires locked
      modifies this
      ensures !locked
    {
      locked := false;
    }
  }

  /** What a transport's name, and that name with the mutex suffix, are bound to. */
  class NameBinding {
    var segment: ManagedSegment?
    var mutex: NamedMutex?

    constructor ()
      ensures segment == null && mutex == null
    {
      segment, mutex := null, null;
    }

    /** Opens or creates the segment. */
    method OpenSegment() returns (s: ManagedSegment)
      modifies this`segment
      ensures segment == s
      ensures if old(segment) != null then s == old(segment)
              else fresh(s) && s.packetStorage.None? && s.referenceCount.None?
    {
      if segment == null {
        segment := new ManagedSegment();
      }
      s := segment;
    }

    method OpenMutex() returns (m: NamedMutex)
      modifies this`mutex
      ensures mutex == m
      ensures if old(mutex) != null then m == old(mutex) else fresh(m) && !m.locked
    {
      if mutex == null {
        mutex := new NamedMutex();
      }
      m := mutex;
    }

    method Destroy()
      modifies this
      ensures segment == null && mutex == null
    {
      segment := null;
      mutex := null;
    }
  }

  class SharedMemoryTransport {
    const name: NameBinding
    const segment: ManagedSegment
    const mutex: NamedMutex

    ghost predicate Valid()
      reads this, segment
    {
      segment.Constructed()
    }

    /** A segment that is found keeps its packets and counts one more handle; a new one starts empty at one. */
    constructor (name: NameBinding)
      modifies name, if name.segment == null then {} else {name.segment}
      ensures Valid() && this.name == name
      ensures name.segment == segment && name.mutex == mutex
      ensures old(name.segment) == null ==> fresh(segment) && segment.Contents() == Attach(None)
      ensures old(name.segment) != null ==>
                segment == old(name.segment)
                && segment.Contents() == Attach(Some(Segment(old(name.segment.packetStorage).GetOr([]),
                                                             old(name.segment.referenceCount).GetOr(0))))
      ensures old(name.mutex) != null ==> mutex == old(name.mutex)
      ensures old(name.mutex) == null ==> fresh(mutex) && !mutex.locked
    {
      this.name := name;
      var s := name.OpenSegment();
      var m := name.OpenMutex();
      segment, mutex := s, m;
      new;
      s.FindOrConstructPacketStorage();
      s.FindOrConstructReferenceCount();
      s.referenceCount := Some(s.referenceCount.value + 1);
    }

    /** The destructor. */
    method Close()
      requires Valid()
      modifies name, segment`referenceCount
      ensures Valid() && segment.Contents() == Detach(old(segment.Contents()))
      ensures if segment.Contents().count == 0 then name.segment == null && name.mutex == null
              else name.segment == old(name.segment) && name.mutex == old(name.mutex)
    {
      segment.referenceCount := Some(segment.referenceCount.value - 1);
      if segment.referenceCount.value == 0 {
        name.Destroy();
      }
    }

    method Send(packet: Packet)
      requires Valid() && !mutex.locked
      modifies mutex, segment`packetStorage
      ensures Valid() && !mutex.locked
      ensures segment.Contents() ==
              old(segment.Contents()).(store := Apply(old(segment.Contents().store), Enqueue(packet)))
    {
      mutex.Lock();
      var internal := Packet(packet.schema, packet.data);
      segment.packetStorage := Some(segment.packetStorage.value + [internal]);
      mutex.Unlock();
    }

    /** Returns the whole store, in order, and leaves it empty. */
    method Receive() returns (received: seq<Packet>)
      requires Valid() && !mutex.locked
      modifies mutex, segment`packetStorage
      ensures Valid() && !mutex.locked
      ensures received == old(segment.Contents().store)
      ensures segment.Contents() == old(segment.Contents()).(store := [])
    {
      mutex.Lock();
      received := [];
      for next := 0 to |segment.packetStorage.value|
        invariant segment.Constructed() && segment.packetStorage == old(segment.packetStorage)
        invariant mutex.locked
        invariant received == segment.packetStorage.value[..next]
      {
        var internal := segment.packetStorage.value[next];
        received := received + [Packet(internal.schema, internal.data)];
      }
      segment.packetStorage := Some([]);
      mutex.Unlock();
    }
  }
}
