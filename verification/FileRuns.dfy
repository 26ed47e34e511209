/** Runs of sends by any number of transports on one file, and what a receive finds afterwards. */
module FileRuns {
  import opened LittleEndian
  import opened PacketCodec
  import opened FileLog
  import opened Wrappers

  /** One send by one of any number of transports on the same file. */
  datatype Send = Send(sender: nat, packet: Packet)

  /** The file, and the transports whose `first_time_sending_` is already false. */
  datatype FileState = FileState(content: Option<seq<byte>>, started: set<nat>)

  function Next(state: FileState, s: Send): FileState {
    FileState(Some(AfterSend(state.content, s.sender !in state.started, s.packet)), state.started + {s.sender})
  }

  /** The state after all sends; before the first one the file may hold anything or be missing. */
  function Run(initial: Option<seq<byte>>, sends: seq<Send>): FileState {
    if sends == [] then
      FileState(initial, {})
    else
      Next(Run(initial, sends[..|sends| - 1]), sends[|sends| - 1])
  }

  /** The packets of the sends that returned normally. */
  function Written(sends: seq<Send>): (ps: seq<Packet>)
    ensures AllAllocatable(ps)
  {
    if sends == [] then [] else Written(sends[..|sends| - 1]) + Kept(sends[|sends| - 1].packet)
  }

  lemma {:induction false} WrittenConcat(xs: seq<Send>, ys: seq<Send>)
    ensures Written(xs + ys) == Written(xs) + Written(ys)
  {
    hide Kept;
    if ys == [] {
      assert xs + ys == xs && Written(xs) + [] == Written(xs);
    } else {
      var front, last, n := ys[..|ys| - 1], ys[|ys| - 1], |xs + ys| - 1;
      WrittenConcat(xs, front);
      assert (xs + ys)[..n] == xs + front && (xs + ys)[n] == last;
      assert Written(xs) + Written(front) + Kept(last.packet) == Written(xs) + (Written(front) + Kept(last.packet));
    }
  }

  predicate NoneAllocatable(sends: seq<Send>) {
    forall i | 0 <= i < |sends| :: !Allocatable(sends[i].packet)
  }

  lemma {:induction false} WrittenNothing(sends: seq<Send>)
    ensures Written(sends) == [] <==> NoneAllocatable(sends)
  {
    if sends != [] {
      WrittenNothing(sends[..|sends| - 1]);
      assert forall i | 0 <= i < |sends| - 1 :: sends[..|sends| - 1][i] == sends[i];
    }
  }

  /** The send at `i` is the first one of its transport. */
  predicate IsFirst(sends: seq<Send>, i: nat)
    requires i < |sends|
  {
    forall j | 0 <= j < i :: sends[j].sender != sends[i].sender
  }

  /** `i` is the position of the most recent first send. */
  predicate IsLastFirst(sends: seq<Send>, i: nat) {
    i < |sends| && IsFirst(sends, i) && forall j | i < j < |sends| :: !IsFirst(sends, j)
  }

  lemma {:induction false} StartedAfter(initial: Option<seq<byte>>, sends: seq<Send>, sender: nat)
    ensures sender in Run(initial, sends).started <==> exists j | 0 <= j < |sends| :: sends[j].sender == sender
  {
    hide AfterSend;
    if sends != [] {
      var n := |sends| - 1;
      StartedAfter(initial, sends[..n], sender);
      assert Run(initial, sends).started == Run(initial, sends[..n]).started + {sends[n].sender};
      assert forall j | 0 <= j < n :: sends[..n][j] == sends[j];
    }
  }

  lemma LastFirstOfFront(sends: seq<Send>, i: nat)
    requires IsLastFirst(sends, i) && i < |sends| - 1
    ensures IsLastFirst(sends[..|sends| - 1], i)
    ensures !IsFirst(sends, |sends| - 1)
  {
    var front := sends[..|sends| - 1];
    forall j | i <= j < |front| ensures IsFirst(front, j) <==> IsFirst(sends, j) {
      assert forall k | 0 <= k <= j :: front[k] == sends[k];
    }
  }

  /**
   * After any sends by any transports the file is the log of exactly the packets sent since, and
   * including, the most recent first send of any transport.
   */
  lemma {:induction false} FileHoldsSendsSinceLastFirst(initial: Option<seq<byte>>, sends: seq<Send>, i: nat)
    requires IsLastFirst(sends, i)
    ensures Run(initial, sends).content == Some(Log(Written(sends[i..])))
  {
    hide AfterSend, Log, Kept;
    var n := |sends| - 1;
    var front, last := sends[..n], sends[n];
    StartedAfter(initial, front, last.sender);
    assert last.sender in Run(initial, front).started <==> !IsFirst(sends, n) by {
      assert forall j | 0 <= j < n :: front[j] == sends[j];
    }
    if i == n {
      assert sends[i..] == [last] && [last][..0] == [];
      assert Written([last]) == Kept(last.packet);
      SendKeepsLog(Run(initial, front).content, [], last.packet);
    } else {
      LastFirstOfFront(sends, i);
      FileHoldsSendsSinceLastFirst(initial, front, i);
      assert sends[i..][..n - i] == front[i..];
      SendKeepsLog(Run(initial, front).content, Written(front[i..]), last.packet);
    }
  }

  /** Once something was sent there is a most recent first send. */
  lemma LastFirstExists(sends: seq<Send>) returns (i: nat)
    requires sends != []
    ensures IsLastFirst(sends, i)
  {
    i := |sends| - 1;
    while !IsFirst(sends, i)
      invariant i < |sends| && forall j | i < j < |sends| :: !IsFirst(sends, j)
      decreases i
    {
      assert i != 0;
      i := i - 1;
    }
  }

  /** A send that appends always finds a well-formed log. */
  lemma AppendingSendFindsLog(initial: Option<seq<byte>>, sends: seq<Send>, sender: nat) returns (i: nat)
    requires sender in Run(initial, sends).started
    ensures IsLastFirst(sends, i)
    ensures Run(initial, sends).content == Some(Log(Written(sends[i..])))
  {
    i := LastFirstExists(sends);
    FileHoldsSendsSinceLastFirst(initial, sends, i);
  }

  lemma ReceivedAfterRun(initial: Option<seq<byte>>, sends: seq<Send>, i: nat, junk: seq<byte> -> Packet)
    requires IsLastFirst(sends, i)
    ensures Received(Run(initial, sends).content, junk) == Success(Written(sends[i..]))
  {
    assert i < |sends|;
    hide Run, Received, Written, IsLastFirst, Log;
    FileHoldsSendsSinceLastFirst(initial, sends, i);
    ReceiveInvertsSends(Written(sends[i..]), junk);
  }

  /** No transport sends for the first time after another one has written a packet. */
  predicate NothingTruncated(sends: seq<Send>) {
    forall i, j | 0 <= i < j < |sends| && IsFirst(sends, j) :: !Allocatable(sends[i].packet)
  }

  /** It is the most recent first send that decides what is truncated. */
  lemma OnlyLastFirstTruncates(sends: seq<Send>, last: nat)
    requires IsLastFirst(sends, last)
    ensures NothingTruncated(sends) <==> NoneAllocatable(sends[..last])
  {
    hide Allocatable;
    assert forall i | 0 <= i < last :: sends[..last][i] == sends[i];
    assert forall j | 0 <= j < |sends| && IsFirst(sends, j) :: j <= last;
  }

  /** Before the first send there is nothing to receive, unless the file is an older log. */
  lemma NothingBeforeFirstSend(initial: Option<seq<byte>>, junk: seq<byte> -> Packet)
    requires !HasSignature(initial)
    ensures Received(Run(initial, []).content, junk) == Success([])
    ensures Written([]) == [] && NothingTruncated([])
  {
  }

  /**
   * A receive after any sends, or none, returns every packet ever written if and only if nothing was truncated.
   */
  lemma NothingLostIffNothingTruncated(initial: Option<seq<byte>>, sends: seq<Send>, junk: seq<byte> -> Packet)
    requires sends == [] ==> !HasSignature(initial)
    ensures Received(Run(initial, sends).content, junk) == Success(Written(sends)) <==> NothingTruncated(sends)
  {
    hide Received, Run, Written, IsFirst, NothingTruncated, NoneAllocatable, HasSignature;
    if sends == [] {
      NothingBeforeFirstSend(initial, junk);
      return;
    }
    var last := LastFirstExists(sends);
    assert last < |sends|;
    ReceivedAfterRun(initial, sends, last, junk);
    OnlyLastFirstTruncates(sends, last);
    hide IsLastFirst;
    WrittenNothing(sends[..last]);
    assert sends == sends[..last] + sends[last..];
    WrittenConcat(sends[..last], sends[last..]);
    assert |Written(sends)| == |Written(sends[..last])| + |Written(sends[last..])|;
    assert [] + Written(sends[last..]) == Written(sends[last..]);
  }

  predicate SingleSender(sends: seq<Send>) {
    forall i, j | 0 <= i < |sends| && 0 <= j < |sends| :: sends[i].sender == sends[j].sender
  }

  /** When every send succeeds, nothing is lost if and only if one transport did all the sending. */
  lemma NothingLostIffSingleSender(initial: Option<seq<byte>>, sends: seq<Send>, junk: seq<byte> -> Packet)
    requires sends == [] ==> !HasSignature(initial)
    requires forall s | s in sends :: Allocatable(s.packet)
    ensures Received(Run(initial, sends).content, junk) == Success(Written(sends)) <==> SingleSender(sends)
  {
    NothingLostIffNothingTruncated(initial, sends, junk);
    hide Received, Run, Written;
    if NothingTruncated(sends) {
      forall j | 0 <= j < |sends| ensures sends[j].sender == sends[0].sender {
        AllStartedByFirst(sends, j);
      }
    }
  }

  lemma {:induction false} AllStartedByFirst(sends: seq<Send>, j: nat)
    requires NothingTruncated(sends) && j < |sends|
    requires forall s | s in sends :: Allocatable(s.packet)
    ensures sends[j].sender == sends[0].sender
  {
    if j != 0 {
      assert !IsFirst(sends, j) by {
        assert Allocatable(sends[0].packet);
      }
      var k :| 0 <= k < j && sends[k].sender == sends[j].sender;
      AllStartedByFirst(sends, k);
    }
  }

  /** Two transports, one packet each: the first packet is gone. */
  lemma SecondSenderTruncates(p: Packet, q: Packet, junk: seq<byte> -> Packet)
    requires Allocatable(p) && Allocatable(q)
    ensures var sends := [Send(0, p), Send(1, q)];
            && Written(sends) == [p, q]
            && Received(Run(None, sends).content, junk) == Success([q])
  {
    var sends := [Send(0, p), Send(1, q)];
    assert IsLastFirst(sends, 1);
    assert sends[..1] == [Send(0, p)] && sends[1..] == [Send(1, q)];
    assert Written(sends[..1]) == [p] by { WrittenOne(Send(0, p)); }
    assert Written(sends[1..]) == [q] by { WrittenOne(Send(1, q)); }
    ReceivedAfterRun(None, sends, 1, junk);
  }

  lemma WrittenOne(s: Send)
    ensures Written([s]) == Kept(s.packet)
  {
    assert [s][..0] == [];
  }

  lemma LastFirstOfMore(sends: seq<Send>, more: seq<Send>, i: nat)
    requires IsLastFirst(sends, i)
    requires forall j | |sends| <= j < |sends + more| :: !IsFirst(sends + more, j)
    ensures IsLastFirst(sends + more, i)
    ensures i < |sends|
  {
    forall j | i <= j < |sends| ensures IsFirst(sends + more, j) <==> IsFirst(sends, j) {
      assert forall k | 0 <= k <= j :: (sends + more)[k] == sends[k];
    }
  }

  /**
   * A receive consumes nothing: as long as no transport sends for the first time, later receives only extend
   * earlier ones, by the packets written in between.
   */
  lemma ReceivesGrow(initial: Option<seq<byte>>, sends: seq<Send>, more: seq<Send>, junk: seq<byte> -> Packet)
    requires sends == [] ==> !HasSignature(initial)
    requires forall j | |sends| <= j < |sends + more| :: !IsFirst(sends + more, j)
    ensures var earlier := Received(Run(initial, sends).content, junk);
            && earlier.Success?
            && Received(Run(initial, sends + more).content, junk) == Success(earlier.value + Written(more))
  {
    if sends == [] {
      assert more == [] by {
        assert more != [] ==> IsFirst(sends + more, 0);
      }
      assert sends + more == [];
      NothingBeforeFirstSend(initial, junk);
      return;
    }
    hide Received, Run, Written, Kept;
    var i := LastFirstExists(sends);
    LastFirstOfMore(sends, more, i);
    hide IsFirst, IsLastFirst;
    assert (sends + more)[i..] == sends[i..] + more;
    WrittenConcat(sends[i..], more);
    ReceivedAfterRun(initial, sends, i, junk);
    ReceivedAfterRun(initial, sends + more, i, junk);
  }
}
