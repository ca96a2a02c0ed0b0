/** What the rings of server9.c guarantee over whole runs. */
module SendQueueTheorems {
  import opened CStrings
  import opened SendQueue
  import opened SendQueueInvariant
  import Echo

  // ---- From rings to descriptors ----

  /** A descriptor's messages all pass through the one ring its number selects. */
  lemma {:induction false} PickThroughLane(log: seq<Message>, fd: nat)
    ensures Pick(Pick(log, OfLane(Qi(fd))), OnFd(fd)) == Pick(log, OnFd(fd))
  {
    if log != [] {
      var pre, m := log[..|log| - 1], log[|log| - 1];
      PickThroughLane(pre, fd);
      PickAppend(Pick(pre, OfLane(Qi(fd))), m, OnFd(fd));
    }
  }

  lemma {:induction false} AnswersOnFd(sent: seq<Message>, received: seq<Message>, fd: nat)
    requires Answers(sent, received)
    ensures Answers(Pick(sent, OnFd(fd)), Pick(received, OnFd(fd)))
    ensures |sent| == |received| ==> |Pick(sent, OnFd(fd))| == |Pick(received, OnFd(fd))|
    decreases |received|
  {
    if received != [] {
      var pre := received[..|received| - 1];
      if |sent| == |received| {
        AnswersOnFd(sent[..|sent| - 1], pre, fd);
      } else {
        AnswersOnFd(sent, pre, fd);
      }
    }
  }

  /** Nothing is pending, in work or unpublished in the ring of `fd`. */
  predicate Settled(s: State, q: nat)
    requires WellFormed(s) && q < MAXSENDER
  {
    Pending(s.lanes[q]) == 0 && !s.lanes[q].sender.Working? && Unpublished(ViewOf(s.recv, q)) == 0
  }

  lemma AnswersOf(s: State, fd: nat)
    requires Inv(s)
    ensures Answers(Pick(s.sent, OnFd(fd)), Pick(s.received, OnFd(fd)))
    ensures Settled(s, Qi(fd)) ==> |Pick(s.sent, OnFd(fd))| == |Pick(s.received, OnFd(fd))|
  {
    PickThroughLane(s.sent, fd);
    PickThroughLane(s.received, fd);
    AnswersOnFd(Pick(s.sent, OfLane(Qi(fd))), Pick(s.received, OfLane(Qi(fd))), fd);
  }

  /** In every interleaving, what has been sent on a descriptor is the in-order image of a
      prefix of what has been received on it, each message answered at most once; and exactly
      once as soon as its ring has settled. */
  lemma InOrderExactlyOnce(es: seq<Event>, fd: nat)
    requires Runs(INITIAL, es)
    ensures var s := After(INITIAL, es);
            && WellFormed(s)
            && Answers(Pick(s.sent, OnFd(fd)), Pick(s.received, OnFd(fd)))
            && (Settled(s, Qi(fd)) ==> |Pick(s.sent, OnFd(fd))| == |Pick(s.received, OnFd(fd))|)
  {
    InitialInv();
    RunKeepsInv(INITIAL, es);
    AnswersOf(After(INITIAL, es), fd);
  }

  // ---- Slots and locks ----

  /** In every reachable state, the slot the receiver writes without the lock is neither a
      pending slot of that ring nor the one its sender works on without the lock. */
  lemma UnlockedSlotsDisjoint(es: seq<Event>, q: nat)
    requires Runs(INITIAL, es) && q < MAXSENDER
    ensures var s := After(INITIAL, es);
            && WellFormed(s)
            && var l := s.lanes[q];
               Writing(ViewOf(s.recv, q)) ==>
                 && (forall k :: 0 <= k < Pending(l) ==> Entry(l, k) != l.last)
                 && (l.sender.Working? ==> l.sender.slot != l.last)
  {
    InitialInv();
    RunKeepsInv(INITIAL, es);
    var s := After(INITIAL, es);
    if Writing(ViewOf(s.recv, q)) {
      LastApart(s.lanes[q], ViewOf(s.recv, q));
    }
  }

  /** A full ring: the slot to be written next is the one in work if and only if MAXQUEUESZ - 1
      entries are pending, and then publishing makes the ring look empty instead of adding an
      entry. */
  lemma FullRing(l: Lane)
    requires WellShaped(l)
    ensures l.sender.Working? && QueueNext(l.sender.slot) == l.front ==>
              (l.last == l.sender.slot <==> Pending(l) == MAXQUEUESZ - 1)
    ensures var r := l.(last := QueueNext(l.last));
            && (Pending(r) == Pending(l) + 1 <==> Pending(l) <= MAXQUEUESZ - 2)
            && (Pending(r) == 0 <==> Pending(l) == MAXQUEUESZ - 1)
  {
    assert QueueNext(l.last) == if l.last + 1 == MAXQUEUESZ then 0 else l.last + 1;
  }

  /** The receiver writes no slot that is pending or in work, and every message received is
      answered, in work, pending or about to be published. */
  predicate LaneSafe(l: Lane, v: View, received: seq<Message>, sent: seq<Message>)
    requires WellShaped(l)
  {
    && (Writing(v) ==>
          && (forall k :: 0 <= k < Pending(l) ==> Entry(l, k) != l.last)
          && (l.sender.Working? ==> l.sender.slot != l.last))
    && |received| == |sent| + InWork(l) + Pending(l) + Unpublished(v)
  }

  predicate Safe(s: State) {
    && WellFormed(s)
    && forall q :: 0 <= q < MAXSENDER ==>
         LaneSafe(s.lanes[q], ViewOf(s.recv, q), Pick(s.received, OfLane(q)), Pick(s.sent, OfLane(q)))
  }

  lemma LaneInvIsSafe(l: Lane, v: View, received: seq<Message>, sent: seq<Message>)
    requires LaneInv(l, v, received, sent)
    ensures LaneSafe(l, v, received, sent)
  {
    if Writing(v) {
      LastApart(l, v);
    }
  }

  lemma InvIsSafe(s: State)
    requires Inv(s)
    ensures Safe(s)
  {
    hide LaneInv, LaneSafe, Pick;
    forall q | 0 <= q < MAXSENDER
      ensures LaneSafe(s.lanes[q], ViewOf(s.recv, q), Pick(s.received, OfLane(q)), Pick(s.sent, OfLane(q)))
    {
      assert LaneInv(s.lanes[q], ViewOf(s.recv, q), Pick(s.received, OfLane(q)), Pick(s.sent, OfLane(q)));
      LaneInvIsSafe(s.lanes[q], ViewOf(s.recv, q), Pick(s.received, OfLane(q)), Pick(s.sent, OfLane(q)));
    }
  }

  /** Writing without room writes the slot in work. */
  lemma NoRoomToWrite(l: Lane, v: View, received: seq<Message>, sent: seq<Message>, r: Lane, w: View)
    requires LaneInv(l, v, received, sent) && !HasRoom(l) && Writing(w)
    requires r.sender == l.sender && r.last == l.last && WellShaped(r)
    ensures !LaneSafe(r, w, received, sent)
  {
    FullRing(l);
  }

  /** Publishing into a full ring loses its entries. */
  lemma NoRoomToPublish(l: Lane, received: seq<Message>, sent: seq<Message>)
    requires LaneInv(l, Held, received, sent) && Pending(l) > MAXQUEUESZ - 2
    ensures var r := l.(last := QueueNext(l.last)); WellShaped(r) && !LaneSafe(r, Moved, received, sent)
  {
    FullRing(l);
  }

  /** For one step the hypothesis is not only sufficient but necessary. */
  lemma RoomIsNeeded(s: State, e: Event)
    requires Inv(s) && Enabled(s, e)
    ensures Safe(Apply(s, e)) <==> Room(s, e)
  {
    hide LaneInv, LaneSafe, Pick, WellShaped, Pending;
    ShapeKept(s, e);
    var r := Apply(s, e);
    if Room(s, e) {
      StepKeepsInv(s, e);
      InvIsSafe(r);
    } else {
      var q := Qi(if e.Ready? then e.fd else s.recv.fd);
      var received, sent := Pick(s.received, OfLane(q)), Pick(s.sent, OfLane(q));
      if e.Ready? {
        NoRoomToWrite(s.lanes[q], ViewOf(s.recv, q), received, sent, r.lanes[q], ViewOf(r.recv, q));
      } else {
        NoRoomToPublish(s.lanes[q], received, sent);
      }
      assert !LaneSafe(r.lanes[q], ViewOf(r.recv, q), received, sent);
    }
  }

  /** Two descriptors share a ring exactly when both are even or both odd. */
  lemma SharesRing(fd: nat, other: nat)
    ensures Qi(fd) == Qi(other) <==> fd % 2 == other % 2
  {
  }

  /** A new connection is taken in while at most 18 are open, and closed at once otherwise. */
  lemma AcceptLimit(s: State, fd: nat)
    requires WellFormed(s) && Enabled(s, Accept(fd))
    ensures var r := Apply(s, Accept(fd));
            && r.conns == (if |s.conns| <= 18 then s.conns[fd := s.accepted] else s.conns)
            && r.accepted == s.accepted + 1
  {
  }

  // ---- A ring that fills up ----

  /** As `Runs` and `After`, without the occupancy hypothesis. */
  predicate Goes(s: State, es: seq<Event>)
    decreases |es|
  {
    es == [] || (WellFormed(s) && Enabled(s, es[0]) && Goes(Apply(s, es[0]), es[1..]))
  }

  function Then(s: State, es: seq<Event>): (r: State)
    requires Goes(s, es)
    decreases |es|
  {
    if es == [] then s else Then(Apply(s, es[0]), es[1..])
  }

  lemma GoesCons(s: State, e: Event, rest: seq<Event>)
    requires WellFormed(s) && Enabled(s, e) && Goes(Apply(s, e), rest)
    ensures Goes(s, [e] + rest) && Then(s, [e] + rest) == Then(Apply(s, e), rest)
  {
    assert ([e] + rest)[1..] == rest;
  }

  lemma {:induction false} GoesConcat(s: State, es: seq<Event>, fs: seq<Event>)
    requires Goes(s, es) && Goes(Then(s, es), fs)
    ensures Goes(s, es + fs) && Then(s, es + fs) == Then(Then(s, es), fs)
    decreases |es|
  {
    hide Apply, Enabled, WellFormed, Room;
    if es == [] {
      assert es + fs == fs;
    } else {
      GoesConcat(Apply(s, es[0]), es[1..], fs);
      GoesCons(s, es[0], es[1..] + fs);
      assert es + fs == [es[0]] + (es[1..] + fs);
    }
  }

  lemma {:induction false} RunsGoes(s: State, es: seq<Event>)
    requires Runs(s, es)
    ensures Goes(s, es) && Then(s, es) == After(s, es)
    decreases |es|
  {
    if es != [] {
      RunsGoes(Apply(s, es[0]), es[1..]);
    }
  }

  predicate SafeThroughout(s: State, es: seq<Event>)
    requires Goes(s, es)
    decreases |es|
  {
    Safe(s) && (es != [] ==> SafeThroughout(Apply(s, es[0]), es[1..]))
  }

  /** The exact condition for a whole run of the program: it is safe throughout if and only if
      the occupancy hypothesis holds at each of its steps. */
  lemma {:induction false} SafeWithRoom(s: State, es: seq<Event>)
    requires Inv(s) && Goes(s, es)
    ensures SafeThroughout(s, es) <==> Runs(s, es)
    decreases |es|
  {
    InvIsSafe(s);
    if es != [] {
      RoomIsNeeded(s, es[0]);
      if Room(s, es[0]) {
        StepKeepsInv(s, es[0]);
        SafeWithRoom(Apply(s, es[0]), es[1..]);
      }
    }
  }

  /** The receiving thread takes one message from `fd` and hands it to its ring. */
  function ReceiveOne(fd: nat, text: seq<byte>): (es: seq<Event>) {
    [Ready(fd), RecvData(text), LockRing, Publish, Signal, UnlockRing]
  }

  /** `n` messages of `fd` have been received and none sent: both senders have yet to take
      their first step, and the last index of the ring stands at `last`. */
  predicate Waiting(s: State, fd: nat, n: nat, last: nat) {
    && WellFormed(s) && fd in s.conns
    && |s.received| == n && s.sent == [] && (forall k :: 0 <= k < n ==> s.received[k].fd == fd)
    && (forall q :: 0 <= q < MAXSENDER ==> s.lanes[q].sender.Start? && s.lanes[q].owner.Free? && s.lanes[q].front == 0)
    && s.lanes[Qi(fd)].last == last && s.lanes[1 - Qi(fd)].last == 0
  }

  predicate Queued(s: State, fd: nat, n: nat, last: nat) {
    s.recv.Polling? && Waiting(s, fd, n, last)
  }

  lemma TakesMessage(s: State, fd: nat, text: seq<byte>, n: nat, last: nat)
    requires Queued(s, fd, n, last) && 1 <= |text| < Echo.BUFSZ
    ensures WellFormed(s) && Enabled(s, Ready(fd)) && Goes(Apply(s, Ready(fd)), [RecvData(text)])
    ensures var r := Then(Apply(s, Ready(fd)), [RecvData(text)]);
            r.recv == Receiver.Filled(fd) && Waiting(r, fd, n + 1, last)
  {
    var a := Apply(s, Ready(fd));
    ShapeKept(s, Ready(fd));
    ShapeKept(a, RecvData(text));
    assert [RecvData(text)][1..] == [];
  }

  lemma HandsOver(s: State, fd: nat, n: nat, last: nat)
    requires Waiting(s, fd, n, last) && s.recv == Receiver.Filled(fd)
    ensures var es := [LockRing, Publish, Signal, UnlockRing];
            && Goes(s, es) && Queued(Then(s, es), fd, n, QueueNext(last))
            && (last <= MAXQUEUESZ - 2 ==> Runs(s, es))
  {
    hide QueueNext, WellShaped;
    var a := Apply(s, LockRing);
    ShapeKept(s, LockRing);
    var b := Apply(a, Publish);
    ShapeKept(a, Publish);
    var c := Apply(b, Signal);
    ShapeKept(b, Signal);
    var d := Apply(c, UnlockRing);
    ShapeKept(c, UnlockRing);
    GoesCons(c, UnlockRing, []);
    GoesCons(b, Signal, [UnlockRing]);
    assert [Signal] + [UnlockRing] == [Signal, UnlockRing];
    GoesCons(a, Publish, [Signal, UnlockRing]);
    assert [Publish] + [Signal, UnlockRing] == [Publish, Signal, UnlockRing];
    GoesCons(s, LockRing, [Publish, Signal, UnlockRing]);
    assert [LockRing] + [Publish, Signal, UnlockRing] == [LockRing, Publish, Signal, UnlockRing];
    if last <= MAXQUEUESZ - 2 {
      HeldRuns(b, [Signal, UnlockRing]);
      assert Pending(a.lanes[Qi(fd)]) == last;
      RunsCons(a, Publish, [Signal, UnlockRing]);
      RunsCons(s, LockRing, [Publish, Signal, UnlockRing]);
    }
  }

  lemma QueuesOne(s: State, fd: nat, text: seq<byte>, n: nat, last: nat)
    requires Queued(s, fd, n, last) && 1 <= |text| < Echo.BUFSZ
    ensures Goes(s, ReceiveOne(fd, text)) && Queued(Then(s, ReceiveOne(fd, text)), fd, n + 1, QueueNext(last))
    ensures last <= MAXQUEUESZ - 2 ==> Runs(s, ReceiveOne(fd, text))
  {
    hide QueueNext, Enabled, Apply, Waiting, Goes, Then, Runs, After, Room;
    var es := [LockRing, Publish, Signal, UnlockRing];
    TakesMessage(s, fd, text, n, last);
    var a := Apply(s, Ready(fd));
    var b := Then(a, [RecvData(text)]);
    HandsOver(b, fd, n + 1, last);
    GoesConcat(a, [RecvData(text)], es);
    GoesCons(s, Ready(fd), [RecvData(text)] + es);
    assert [Ready(fd)] + ([RecvData(text)] + es) == ReceiveOne(fd, text);
    if last <= MAXQUEUESZ - 2 {
      HeldRuns(a, [RecvData(text)]);
      RunsConcat(a, [RecvData(text)], es);
      IdleHasRoom(s, fd, n, last);
      RunsCons(s, Ready(fd), [RecvData(text)] + es);
    }
  }

  lemma IdleHasRoom(s: State, fd: nat, n: nat, last: nat)
    requires Queued(s, fd, n, last)
    ensures WellFormed(s) && Room(s, Ready(fd))
  {
  }

  lemma {:induction false} HeldRuns(s: State, es: seq<Event>)
    requires Goes(s, es) && forall i :: 0 <= i < |es| ==> !es[i].Ready? && !es[i].Publish?
    ensures Runs(s, es) && After(s, es) == Then(s, es)
    decreases |es|
  {
    if es != [] {
      HeldRuns(Apply(s, es[0]), es[1..]);
    }
  }

  lemma QueuesWithRoom(s: State, fd: nat, text: seq<byte>, n: nat)
    requires Queued(s, fd, n, n) && n <= MAXQUEUESZ - 2 && 1 <= |text| < Echo.BUFSZ
    ensures Runs(s, ReceiveOne(fd, text)) && Queued(After(s, ReceiveOne(fd, text)), fd, n + 1, n + 1)
  {
    QueuesOne(s, fd, text, n, n);
    RunsGoes(s, ReceiveOne(fd, text));
  }

  /** Every number of pending entries up to MAXQUEUESZ - 1 is reached within the occupancy
      hypothesis: nothing makes the receiver wait for the senders. */
  lemma {:induction false} RingFillsUp(fd: nat, texts: nat -> seq<byte>, n: nat) returns (es: seq<Event>)
    requires n <= MAXQUEUESZ - 1 && forall k :: 1 <= |texts(k)| < Echo.BUFSZ
    ensures Runs(INITIAL, es) && Queued(After(INITIAL, es), fd, n, n)
    ensures Pending(After(INITIAL, es).lanes[Qi(fd)]) == n
    ensures forall i :: 0 <= i < |es| ==> !es[i].RecvEnd?
    decreases n
  {
    if n == 0 {
      es := [Accept(fd)];
      RunsCons(INITIAL, Accept(fd), []);
    } else {
      var front := RingFillsUp(fd, texts, n - 1);
      var s := After(INITIAL, front);
      QueuesWithRoom(s, fd, texts(n), n - 1);
      RunsConcat(INITIAL, front, ReceiveOne(fd, texts(n)));
      es := front + ReceiveOne(fd, texts(n));
    }
  }

  /** With both rings looking empty and no sender at work, the senders send nothing. */
  lemma {:induction false} NothingToSend(s: State, es: seq<Event>)
    requires WellFormed(s) && Goes(s, es) && forall i :: 0 <= i < |es| ==> es[i].Turn?
    requires forall q :: 0 <= q < MAXSENDER ==> LaneDone(s.lanes[q])
    ensures Then(s, es).sent == s.sent
    decreases |es|
  {
    if es != [] {
      ShapeKept(s, es[0]);
      NothingToSend(Apply(s, es[0]), es[1..]);
    }
  }

  lemma QueueLost(s: State, fd: nat, n: nat)
    requires Queued(s, fd, n, 0)
    ensures LaneDone(s.lanes[Qi(fd)])
    ensures forall es: seq<Event> :: Goes(s, es) && (forall i :: 0 <= i < |es| ==> es[i].Turn?) ==>
              Then(s, es).sent == []
  {
    hide Goes, Then;
    forall q | 0 <= q < MAXSENDER ensures LaneDone(s.lanes[q]) {
      assert q == Qi(fd) || q == 1 - Qi(fd);
    }
    forall es: seq<Event> | Goes(s, es) && (forall i :: 0 <= i < |es| ==> es[i].Turn?) ensures Then(s, es).sent == [] {
      NothingToSend(s, es);
    }
  }

  /** One message more than a ring can hold loses them all: MAXQUEUESZ received, none sent,
      and the ring looks empty, so that the senders will not send any of them. */
  lemma FullRingLosesReplies(fd: nat, texts: nat -> seq<byte>) returns (es: seq<Event>)
    requires forall k :: 1 <= |texts(k)| < Echo.BUFSZ
    ensures Goes(INITIAL, es)
    ensures var s := Then(INITIAL, es);
            && s.recv.Polling? && |s.received| == 4096 && s.sent == []
            && WellFormed(s) && LaneDone(s.lanes[Qi(fd)])
            && forall fs: seq<Event> :: Goes(s, fs) && (forall i :: 0 <= i < |fs| ==> fs[i].Turn?) ==>
                 Then(s, fs).sent == []
  {
    hide Goes, Then, Runs, After, WellFormed, LaneDone;
    var front := RingFillsUp(fd, texts, MAXQUEUESZ - 1);
    RunsGoes(INITIAL, front);
    var s0 := Then(INITIAL, front);
    QueuesOne(s0, fd, texts(0), MAXQUEUESZ - 1, MAXQUEUESZ - 1);
    es := front + ReceiveOne(fd, texts(0));
    GoesConcat(INITIAL, front, ReceiveOne(fd, texts(0)));
    assert QueueNext(MAXQUEUESZ - 1) == 0;
    QueueLost(Then(INITIAL, es), fd, MAXQUEUESZ);
  }

  /** Whenever a ring's mutex is free, a sender parked and not yet woken implies an empty ring:
      no wake-up is lost. */
  lemma NoLostWakeup(es: seq<Event>, q: nat)
    requires Runs(INITIAL, es) && q < MAXSENDER
    ensures var s := After(INITIAL, es);
            && WellFormed(s)
            && (s.lanes[q].owner.Free? && s.lanes[q].sender.Parked? ==> s.lanes[q].front == s.lanes[q].last)
  {
    InitialInv();
    RunKeepsInv(INITIAL, es);
  }

  // ---- Progress ----

  predicate LaneDone(l: Lane) {
    Pending(l) == 0 && !l.sender.Working?
  }

  /** The one step a sender that has something to do can take next. */
  function NextOp(l: Lane): (op: Op) {
    match l.sender
    case Start => Lock
    case Testing => Test
    case Parked => Spurious
    case Woken => Relock
    case Resumed => Resume
    case Working(_, st) =>
      match st
      case Taken => Release
      case Raw => End
      case Ended => CutAt
      case Cut => Append
      case Appended => Measure
      case Measured => Send
  }

  function Rank(l: Lane): (n: nat)
    requires WellShaped(l)
  {
    20 * Pending(l) +
    match l.sender
    case Start => 2
    case Testing => 1
    case Parked => 0
    case Woken => 4
    case Resumed => 3
    case Working(_, st) =>
      match st
      case Taken => 10
      case Raw => 9
      case Ended => 8
      case Cut => 7
      case Appended => 6
      case Measured => 5
  }

  lemma LaneMoves(l: Lane, received: seq<Message>, sent: seq<Message>)
    requires LaneInv(l, Away, received, sent) && !LaneDone(l)
    ensures !NextOp(l).Spurious? && OpEnabled(l, NextOp(l))
  {
  }

  lemma LaneSinks(l: Lane)
    requires WellShaped(l) && !NextOp(l).Spurious? && OpEnabled(l, NextOp(l)) && WellShaped(SenderStep(l, NextOp(l)))
    ensures Rank(SenderStep(l, NextOp(l))) < Rank(l)
  {
    if l.sender.Testing? && l.front != l.last {
      EntryShift(l, SenderStep(l, Test), 0);
    }
  }

  /** While the receiver polls, a ring with work left always lets its sender move, and the
      move brings it closer to the end. */
  lemma SenderMoves(s: State, q: nat)
    requires Inv(s) && s.recv.Polling? && q < MAXSENDER && !LaneDone(s.lanes[q])
    ensures var op := NextOp(s.lanes[q]);
            && !op.Spurious?
            && Enabled(s, Turn(q, op))
            && WellFormed(Apply(s, Turn(q, op)))
            && Rank(Apply(s, Turn(q, op)).lanes[q]) < Rank(s.lanes[q])
  {
    hide Pick, LaneInv, Rank, SenderStep;
    var l := s.lanes[q];
    LaneMoves(l, Pick(s.received, OfLane(q)), Pick(s.sent, OfLane(q)));
    ShapeKept(s, Turn(q, NextOp(l)));
    assert Apply(s, Turn(q, NextOp(l))).lanes[q] == SenderStep(l, NextOp(l));
    LaneSinks(l);
  }

  /** What a stretch of sending steps leaves alone, and where its replies go. */
  predicate OnlySends(s: State, r: State) {
    && r.recv == s.recv && r.received == s.received && r.conns == s.conns && r.accepted == s.accepted
    && s.sent <= r.sent
    && forall k :: |s.sent| <= k < |r.sent| ==> r.sent[k].conn == ConnOf(s, r.sent[k].fd)
  }

  lemma OneSend(s: State, q: nat, op: Op, r: State)
    requires WellFormed(s) && Enabled(s, Turn(q, op)) && OnlySends(Apply(s, Turn(q, op)), r)
    ensures OnlySends(s, r)
  {
  }

  lemma {:induction false} DrainLane(s: State, q: nat) returns (es: seq<Event>)
    requires Inv(s) && s.recv.Polling? && q < MAXSENDER
    ensures Runs(s, es) && Inv(After(s, es)) && OnlySends(s, After(s, es))
    ensures LaneDone(After(s, es).lanes[q])
    ensures forall p :: 0 <= p < MAXSENDER && p != q ==> After(s, es).lanes[p] == s.lanes[p]
    decreases Rank(s.lanes[q])
  {
    if LaneDone(s.lanes[q]) {
      return [];
    }
    var e := Turn(q, NextOp(s.lanes[q]));
    SenderMoves(s, q);
    StepKeepsInv(s, e);
    var next := Apply(s, e);
    var rest := DrainLane(next, q);
    es := [e] + rest;
    RunsCons(s, e, rest);
    OneSend(s, q, e.op, After(s, es));
  }

  lemma RunsCons(s: State, e: Event, rest: seq<Event>)
    requires WellFormed(s) && Enabled(s, e) && Room(s, e) && Runs(Apply(s, e), rest)
    ensures Runs(s, [e] + rest) && After(s, [e] + rest) == After(Apply(s, e), rest)
  {
    assert ([e] + rest)[1..] == rest;
  }

  lemma {:induction false} RunsConcat(s: State, es: seq<Event>, fs: seq<Event>)
    requires Runs(s, es) && Runs(After(s, es), fs)
    ensures Runs(s, es + fs) && After(s, es + fs) == After(After(s, es), fs)
    decreases |es|
  {
    hide Apply, Enabled, WellFormed, Room;
    if es == [] {
      assert es + fs == fs;
    } else {
      RunsConcat(Apply(s, es[0]), es[1..], fs);
      RunsCons(s, es[0], es[1..] + fs);
      assert es + fs == [es[0]] + (es[1..] + fs);
    }
  }

  lemma DoneIsSettled(s: State, q: nat)
    requires WellFormed(s) && q < MAXSENDER && s.recv.Polling? && LaneDone(s.lanes[q])
    ensures Settled(s, q)
  {
  }

  /** From every reachable state in which the receiver polls, the senders alone can reach a
      state where every message received so far has been answered. */
  lemma EveryMessageCanBeAnswered(s: State) returns (es: seq<Event>)
    requires Inv(s) && s.recv.Polling?
    ensures Runs(s, es) && Inv(After(s, es)) && OnlySends(s, After(s, es))
    ensures forall fd: nat ::
              |Pick(After(s, es).sent, OnFd(fd))| == |Pick(s.received, OnFd(fd))|
  {
    hide Pick, LaneInv, Runs, After, Pending;
    var a := DrainLane(s, 0);
    var b := DrainLane(After(s, a), 1);
    es := a + b;
    RunsConcat(s, a, b);
    var r := After(s, es);
    forall fd: nat ensures |Pick(r.sent, OnFd(fd))| == |Pick(s.received, OnFd(fd))| {
      DoneIsSettled(r, Qi(fd));
      AnswersOf(r, fd);
    }
  }

  // ---- Connections behind descriptor numbers ----

  function Mine(s: State, fd: nat): (r: (seq<Message>, seq<Message>)) {
    (Pick(s.sent, OnFd(fd)), Pick(s.received, OnFd(fd)))
  }

  /** No message of `fd` is waiting for its reply. */
  predicate NothingOwed(s: State, fd: nat) {
    |Pick(s.sent, OnFd(fd))| == |Pick(s.received, OnFd(fd))|
  }

  /** Every descriptor that reaches end of file in the run has been answered in full. */
  predicate Orderly(s: State, es: seq<Event>)
    requires Runs(s, es)
    decreases |es|
  {
    es != [] ==>
      && (es[0].RecvEnd? ==> NothingOwed(s, s.recv.fd))
      && Orderly(Apply(s, es[0]), es[1..])
  }

  /** Replies sent went to the connection that asked; those still owed belong to the
      connection now open on the descriptor. */
  predicate HomeOn(s: State, fd: nat) {
    var (a, b) := Mine(s, fd);
    && |a| <= |b|
    && (forall k :: 0 <= k < |a| ==> a[k].conn == b[k].conn)
    && (|a| < |b| ==> fd in s.conns)
    && (forall k :: |a| <= k < |b| ==> b[k].conn == ConnOf(s, fd))
  }

  ghost predicate Home(s: State) {
    && (forall fd: nat :: HomeOn(s, fd))
    && 1 <= s.accepted
    && (forall fd :: fd in s.conns ==> 1 <= s.conns[fd] < s.accepted)
    && (s.recv.Filling? ==> s.recv.fd in s.conns)
  }

  lemma HomeKept(s: State, e: Event, fd: nat)
    requires Inv(s) && Enabled(s, e) && Room(s, e) && Home(s)
    requires e.RecvEnd? ==> NothingOwed(s, s.recv.fd)
    ensures HomeOn(Apply(s, e), fd)
  {
    hide LaneInv, Pick;
    var r := Apply(s, e);
    assert HomeOn(s, fd);
    if e.RecvData? {
      OwedMore(s, r, fd, Message(s.recv.fd, ConnOf(s, s.recv.fd), e.text));
    } else if e.Turn? && e.op.Send? {
      StepKeepsInv(s, e);
      AnswersOf(r, fd);
      OwedLess(s, r, fd, Sent(s, Current(s.lanes[e.q])));
    } else {
      ConnsKept(s, e, fd);
    }
  }

  lemma OwedMore(s: State, r: State, fd: nat, m: Message)
    requires HomeOn(s, fd) && m.fd in s.conns && m.conn == s.conns[m.fd]
    requires r.received == s.received + [m] && r.sent == s.sent && r.conns == s.conns
    ensures HomeOn(r, fd)
  {
    PickAppend(s.received, m, OnFd(fd));
  }

  lemma OwedLess(s: State, r: State, fd: nat, m: Message)
    requires HomeOn(s, fd) && m.conn == ConnOf(s, m.fd)
    requires r.received == s.received && r.sent == s.sent + [m] && r.conns == s.conns
    requires |Pick(r.sent, OnFd(fd))| <= |Pick(r.received, OnFd(fd))|
    ensures HomeOn(r, fd)
  {
    PickAppend(s.sent, m, OnFd(fd));
  }

  /** A step that logs nothing closes or opens `fd` only while nothing is owed on it. */
  lemma ConnsKept(s: State, e: Event, fd: nat)
    requires WellFormed(s) && Enabled(s, e) && HomeOn(s, fd)
    requires e.RecvEnd? ==> NothingOwed(s, s.recv.fd)
    requires !e.RecvData? && !(e.Turn? && e.op.Send?)
    ensures HomeOn(Apply(s, e), fd)
  {
    var r := Apply(s, e);
    assert r.sent == s.sent && r.received == s.received;
    if !NothingOwed(s, fd) {
      assert fd in r.conns && r.conns[fd] == s.conns[fd];
    }
  }

  lemma {:induction false} RunKeepsHome(s: State, es: seq<Event>)
    requires Inv(s) && Home(s) && Runs(s, es) && Orderly(s, es)
    ensures Inv(After(s, es)) && Home(After(s, es))
    decreases |es|
  {
    if es != [] {
      var r := Apply(s, es[0]);
      forall fd: nat ensures HomeOn(r, fd) { HomeKept(s, es[0], fd); }
      StepKeepsInv(s, es[0]);
      RunKeepsHome(r, es[1..]);
    }
  }

  /** Descriptor numbers are reused, and a slot remembers only the number. When every
      connection is answered in full before its end of file is handled, each reply reaches
      the connection its request came from. */
  lemma RepliesReachTheirConnection(es: seq<Event>, fd: nat)
    requires Runs(INITIAL, es) && Orderly(INITIAL, es)
    ensures var (a, b) := Mine(After(INITIAL, es), fd);
            |a| <= |b| && forall k :: 0 <= k < |a| ==> a[k].conn == b[k].conn
  {
    InitialInv();
    RunKeepsHome(INITIAL, es);
    assert HomeOn(After(INITIAL, es), fd);
  }

  /** The condition is needed: if an end of file is handled while a reply is owed, a new
      connection may get the number and receive that reply. */
  lemma EarlyEndMisdelivers(s: State) returns (es: seq<Event>, k: nat)
    requires Inv(s) && Home(s) && s.recv.Filling? && !NothingOwed(s, s.recv.fd)
    ensures Runs(s, es)
    ensures var (a, b) := Mine(After(s, es), s.recv.fd);
            k < |a| && k < |b| && a[k].conn != b[k].conn && a[k].conn == s.accepted
  {
    var fd := s.recv.fd;
    k := |Pick(s.sent, OnFd(fd))|;
    var s2 := EndAndAccept(s);
    hide Runs, After, Pick, Inv, Home, Apply, Enabled, ConnOf;
    var tail := EveryMessageCanBeAnswered(s2);
    es := [RecvEnd(false), Accept(fd)] + tail;
    RunsConcat(s, [RecvEnd(false), Accept(fd)], tail);
    NewOnFd(s2, After(s2, tail), fd);
    assert HomeOn(s, fd);
  }

  /** The end of file of a descriptor, then a new connection with its number. */
  lemma EndAndAccept(s: State) returns (r: State)
    requires Inv(s) && Home(s) && s.recv.Filling?
    ensures var es := [RecvEnd(false), Accept(s.recv.fd)]; Runs(s, es) && r == After(s, es)
    ensures Inv(r) && r.recv.Polling? && r.sent == s.sent && r.received == s.received
    ensures ConnOf(r, s.recv.fd) == s.accepted
  {
    hide LaneInv, Pick, HomeOn;
    var fd := s.recv.fd;
    var s1 := Apply(s, RecvEnd(false));
    StepKeepsInv(s, RecvEnd(false));
    assert |s1.conns| == |s.conns| - 1;
    r := Apply(s1, Accept(fd));
    StepKeepsInv(s1, Accept(fd));
    RunsCons(s1, Accept(fd), []);
    RunsCons(s, RecvEnd(false), [Accept(fd)]);
    assert [RecvEnd(false)] + [Accept(fd)] == [RecvEnd(false), Accept(fd)];
  }

  lemma {:induction false} NoEndOrderly(s: State, es: seq<Event>)
    requires Runs(s, es) && forall i :: 0 <= i < |es| ==> !es[i].RecvEnd?
    ensures Orderly(s, es)
    decreases |es|
  {
    if es != [] {
      NoEndOrderly(Apply(s, es[0]), es[1..]);
    }
  }

  /** An orderly run that leaves a reply owed on a ready descriptor. */
  lemma OwedAtReady(fd: nat, text: seq<byte>) returns (es: seq<Event>)
    requires 1 <= |text| < Echo.BUFSZ
    ensures Runs(INITIAL, es) && Orderly(INITIAL, es)
    ensures var s := After(INITIAL, es); s.recv == Receiver.Filling(fd) && !NothingOwed(s, fd)
  {
    var front := RingFillsUp(fd, _ => text, 1);
    var s := After(INITIAL, front);
    RunsCons(s, Ready(fd), []);
    RunsConcat(INITIAL, front, [Ready(fd)]);
    es := front + [Ready(fd)];
    NoEndOrderly(INITIAL, es);
    PickAppend([], s.received[0], OnFd(fd));
  }

  /** So the failure above happens in a run of the program, on any descriptor. */
  lemma MisdeliveryHappens(fd: nat, text: seq<byte>) returns (es: seq<Event>, k: nat)
    requires 1 <= |text| < Echo.BUFSZ
    ensures Runs(INITIAL, es)
    ensures var (a, b) := Mine(After(INITIAL, es), fd);
            k < |a| && k < |b| && a[k].conn != b[k].conn
  {
    var front := OwedAtReady(fd, text);
    InitialInv();
    RunKeepsHome(INITIAL, front);
    var s := After(INITIAL, front);
    var rest;
    rest, k := EarlyEndMisdelivers(s);
    RunsConcat(INITIAL, front, rest);
    es := front + rest;
  }

  /** Replies added by a stretch of sends all name the connection then open. */
  lemma NewOnFd(s: State, r: State, fd: nat)
    requires OnlySends(s, r)
    ensures Pick(s.sent, OnFd(fd)) <= Pick(r.sent, OnFd(fd))
    ensures forall k :: |Pick(s.sent, OnFd(fd))| <= k < |Pick(r.sent, OnFd(fd))| ==>
              Pick(r.sent, OnFd(fd))[k].conn == ConnOf(s, fd)
    decreases |r.sent|
  {
    if |s.sent| < |r.sent| {
      var m := |r.sent| - 1;
      assert OnlySends(s, r.(sent := r.sent[..m]));
      NewOnFd(s, r.(sent := r.sent[..m]), fd);
    } else {
      assert s.sent == r.sent;
    }
  }
}
