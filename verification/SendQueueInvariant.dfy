/** What every reachable state of the server9.c step system satisfies while the occupancy
    hypothesis holds: the inductive invariant of one ring, and its preservation step by step. */
module SendQueueInvariant {
  import opened CStrings
  import opened SendQueue
  import Echo

  /** Where the receiving thread stands, seen from one ring. */
  datatype View = Away | Filling(fd: nat) | Filled | Held | Moved | Leaving

  function ViewOf(r: Receiver, q: nat): (v: View) {
    match r
    case Polling => Away
    case Filling(fd) => if Qi(fd) == q then View.Filling(fd) else Away
    case Filled(fd) => if Qi(fd) == q then View.Filled else Away
    case Locked(fd) => if Qi(fd) == q then Held else Away
    case Advanced(fd) => if Qi(fd) == q then Moved else Away
    case Signalled(fd) => if Qi(fd) == q then Leaving else Away
  }

  /** The receiver may be writing data[last]. */
  predicate Writing(v: View) {
    v.Filling? || v.Filled? || v.Held?
  }

  /** A message is logged but not yet published. */
  function Unpublished(v: View): (n: nat) {
    if v.Filled? || v.Held? then 1 else 0
  }

  function InWork(l: Lane): (n: nat) {
    if l.sender.Working? then 1 else 0
  }

  /** Index of the k-th pending entry. */
  function Entry(l: Lane, k: nat): (i: nat) {
    if l.front + k < MAXQUEUESZ then l.front + k else l.front + k - MAXQUEUESZ
  }

  /** The slot holds the message as received. */
  predicate Holds(x: Slot, m: Message) {
    && x.acc == m.fd && x.len == |m.text| < Echo.BUFSZ == |x.buf|
    && x.buf[..x.len] == m.text
  }

  /** The slot of a message that has been worked up to a stage. */
  predicate InStage(x: Slot, st: Stage, m: Message) {
    && x.acc == m.fd && |x.buf| == Echo.BUFSZ && |m.text| < Echo.BUFSZ
    && match st
       case Taken => Holds(x, m)
       case Raw => Holds(x, m)
       case Ended => CutLine(x.buf) == CutLine(m.text) && NUL in x.buf
       case Cut => CStr(x.buf) == CutLine(m.text)
       case Appended => CStr(x.buf) == Echo.Reply(m.text)
       case Measured => x.len == |Echo.Reply(m.text)| && x.buf[..x.len] == Echo.Reply(m.text)
  }

  /** The mutex is held by whom the program counters say. */
  predicate Exclusive(l: Lane, v: View) {
    && (l.owner.ByReceiver? <==> v.Held? || v.Moved? || v.Leaving?)
    && (l.owner.BySender? <==> l.sender.Testing? || l.sender.Resumed? || AtStage(l, Taken))
  }

  /** Slot contents against the logs: answered, in work, pending, unpublished. */
  predicate Contents(l: Lane, v: View, received: seq<Message>, sent: seq<Message>)
    requires WellShaped(l)
  {
    && |received| == |sent| + InWork(l) + Pending(l) + Unpublished(v)
    && Answers(sent, received)
    && (l.sender.Working? ==>
          QueueNext(l.sender.slot) == l.front && InStage(Current(l), l.sender.stage, received[|sent|]))
    && (forall k :: 0 <= k < Pending(l) ==> Holds(l.data[Entry(l, k)], received[|sent| + InWork(l) + k]))
    && (Unpublished(v) == 1 ==> Holds(l.data[l.last], received[|received| - 1]))
    && (v.Filling? ==> l.data[l.last].acc == v.fd)
  }

  predicate LaneInv(l: Lane, v: View, received: seq<Message>, sent: seq<Message>) {
    && WellShaped(l)
    && Exclusive(l, v)
    && (Writing(v) ==> HasRoom(l))
    && (l.sender.Parked? ==> l.front == l.last || v.Moved?)
    && Contents(l, v, received, sent)
  }

  // ---- The sending thread ----

  /** Following the wrap of the front index. */
  lemma EntryShift(l: Lane, m: Lane, k: nat)
    requires l.front < MAXQUEUESZ && l.last < MAXQUEUESZ && l.front != l.last
    requires m.front == QueueNext(l.front) && m.last == l.last && k < MAXQUEUESZ
    ensures Pending(m) == Pending(l) - 1
    ensures Entry(m, k) == Entry(l, k + 1)
  {
  }

  lemma StageKept(x: Slot, m: Message, op: Op, st: Stage)
    requires InStage(x, st, m)
    ensures op.Release? && st.Taken? ==> InStage(x, Raw, m)
    ensures op.End? && st.Raw? ==> InStage(EndSlot(x), Ended, m)
    ensures op.CutAt? && st.Ended? ==> InStage(CutSlot(x), Cut, m)
    ensures op.Append? && st.Cut? ==> InStage(AppendSlot(x), Appended, m)
    ensures op.Measure? && st.Appended? ==> InStage(MeasureSlot(x), Measured, m)
  {
    match op
    case End =>
      if st.Raw? {
        Echo.TerminatedCut(x.buf, x.len);
        assert EndSlot(x).buf[x.len] == NUL;
      }
    case CutAt =>
      if st.Ended? {
        CutOfCStr(x.buf);
        Terminated(x.buf);
        var n := |CutLine(x.buf)|;
        if n < |x.buf| && CutLine(x.buf) != CStr(x.buf) {
          CutInPlace(x.buf, n);
        }
      }
    case Append =>
      if st.Cut? { Echo.ReplyOfCut(m.text, x.buf); }
    case _ =>
  }

  lemma TestKeeps(l: Lane, v: View, received: seq<Message>, sent: seq<Message>)
    requires LaneInv(l, v, received, sent) && OpEnabled(l, Test)
    ensures LaneInv(SenderStep(l, Test), v, received, sent)
  {
    var r := SenderStep(l, Test);
    if l.last != l.front {
      assert Holds(l.data[Entry(l, 0)], received[|sent|]);
      forall k | 0 <= k < Pending(r)
        ensures Holds(r.data[Entry(r, k)], received[|sent| + 1 + k])
      {
        EntryShift(l, r, k);
        assert Holds(l.data[Entry(l, k + 1)], received[|sent| + (k + 1)]);
      }
    }
  }

  /** The slot in work is neither pending nor the one being filled. */
  lemma SlotApart(l: Lane, v: View)
    requires WellShaped(l) && l.sender.Working? && QueueNext(l.sender.slot) == l.front
    ensures forall k :: 0 <= k < Pending(l) ==> Entry(l, k) != l.sender.slot
    ensures Pending(l) <= MAXQUEUESZ - 2 ==> l.last != l.sender.slot
  {
  }

  lemma ReleaseKeeps(l: Lane, v: View, received: seq<Message>, sent: seq<Message>)
    requires LaneInv(l, v, received, sent) && OpEnabled(l, Release)
    ensures LaneInv(SenderStep(l, Release), v, received, sent)
  {
    var r := SenderStep(l, Release);
    StageKept(Current(l), received[|sent|], Release, Taken);
    forall k | 0 <= k < Pending(r)
      ensures Holds(r.data[Entry(r, k)], received[|sent| + 1 + k])
    {
      assert Holds(l.data[Entry(l, k)], received[|sent| + 1 + k]);
    }
  }

  /** Rewriting the slot in work leaves the pending entries and the unpublished one alone. */
  lemma OnSlotApart(l: Lane, v: View, x: Slot, st: Stage, k: nat)
    requires WellShaped(l) && l.sender.Working? && QueueNext(l.sender.slot) == l.front
    requires |x.buf| == Echo.BUFSZ && k < Pending(l)
    ensures var r := OnSlot(l, x, st);
            WellShaped(r) && Entry(r, k) == Entry(l, k) && r.data[Entry(r, k)] == l.data[Entry(l, k)]
  {
    SlotApart(l, v);
  }

  /** Rewriting the slot in work to its next stage, without the lock. */
  lemma OnSlotKeeps(l: Lane, v: View, received: seq<Message>, sent: seq<Message>, x: Slot, st: Stage)
    requires LaneInv(l, v, received, sent) && l.sender.Working? && !l.sender.stage.Taken? && !st.Taken?
    requires InStage(x, st, received[|sent|])
    ensures LaneInv(OnSlot(l, x, st), v, received, sent)
  {
    hide Holds, InStage, Answers;
    StageSize(x, st, received[|sent|]);
    var r := OnSlot(l, x, st);
    SlotApart(l, v);
    forall k | 0 <= k < Pending(r)
      ensures Holds(r.data[Entry(r, k)], received[|sent| + 1 + k])
    {
      OnSlotApart(l, v, x, st, k);
      assert Holds(l.data[Entry(l, k)], received[|sent| + 1 + k]);
    }
  }

  lemma StageSize(x: Slot, st: Stage, m: Message)
    requires InStage(x, st, m)
    ensures |x.buf| == Echo.BUFSZ
  {
  }

  lemma SlotStepKeeps(l: Lane, v: View, received: seq<Message>, sent: seq<Message>, op: Op)
    requires LaneInv(l, v, received, sent) && OpEnabled(l, op)
    requires op.End? || op.CutAt? || op.Append? || op.Measure?
    ensures LaneInv(SenderStep(l, op), v, received, sent)
  {
    var r := SenderStep(l, op);
    var x := r.data[l.sender.slot];
    StageKept(Current(l), received[|sent|], op, l.sender.stage);
    OnSlotKeeps(l, v, received, sent, x, r.sender.stage);
  }

  lemma SendKeeps(l: Lane, v: View, received: seq<Message>, sent: seq<Message>, m: Message)
    requires LaneInv(l, v, received, sent) && OpEnabled(l, Send)
    requires m.fd == Current(l).acc && m.text == Current(l).buf[..Current(l).len]
    ensures m.fd == received[|sent|].fd
    ensures LaneInv(SenderStep(l, Send), v, received, sent + [m])
  {
    var r := SenderStep(l, Send);
    forall k | 0 <= k < Pending(r)
      ensures Holds(r.data[Entry(r, k)], received[|sent + [m]| + k])
    {
      assert Holds(l.data[Entry(l, k)], received[|sent| + 1 + k]);
    }
  }

  /** Lock, wake-up and unlock steps touch no slot. */
  lemma QuietStepKeeps(l: Lane, v: View, received: seq<Message>, sent: seq<Message>, op: Op)
    requires LaneInv(l, v, received, sent) && OpEnabled(l, op)
    requires op.Lock? || op.Spurious? || op.Relock? || op.Resume?
    ensures LaneInv(SenderStep(l, op), v, received, sent)
  {
    var r := SenderStep(l, op);
    forall k | 0 <= k < Pending(r)
      ensures Holds(r.data[Entry(r, k)], received[|sent| + k])
    {
      assert Holds(l.data[Entry(l, k)], received[|sent| + k]);
    }
  }

  // ---- The receiving thread ----

  /** Writing data[last] leaves every pending entry and the slot in work alone. */
  lemma LastApart(l: Lane, v: View)
    requires WellShaped(l) && HasRoom(l)
    ensures forall k :: 0 <= k < Pending(l) ==> Entry(l, k) != l.last
    ensures l.sender.Working? && QueueNext(l.sender.slot) == l.front ==> l.sender.slot != l.last
  {
  }

  /** A write to data[last] that logs nothing, while the receiver has room there. */
  lemma WriteKeeps(l: Lane, v: View, w: View, received: seq<Message>, sent: seq<Message>, x: Slot)
    requires LaneInv(l, v, received, sent) && (v.Away? || v.Filling?)
    requires HasRoom(l) && |x.buf| == Echo.BUFSZ
    requires w.Away? || (w.Filling? && x.acc == w.fd)
    ensures LaneInv(l.(data := l.data[l.last := x]), w, received, sent)
  {
    var r := l.(data := l.data[l.last := x]);
    LastApart(l, v);
    forall k | 0 <= k < Pending(r)
      ensures Holds(r.data[Entry(r, k)], received[|sent| + InWork(r) + k])
    {
      assert Holds(l.data[Entry(l, k)], received[|sent| + InWork(l) + k]);
    }
  }

  /** The write that completes a received message. */
  lemma FillKeeps(l: Lane, v: View, received: seq<Message>, sent: seq<Message>, x: Slot, m: Message)
    requires LaneInv(l, v, received, sent) && v.Filling? && Holds(x, m)
    ensures LaneInv(l.(data := l.data[l.last := x]), View.Filled, received + [m], sent)
  {
    var r := l.(data := l.data[l.last := x]);
    LastApart(l, v);
    forall k | 0 <= k < Pending(r)
      ensures Holds(r.data[Entry(r, k)], (received + [m])[|sent| + InWork(r) + k])
    {
      assert Holds(l.data[Entry(l, k)], received[|sent| + InWork(l) + k]);
    }
  }

  lemma FillHolds(x: Slot, m: Message)
    requires |x.buf| == Echo.BUFSZ && |m.text| < Echo.BUFSZ && x.acc == m.fd
    ensures Holds(FillSlot(x, m.text), m) && |FillSlot(x, m.text).buf| == Echo.BUFSZ
  {
  }

  /** Publishing adds exactly one entry, the one just filled. */
  lemma PublishKeeps(l: Lane, received: seq<Message>, sent: seq<Message>)
    requires LaneInv(l, Held, received, sent) && Pending(l) <= MAXQUEUESZ - 2
    ensures LaneInv(l.(last := QueueNext(l.last)), Moved, received, sent)
  {
    var r := l.(last := QueueNext(l.last));
    assert Pending(r) == Pending(l) + 1;
    forall k | 0 <= k < Pending(r)
      ensures Holds(r.data[Entry(r, k)], received[|sent| + InWork(r) + k])
    {
      if k < Pending(l) {
        assert Holds(l.data[Entry(l, k)], received[|sent| + InWork(l) + k]);
      } else {
        assert Entry(r, k) == l.last;
      }
    }
  }

  /** Locking, signalling and unlocking by the receiver touch no slot. */
  lemma ReceiverQuiet(l: Lane, v: View, r: Lane, w: View, received: seq<Message>, sent: seq<Message>)
    requires LaneInv(l, v, received, sent)
    requires r.front == l.front && r.last == l.last && r.data == l.data
    requires Unpublished(w) == Unpublished(v) && !w.Filling? && (Writing(w) ==> Writing(v))
    requires r.sender == l.sender || (l.sender.Parked? && r.sender.Woken?)
    requires Exclusive(r, w) && (r.sender.Parked? ==> l.front == l.last || w.Moved?)
    ensures LaneInv(r, w, received, sent)
  {
    forall k | 0 <= k < Pending(r)
      ensures Holds(r.data[Entry(r, k)], received[|sent| + InWork(r) + k])
    {
      assert Holds(l.data[Entry(l, k)], received[|sent| + InWork(l) + k]);
    }
  }

  // ---- The whole state ----

  predicate Inv(s: State) {
    && WellFormed(s)
    && |s.conns| < MAX_CHILD
    && forall q :: 0 <= q < MAXSENDER ==>
         LaneInv(s.lanes[q], ViewOf(s.recv, q), Pick(s.received, OfLane(q)), Pick(s.sent, OfLane(q)))
  }

  lemma PickAppend(log: seq<Message>, m: Message, key: Key)
    ensures Pick(log + [m], key) == if Selects(key, m) then Pick(log, key) + [m] else Pick(log, key)
  {
    assert (log + [m])[..|log|] == log;
  }

  lemma InitialInv()
    ensures Inv(INITIAL)
  {
  }

  /** A sending thread's step that sends nothing. */
  lemma SenderKeeps(l: Lane, v: View, received: seq<Message>, sent: seq<Message>, op: Op)
    requires LaneInv(l, v, received, sent) && OpEnabled(l, op) && !op.Send?
    ensures LaneInv(SenderStep(l, op), v, received, sent)
  {
    hide Contents, Exclusive;
    match op {
      case Test => TestKeeps(l, v, received, sent);
      case Lock => QuietStepKeeps(l, v, received, sent, op);
      case Spurious => QuietStepKeeps(l, v, received, sent, op);
      case Relock => QuietStepKeeps(l, v, received, sent, op);
      case Resume => QuietStepKeeps(l, v, received, sent, op);
      case Release => ReleaseKeeps(l, v, received, sent);
      case _ => SlotStepKeeps(l, v, received, sent, op);
    }
  }

  lemma TurnKeepsInv(s: State, q: nat, op: Op)
    requires Inv(s) && Enabled(s, Turn(q, op))
    ensures Inv(Apply(s, Turn(q, op)))
  {
    hide LaneInv, Pick, SenderStep;
    ShapeKept(s, Turn(q, op));
    var r := Apply(s, Turn(q, op));
    var l, v := s.lanes[q], ViewOf(s.recv, q);
    var rcv, snt := Pick(s.received, OfLane(q)), Pick(s.sent, OfLane(q));
    assert LaneInv(l, v, rcv, snt);
    if op.Send? {
      var m := Sent(s, Current(l));
      SendKeeps(l, v, rcv, snt, m);
      SentInLane(l, v, rcv, snt);
      assert Selects(OfLane(q), rcv[|snt|]);
      forall p | 0 <= p < MAXSENDER { PickAppend(s.sent, m, OfLane(p)); }
    } else {
      SenderKeeps(l, v, rcv, snt, op);
    }
  }

  lemma SentInLane(l: Lane, v: View, received: seq<Message>, sent: seq<Message>)
    requires LaneInv(l, v, received, sent) && l.sender.Working?
    ensures |sent| < |received|
  {
  }

  lemma RecvDataKeepsInv(s: State, text: seq<byte>)
    requires Inv(s) && Enabled(s, RecvData(text))
    ensures Inv(Apply(s, RecvData(text)))
  {
    hide LaneInv, Pick, Holds;
    var fd := s.recv.fd;
    var l := s.lanes[Qi(fd)];
    var m := Message(fd, ConnOf(s, fd), text);
    var rcv, snt := Pick(s.received, OfLane(Qi(fd))), Pick(s.sent, OfLane(Qi(fd)));
    FillingWhere(l, fd, ViewOf(s.recv, Qi(fd)), rcv, snt);
    FillHolds(l.data[l.last], m);
    FillKeeps(l, ViewOf(s.recv, Qi(fd)), rcv, snt, FillSlot(l.data[l.last], text), m);
    forall p | 0 <= p < MAXSENDER { PickAppend(s.received, m, OfLane(p)); }
  }

  lemma FillingWhere(l: Lane, fd: nat, v: View, received: seq<Message>, sent: seq<Message>)
    requires LaneInv(l, v, received, sent) && v == View.Filling(fd)
    ensures l.data[l.last].acc == fd
  {
  }

  lemma ReadyAndEndKeepInv(s: State, e: Event)
    requires Inv(s) && Enabled(s, e) && Room(s, e)
    requires e.Ready? || e.RecvEnd?
    ensures Inv(Apply(s, e))
  {
    var r := Apply(s, e);
    var q := Qi(if e.Ready? then e.fd else s.recv.fd);
    var l := s.lanes[q];
    var rcv, snt := Pick(s.received, OfLane(q)), Pick(s.sent, OfLane(q));
    WriteKeeps(l, ViewOf(s.recv, q), ViewOf(r.recv, q), rcv, snt, r.lanes[q].data[l.last]);
  }

  lemma PublishKeepsInv(s: State)
    requires Inv(s) && Enabled(s, Publish) && Room(s, Publish)
    ensures Inv(Apply(s, Publish))
  {
    var q := Qi(s.recv.fd);
    PublishKeeps(s.lanes[q], Pick(s.received, OfLane(q)), Pick(s.sent, OfLane(q)));
  }

  lemma LockStepsKeepInv(s: State, e: Event)
    requires Inv(s) && Enabled(s, e)
    requires e.LockRing? || e.Signal? || e.UnlockRing?
    ensures Inv(Apply(s, e))
  {
    var r := Apply(s, e);
    var q := Qi(s.recv.fd);
    var rcv, snt := Pick(s.received, OfLane(q)), Pick(s.sent, OfLane(q));
    ReceiverQuiet(s.lanes[q], ViewOf(s.recv, q), r.lanes[q], ViewOf(r.recv, q), rcv, snt);
  }

  /** The invariant holds after every step of every thread, under the occupancy hypothesis. */
  lemma StepKeepsInv(s: State, e: Event)
    requires Inv(s) && Enabled(s, e) && Room(s, e)
    ensures Inv(Apply(s, e))
  {
    match e
    case Turn(q, op) => TurnKeepsInv(s, q, op);
    case Accept(_) =>
    case Ready(_) => ReadyAndEndKeepInv(s, e);
    case RecvData(text) => RecvDataKeepsInv(s, text);
    case RecvEnd(_) => ReadyAndEndKeepInv(s, e);
    case Publish => PublishKeepsInv(s);
    case _ => LockStepsKeepInv(s, e);
  }

  /** Every reachable state satisfies the invariant. */
  lemma {:induction false} RunKeepsInv(s: State, es: seq<Event>)
    requires Inv(s) && Runs(s, es)
    ensures Inv(After(s, es))
    decreases |es|
  {
    if es != [] {
      StepKeepsInv(s, es[0]);
      RunKeepsInv(Apply(s, es[0]), es[1..]);
    }
  }
}
