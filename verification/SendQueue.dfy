/** The producer/consumer rings of chapter05/server9.c as a step system: one receiving thread,
    one sending thread per ring, a mutex and a condition variable per ring. Every step is one
    statement another thread can observe; slots are written and read without the lock exactly
    where the program does so. */
module SendQueue {
  import opened CStrings
  import Echo

  const MAXQUEUESZ: nat := 4096
  const MAXSENDER: nat := 2
  const MAX_CHILD: nat := 20

  /** QUEUE_NEXT. */
  function QueueNext(i: nat): (n: nat) {
    (i + 1) % MAXQUEUESZ
  }

  /** struct queue_data. */
  datatype Slot = Slot(acc: int, buf: seq<byte>, len: int)

  /** A message as logged by recv or send: descriptor, the connection it stood for, text. */
  datatype Message = Message(fd: nat, conn: nat, text: seq<byte>)

  /** Program counter of the receiving thread; `fd` is the ready descriptor. */
  datatype Receiver =
    | Polling
    | Filling(fd: nat)    // slot's acc written, recv next
    | Filled(fd: nat)     // recv done, wants the mutex
    | Locked(fd: nat)
    | Advanced(fd: nat)   // last moved, signal next
    | Signalled(fd: nat)  // unlock next

  /** How far a sender is with the slot it took. */
  datatype Stage = Taken | Raw | Ended | Cut | Appended | Measured

  /** Program counter of a sending thread. */
  datatype Sender =
    | Start                                // wants the mutex
    | Testing                              // holds it, compares last and front
    | Parked                               // inside pthread_cond_wait, not yet woken
    | Woken                                // woken, wants the mutex back
    | Resumed                              // cond_wait returned, unlock next
    | Working(slot: nat, stage: Stage)     // Taken still holds the mutex

  datatype Owner = Free | ByReceiver | BySender

  /** struct queue and the thread that drains it. */
  datatype Lane = Lane(front: nat, last: nat, data: seq<Slot>, owner: Owner, sender: Sender)

  datatype State = State(recv: Receiver, lanes: seq<Lane>,
                         conns: map<nat, nat>, accepted: nat,
                         received: seq<Message>, sent: seq<Message>)

  datatype Event =
    | Accept(fd: nat)
    | Ready(fd: nat)
    | RecvData(text: seq<byte>)
    | RecvEnd(failed: bool)
    | LockRing
    | Publish
    | Signal
    | UnlockRing
    | Turn(q: nat, op: Op)

  /** The steps of a sending thread. */
  datatype Op = Lock | Test | Release | End | CutAt | Append | Measure | Send | Spurious | Relock | Resume

  function Qi(fd: nat): (q: nat)
    ensures q < MAXSENDER
  {
    fd % MAXSENDER
  }

  const EMPTY_SLOT: Slot := Slot(0, Zeros(Echo.BUFSZ), 0)
  const EMPTY_LANE: Lane := Lane(0, 0, seq(MAXQUEUESZ, _ => EMPTY_SLOT), Free, Start)
  const INITIAL: State := State(Polling, [EMPTY_LANE, EMPTY_LANE], map[], 1, [], [])

  // ---- Steps on a slot ----

  function EndSlot(s: Slot): (r: Slot)
    requires 0 <= s.len < |s.buf|
  {
    s.(buf := s.buf[s.len := NUL])
  }

  function CutSlot(s: Slot): (r: Slot) {
    if CutLine(s.buf) == CStr(s.buf) || |CutLine(s.buf)| == |s.buf| then s
    else s.(buf := s.buf[|CutLine(s.buf)| := NUL])
  }

  function AppendSlot(s: Slot): (r: Slot) {
    s.(buf := LCat(s.buf, OK_SUFFIX))
  }

  function MeasureSlot(s: Slot): (r: Slot) {
    s.(len := |CStr(s.buf)|)
  }

  /** recv writes its bytes over the front of the buffer and stores the count. */
  function FillSlot(s: Slot, text: seq<byte>): (r: Slot)
    requires |text| <= |s.buf|
  {
    s.(buf := text + s.buf[|text|..], len := |text|)
  }

  // ---- Enabledness and effect ----

  predicate WellShaped(l: Lane) {
    && l.front < MAXQUEUESZ && l.last < MAXQUEUESZ && |l.data| == MAXQUEUESZ
    && (forall k :: 0 <= k < MAXQUEUESZ ==> |l.data[k].buf| == Echo.BUFSZ)
    && (l.sender.Working? ==> l.sender.slot < MAXQUEUESZ)
  }

  predicate WellFormed(s: State) {
    |s.lanes| == MAXSENDER && forall q :: 0 <= q < MAXSENDER ==> WellShaped(s.lanes[q])
  }

  /** The events a state allows. A received text has 1 to 511 bytes: the terminator of a
      512-byte message would fall outside the slot. */
  predicate Enabled(s: State, e: Event)
    requires WellFormed(s)
  {
    match e
    case Accept(fd) => s.recv.Polling? && fd !in s.conns
    case Ready(fd) => s.recv.Polling? && fd in s.conns
    case RecvData(text) => s.recv.Filling? && 1 <= |text| < Echo.BUFSZ
    case RecvEnd(_) => s.recv.Filling?
    case LockRing => s.recv.Filled? && s.lanes[Qi(s.recv.fd)].owner.Free?
    case Publish => s.recv.Locked?
    case Signal => s.recv.Advanced?
    case UnlockRing => s.recv.Signalled?
    case Turn(q, op) => q < MAXSENDER && OpEnabled(s.lanes[q], op)
  }

  predicate OpEnabled(l: Lane, op: Op)
    requires WellShaped(l)
  {
    match op
    case Lock => l.sender.Start? && l.owner.Free?
    case Test => l.sender.Testing?
    case Release => AtStage(l, Taken)
    case End => AtStage(l, Raw) && 0 <= Current(l).len < Echo.BUFSZ
    case CutAt => AtStage(l, Ended)
    case Append => AtStage(l, Cut)
    case Measure => AtStage(l, Appended)
    case Send => AtStage(l, Measured) && 0 <= Current(l).acc && 0 <= Current(l).len <= Echo.BUFSZ
    case Spurious => l.sender.Parked?
    case Relock => l.sender.Woken? && l.owner.Free?
    case Resume => l.sender.Resumed?
  }

  predicate AtStage(l: Lane, st: Stage) {
    l.sender.Working? && l.sender.stage == st
  }

  /** The slot a sending thread works on. */
  function Current(l: Lane): (x: Slot)
    requires WellShaped(l) && l.sender.Working?
  {
    l.data[l.sender.slot]
  }

  /** The receiving thread's write to its lane. */
  function OnLast(s: State, fd: nat, x: Slot): (r: State)
    requires WellFormed(s)
  {
    var l := s.lanes[Qi(fd)];
    s.(lanes := s.lanes[Qi(fd) := l.(data := l.data[l.last := x])])
  }

  /** The sending thread's write to the slot it works on, and its next stage. */
  function OnSlot(l: Lane, x: Slot, st: Stage): (r: Lane)
    requires WellShaped(l) && l.sender.Working?
  {
    l.(data := l.data[l.sender.slot := x], sender := Working(l.sender.slot, st))
  }

  /** What a sending thread's step does to its ring. */
  function SenderStep(l: Lane, op: Op): (r: Lane)
    requires WellShaped(l) && OpEnabled(l, op)
  {
    match op
    case Lock => l.(owner := BySender, sender := Testing)
    case Test =>
      if l.last != l.front then l.(front := QueueNext(l.front), sender := Working(l.front, Taken))
      else l.(owner := Free, sender := Parked)
    case Release => l.(owner := Free, sender := Working(l.sender.slot, Raw))
    case End => OnSlot(l, EndSlot(Current(l)), Ended)
    case CutAt => OnSlot(l, CutSlot(Current(l)), Cut)
    case Append => OnSlot(l, AppendSlot(Current(l)), Appended)
    case Measure => OnSlot(l, MeasureSlot(Current(l)), Measured)
    case Send => l.(sender := Start)
    case Spurious => l.(sender := Woken)
    case Relock => l.(owner := BySender, sender := Resumed)
    case Resume => l.(owner := Free, sender := Start)
  }

  function ConnOf(s: State, fd: nat): (c: nat) {
    if fd in s.conns then s.conns[fd] else 0
  }

  function Apply(s: State, e: Event): (r: State)
    requires WellFormed(s) && Enabled(s, e)
  {
    match e
    case Accept(fd) =>
      if |s.conns| + 1 >= MAX_CHILD then s.(accepted := s.accepted + 1)
      else s.(conns := s.conns[fd := s.accepted], accepted := s.accepted + 1)
    case Ready(fd) =>
      var l := s.lanes[Qi(fd)];
      OnLast(s, fd, l.data[l.last].(acc := fd)).(recv := Filling(fd))
    case RecvData(text) =>
      var fd := s.recv.fd;
      var l := s.lanes[Qi(fd)];
      OnLast(s, fd, FillSlot(l.data[l.last], text)).(
        recv := Filled(fd), received := s.received + [Message(fd, ConnOf(s, fd), text)])
    case RecvEnd(failed) =>
      var fd := s.recv.fd;
      var l := s.lanes[Qi(fd)];
      OnLast(s, fd, l.data[l.last].(len := if failed then -1 else 0)).(recv := Polling, conns := s.conns - {fd})
    case LockRing =>
      var q := Qi(s.recv.fd);
      s.(recv := Locked(s.recv.fd), lanes := s.lanes[q := s.lanes[q].(owner := ByReceiver)])
    case Publish =>
      var q := Qi(s.recv.fd);
      s.(recv := Advanced(s.recv.fd), lanes := s.lanes[q := s.lanes[q].(last := QueueNext(s.lanes[q].last))])
    case Signal =>
      var q := Qi(s.recv.fd);
      var l := s.lanes[q];
      s.(recv := Signalled(s.recv.fd), lanes := s.lanes[q := if l.sender.Parked? then l.(sender := Woken) else l])
    case UnlockRing =>
      var q := Qi(s.recv.fd);
      s.(recv := Polling, lanes := s.lanes[q := s.lanes[q].(owner := Free)])
    case Turn(q, op) =>
      var l := s.lanes[q];
      var r := s.(lanes := s.lanes[q := SenderStep(l, op)]);
      if op.Send? then r.(sent := s.sent + [Sent(s, Current(l))]) else r
  }

  /** What send logs: the slot's descriptor, the connection it stands for now, the bytes. */
  function Sent(s: State, x: Slot): (m: Message)
    requires 0 <= x.acc && 0 <= x.len <= |x.buf|
  {
    Message(x.acc, ConnOf(s, x.acc), x.buf[..x.len])
  }

  // ---- Runs ----

  /** The number of published, not yet taken entries as the two indices show it. */
  function Pending(l: Lane): (p: int) {
    if l.front <= l.last then l.last - l.front else l.last - l.front + MAXQUEUESZ
  }

  /** A slot is free for the receiver: while the sender works on one, at most MAXQUEUESZ - 2
      entries are pending. */
  predicate HasRoom(l: Lane) {
    l.sender.Working? ==> Pending(l) <= MAXQUEUESZ - 2
  }

  /** The occupancy hypothesis: there is room where the receiver starts to write a slot, and at
      most MAXQUEUESZ - 2 entries are pending where it publishes one. The program itself never
      tests this. */
  predicate Room(s: State, e: Event)
    requires WellFormed(s)
  {
    && (e.Ready? ==> HasRoom(s.lanes[Qi(e.fd)]))
    && (e.Publish? && s.recv.Locked? ==> Pending(s.lanes[Qi(s.recv.fd)]) <= MAXQUEUESZ - 2)
  }

  /** Every step keeps the shape the step functions read. */
  lemma ShapeKept(s: State, e: Event)
    requires WellFormed(s) && Enabled(s, e)
    ensures WellFormed(Apply(s, e))
  {
  }

  /** `es` can be run from `s`: each event is enabled when it is its turn and the hypothesis
      holds at each write. */
  predicate Runs(s: State, es: seq<Event>)
    decreases |es|
  {
    es == [] || (WellFormed(s) && Enabled(s, es[0]) && Room(s, es[0]) && Runs(Apply(s, es[0]), es[1..]))
  }

  function After(s: State, es: seq<Event>): (r: State)
    requires Runs(s, es)
    decreases |es|
  {
    if es == [] then s else After(Apply(s, es[0]), es[1..])
  }

  // ---- Logs ----

  datatype Key = OfLane(q: nat) | OnFd(fd: nat)

  predicate Selects(key: Key, m: Message) {
    match key
    case OfLane(q) => Qi(m.fd) == q
    case OnFd(fd) => m.fd == fd
  }

  /** The messages of a log that belong to one ring, or to one descriptor. */
  function Pick(log: seq<Message>, key: Key): (r: seq<Message>)
    ensures |r| <= |log|
    ensures forall k :: 0 <= k < |r| ==> Selects(key, r[k])
  {
    if log == [] then []
    else
      var r := Pick(log[..|log| - 1], key);
      if Selects(key, log[|log| - 1]) then r + [log[|log| - 1]] else r
  }

  /** `sent` answers a prefix of `received`, in order, each message once. */
  predicate Answers(sent: seq<Message>, received: seq<Message>) {
    && |sent| <= |received|
    && forall k :: 0 <= k < |sent| ==>
         sent[k].fd == received[k].fd && sent[k].text == Echo.Reply(received[k].text)
  }
}
