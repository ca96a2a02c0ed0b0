/** The event-driven line reader of chapter06/oneline1.c: one byte per ready event, with a
    buffer and a position kept for every descriptor. */
module EventFraming {
  import opened CStrings
  import opened LineFraming

  const SLOTS: nat := 80

  /** What one recv of one byte returned. */
  datatype Recv1 = Got(c: byte) | AtEnd | Failing

  /** A ready event on a descriptor: what recv returns, and whether a send would succeed. */
  datatype Turn = Turn(r: Recv1, sendOk: bool)

  /** What the program does on a descriptor: send a reply, or remove and close it. */
  datatype Act = Sent(reply: seq<byte>) | Shut

  // ---- What a history of turns is answered with ----

  /** An unfinished frame as the next call finds it: a lone NUL at the start is forgotten. */
  function Kept(p: seq<byte>): (q: seq<byte>) {
    if p == [NUL] then [] else p
  }

  /** The unfinished frame behind a receive. An end of file or an error starts afresh: the
      number may be reused. */
  function PartialAfter(p: seq<byte>, r: Recv1): (q: seq<byte>) {
    if r.Got? && !Complete(p + [r.c], FRAME_MAX) then Kept(p + [r.c]) else []
  }

  /** The byte last received at each position of a frame. */
  function Put(m: seq<byte>, p: seq<byte>, r: Recv1): (n: seq<byte>)
    requires |p| < |m|
    ensures |n| == |m|
  {
    if r.Got? && p + [r.c] != [NUL] then m[|p| := r.c] else m
  }

  /** `m` remembers the positions of all frames so far, `p` the one in the making. */
  predicate Fits(m: seq<byte>, p: seq<byte>) {
    |m| == FIXED_BUFFER_SIZE && |p| < FRAME_MAX && p <= m
  }

  lemma FitsOn(m: seq<byte>, p: seq<byte>, r: Recv1)
    requires Fits(m, p)
    ensures Fits(Put(m, p, r), PartialAfter(p, r))
  {
  }

  function Answer(f: seq<byte>, sendOk: bool): (a: Act) {
    if sendOk then Sent(FrameReply(f)) else Shut
  }

  /** What a turn calls for: a whole frame is answered. At an end of file inside a frame the
      reply is made from the frame and the bytes last received behind its position. */
  function Acts(m: seq<byte>, p: seq<byte>, t: Turn): (a: seq<Act>)
    ensures |a| <= 1
  {
    match t.r
    case Got(c) => if Complete(p + [c], FRAME_MAX) then [Answer(p + [c], t.sendOk)] else []
    case AtEnd => [if p == [] then Shut else Answer(m, t.sendOk)]
    case Failing => [Shut]
  }

  function Expected(m: seq<byte>, p: seq<byte>, h: seq<Turn>): (a: seq<Act>)
    requires Fits(m, p)
    decreases |h|
  {
    if h == [] then []
    else
      FitsOn(m, p, h[0].r);
      Acts(m, p, h[0]) + Expected(Put(m, p, h[0].r), PartialAfter(p, h[0].r), h[1..])
  }

  /** The turns of one descriptor among the events. */
  datatype Event = Event(fd: nat, turn: Turn)

  function Of(es: seq<Event>, fd: nat): (h: seq<Turn>) {
    if es == [] then [] else (if es[0].fd == fd then [es[0].turn] else []) + Of(es[1..], fd)
  }

  datatype Entry = Entry(fd: nat, act: Act)

  /** What a log shows of one descriptor. */
  function ActsOn(log: seq<Entry>, fd: nat): (a: seq<Act>) {
    if log == [] then []
    else ActsOn(log[..|log| - 1], fd) + if log[|log| - 1].fd == fd then [log[|log| - 1].act] else []
  }

  lemma ActsMore(log: seq<Entry>, x: Entry, fd: nat)
    ensures ActsOn(log + [x], fd) == ActsOn(log, fd) + if x.fd == fd then [x.act] else []
  {
    assert (log + [x])[..|log|] == log;
  }

  /** A row whose frame is complete: its reply is that of the frame. */
  lemma FrameInRow(row: seq<byte>, p: seq<byte>)
    requires |row| == FIXED_BUFFER_SIZE && |p| <= FRAME_MAX && row[..|p|] == p && row[FRAME_MAX] == NUL
    requires Complete(p, FRAME_MAX)
    ensures FrameReply(row) == FrameReply(p)
  {
    var l := CutLine(p);
    assert forall k :: 0 <= k < |p| ==> row[k] == p[k];
    UntilIs(row, {NUL, CR, LF}, |l|);
  }

  // ---- The row of a descriptor ----

  /** The row when its line end has been cut off. */
  function CutRow(row: seq<byte>): (r: seq<byte>)
    ensures |r| == |row|
  {
    if |CutLine(row)| < |row| then row[|CutLine(row)| := NUL] else row
  }

  /** The row behind a receive: the byte goes behind the unfinished frame; a frame that is
      answered is cut in place; a NUL in front marks the row as free. */
  function NextRow(row: seq<byte>, p: seq<byte>, r: Recv1): (n: seq<byte>)
    requires |p| < |row|
    ensures |n| == |row|
  {
    match r
    case Got(c) =>
      var w := row[|p| := c];
      if Complete(p + [c], FRAME_MAX) then CutRow(w)[0 := NUL] else w
    case AtEnd => (if p == [] then row else CutRow(row))[0 := NUL]
    case Failing => row[0 := NUL]
  }

  /** The row agrees with the bytes last received except where both stop a line: cutting puts
      a NUL in the place of a stop. */
  predicate Mirrors(row: seq<byte>, p: seq<byte>, m: seq<byte>) {
    && Fits(m, p) && Fits(row, p) && row[FRAME_MAX] == m[FRAME_MAX] == NUL
    && forall k :: 1 <= k < FIXED_BUFFER_SIZE ==>
         row[k] == m[k] || (row[k] in {NUL, CR, LF} && m[k] in {NUL, CR, LF})
  }

  lemma MirrorsOn(row: seq<byte>, p: seq<byte>, m: seq<byte>, r: Recv1)
    requires Mirrors(row, p, m)
    ensures Mirrors(NextRow(row, p, r), PartialAfter(p, r), Put(m, p, r))
  {
    FitsOn(m, p, r);
    FitsOn(row, p, r);
  }

  /** A frame in the making is answered alike from both. */
  lemma MirrorsReply(row: seq<byte>, p: seq<byte>, m: seq<byte>)
    requires Mirrors(row, p, m) && p != []
    ensures FrameReply(row) == FrameReply(m)
  {
    var n := |CutLine(row)|;
    assert row[0] == p[0] == m[0];
    assert CutLine(row) == row[..n];
    assert row[..n] == m[..n];
    UntilIs(m, {NUL, CR, LF}, n);
  }

  class Server {
    const buf: array2<byte>  // g_buf
    const len: array<int>    // g_len
    const pos: array<nat>    // g_pos

    constructor ()
      ensures Valid() && fresh(buf) && fresh(len) && fresh(pos)
      ensures forall fd: nat :: fd < SLOTS ==> Partial(fd) == [] && Row(fd) == Zeros(FIXED_BUFFER_SIZE)
    {
      buf := new byte[SLOTS, FIXED_BUFFER_SIZE]((_, _) => NUL);
      len := new int[SLOTS](_ => 0);
      pos := new nat[SLOTS](_ => 0);
    }

    predicate Sized() {
      buf.Length0 == SLOTS && buf.Length1 == FIXED_BUFFER_SIZE && len.Length == SLOTS && pos.Length == SLOTS
    }

    /** No position is beyond the buffer's last byte, which is never written. */
    predicate Valid()
      reads buf, pos
    {
      && Sized()
      && forall fd :: 0 <= fd < SLOTS ==>
           buf[fd, FRAME_MAX] == NUL && (buf[fd, 0] != NUL ==> 1 <= pos[fd] < FRAME_MAX)
    }

    function Row(fd: nat): (r: seq<byte>)
      reads buf
      requires Sized() && fd < SLOTS
      ensures |r| == FIXED_BUFFER_SIZE && forall k :: 0 <= k < FIXED_BUFFER_SIZE ==> r[k] == buf[fd, k]
    {
      seq(FIXED_BUFFER_SIZE, k requires 0 <= k < FIXED_BUFFER_SIZE reads buf => buf[fd, k])
    }

    /** The unfinished frame of a descriptor; a NUL at its start means there is none. */
    function Partial(fd: nat): (p: seq<byte>)
      reads buf, pos
      requires Valid() && fd < SLOTS
      ensures |p| < FRAME_MAX && p <= Row(fd)
    {
      if buf[fd, 0] == NUL then [] else Row(fd)[..pos[fd]]
    }

    /** The other descriptors keep their frames. */
    twostate predicate OthersKept(fd: nat)
      reads buf, pos
      requires Sized()
    {
      && (forall e :: 0 <= e < SLOTS && e != fd ==> pos[e] == old(pos[e]))
      && (forall e, k :: 0 <= e < SLOTS && e != fd && 0 <= k < FIXED_BUFFER_SIZE ==> buf[e, k] == old(buf[e, k]))
    }

    /** `recv_one_line_1`, given what recv returned. */
    method RecvOneLine1(soc: nat, r: Recv1) returns (rv: int)
      requires Valid() && soc < SLOTS
      modifies buf, len, pos
      ensures OthersKept(soc) && buf[soc, FRAME_MAX] == NUL
      ensures r.Failing? ==> rv == -1 && Row(soc) == old(Row(soc))
      ensures r.AtEnd? ==> rv == |old(Partial(soc))| && Row(soc) == old(Row(soc))
      ensures r.Got? ==>
                var p := old(Partial(soc)) + [r.c];
                && pos[soc] == |p| <= FRAME_MAX && Row(soc) == old(Row(soc))[|p| - 1 := r.c]
                && rv == if Complete(p, FRAME_MAX) then |p| else -2
    {
      ghost var p := Partial(soc);
      if buf[soc, 0] == NUL {
        pos[soc] := 0;
      }
      len[soc] := match r case Got(_) => 1 case AtEnd => 0 case Failing => -1;
      if len[soc] == -1 {
        rv := -1;
      } else if len[soc] == 0 {
        rv := if pos[soc] > 0 then pos[soc] else 0;
      } else {
        buf[soc, pos[soc]] := r.c;
        pos[soc] := pos[soc] + 1;
        if r.c == LF {
          rv := pos[soc];
        } else if pos[soc] == FIXED_BUFFER_SIZE - 1 {
          rv := pos[soc];
        } else {
          rv := -2;
        }
      }
    }

    /** strpbrk(g_buf[fd], "\r\n"), or -1. */
    method FindLineEnd(fd: nat) returns (i: int)
      requires Sized() && fd < SLOTS && NUL in Row(fd)
      ensures i == -1 ==> CutLine(Row(fd)) == CStr(Row(fd))
      ensures i != -1 ==> 0 <= i < |CStr(Row(fd))| && CutLine(Row(fd)) == Row(fd)[..i]
    {
      ghost var row := Row(fd);
      ghost var q := FirstNul(row);
      i := 0;
      while buf[fd, i] != NUL
        invariant 0 <= i <= q
        invariant forall k :: 0 <= k < i ==> row[k] !in {NUL, CR, LF}
        decreases q - i
      {
        if buf[fd, i] == CR || buf[fd, i] == LF {
          UntilIs(row, {NUL, CR, LF}, i);
          return;
        }
        i := i + 1;
      }
      UntilIs(row, {NUL, CR, LF}, i);
      UntilIs(row, {NUL}, i);
      i := -1;
    }

    /** The C string of a row. */
    method Text(fd: nat) returns (t: seq<byte>)
      requires Sized() && fd < SLOTS && NUL in Row(fd)
      ensures t == CStr(Row(fd))
    {
      ghost var row := Row(fd);
      ghost var q := FirstNul(row);
      var i := 0;
      t := [];
      while buf[fd, i] != NUL
        invariant 0 <= i <= q && t == row[..i]
        decreases q - i
      {
        t := t + [buf[fd, i]];
        i := i + 1;
      }
      UntilIs(row, {NUL}, i);
    }

    /** Cutting the line end off, in place, and the reply to what is left. */
    method Respond(fd: nat) returns (reply: seq<byte>)
      requires Sized() && fd < SLOTS && buf[fd, FRAME_MAX] == NUL
      modifies buf
      ensures OthersKept(fd) && buf[fd, FRAME_MAX] == NUL
      ensures reply == FrameReply(old(Row(fd))) && Row(fd) == CutRow(old(Row(fd)))
    {
      ghost var row := Row(fd);
      assert row[FRAME_MAX] == NUL;
      var ptr := FindLineEnd(fd);
      if ptr != -1 {
        CutInPlace(row, ptr);
        buf[fd, ptr] := NUL;
        assert Row(fd) == row[ptr := NUL];
      }
      assert Row(fd)[FRAME_MAX] == NUL;
      var t := Text(fd);
      reply := t + OK_SUFFIX;
    }

    /** `send_recv_1`. The unfinished frame of the descriptor grows by the byte received; a
        whole frame is answered and forgotten. */
    method SendRecv1(acc: nat, r: Recv1, sendOk: bool) returns (ret: int, sent: seq<byte>)
      requires Valid() && acc < SLOTS
      modifies buf, len, pos
      ensures Valid() && OthersKept(acc)
      ensures Partial(acc) == PartialAfter(old(Partial(acc)), r)
      ensures Row(acc) == NextRow(old(Row(acc)), old(Partial(acc)), r)
      ensures r.Got? ==>
                var p := old(Partial(acc)) + [r.c];
                if Complete(p, FRAME_MAX) then sent == FrameReply(p) && ret == if sendOk then 0 else -1
                else sent == [] && ret == -2
      ensures r.AtEnd? ==>
                if old(Partial(acc)) == [] then sent == [] && ret == -1
                else sent == FrameReply(old(Row(acc))) && ret == if sendOk then 0 else -1
      ensures r.Failing? ==> sent == [] && ret == -1
    {
      hide CutLine, FrameReply, CutRow;
      ghost var p0 := Partial(acc);
      var rv := RecvOneLine1(acc, r);
      if rv == -1 {
        buf[acc, 0] := NUL;
        return -1, [];
      }
      if rv == 0 {
        buf[acc, 0] := NUL;
        return -1, [];
      }
      if r.Got? {
        assert Row(acc)[..|p0| + 1] == p0 + [r.c];
      }
      if rv == -2 {
        GoesOn(p0, r.c, Row(acc));
        return -2, [];
      }
      if r.Got? {
        FrameInRow(Row(acc), p0 + [r.c]);
      }
      sent := Respond(acc);
      buf[acc, 0] := NUL;
      ret := if sendOk then 0 else -1;
    }

    lemma GoesOn(p0: seq<byte>, c: byte, row: seq<byte>)
      requires |row| == FIXED_BUFFER_SIZE && |p0| < FRAME_MAX && row[..|p0| + 1] == p0 + [c]
      requires p0 != [] ==> p0[0] != NUL
      ensures row[0] == (p0 + [c])[0]
      ensures row[0] == NUL <==> p0 + [c] == [NUL]
    {
      assert row[0] == row[..|p0| + 1][0];
    }

    /** The frames of the other descriptors, as values. */
    twostate lemma OthersPartial(fd: nat)
      requires old(Valid()) && Valid() && OthersKept(fd)
      ensures forall e: nat :: e < SLOTS && e != fd ==> Partial(e) == old(Partial(e)) && Row(e) == old(Row(e))
    {
      forall e: nat | e < SLOTS && e != fd ensures Partial(e) == old(Partial(e)) && Row(e) == old(Row(e)) {
        assert Row(e) == old(Row(e));
      }
    }

    /** One ready event: the descriptor is removed and closed when the result is -1. */
    method ServeOne(e: Event) returns (out: seq<Entry>)
      requires Valid() && e.fd < SLOTS
      modifies buf, len, pos
      ensures Valid()
      ensures forall fd: nat :: fd < SLOTS ==>
                && Partial(fd) == PartialOf(e, fd, old(Partial(fd)))
                && Row(fd) == RowOf(e, fd, old(Row(fd)), old(Partial(fd)))
      ensures out == Tagged(e.fd, Acts(old(Row(e.fd)), old(Partial(e.fd)), e.turn))
    {
      var ret, reply := SendRecv1(e.fd, e.turn.r, e.turn.sendOk);
      out := if ret == 0 then [Entry(e.fd, Sent(reply))] else if ret == -1 then [Entry(e.fd, Shut)] else [];
      OthersPartial(e.fd);
    }

    /** The loop over ready events, in any order over any number of descriptors: on each
        descriptor the program does what its own turns call for. */
    method Serve(es: seq<Event>) returns (log: seq<Entry>)
      requires Valid() && forall i :: 0 <= i < |es| ==> es[i].fd < SLOTS
      modifies buf, len, pos
      ensures Valid()
      ensures forall fd: nat :: fd < SLOTS ==>
                ActsOn(log, fd) == Expected(old(Row(fd)), old(Partial(fd)), Of(es, fd))
    {
      hide Expected, Of, ActsOn, OnTrack, PartialOf, RowOf, Tagged, Acts, Put;
      log := [];
      var i := 0;
      // The bytes last received, for each descriptor.
      ghost var ms := seq(SLOTS, fd requires 0 <= fd < SLOTS reads buf => Row(fd));
      forall fd: nat | fd < SLOTS
        ensures OnTrack(Expected(Row(fd), Partial(fd), Of(es, fd)), ActsOn([], fd),
                        ms[fd], Row(fd), Partial(fd), Of(es[0..], fd))
      {
        assert es[0..] == es;
        TrackStart(Row(fd), Partial(fd), Of(es, fd), fd);
      }
      while i < |es|
        invariant 0 <= i <= |es| && Valid()
        invariant |ms| == SLOTS && forall k :: 0 <= k < SLOTS ==> |ms[k]| == FIXED_BUFFER_SIZE
        invariant forall fd: nat :: fd < SLOTS ==>
                    OnTrack(old(Expected(Row(fd), Partial(fd), Of(es, fd))), ActsOn(log, fd),
                            ms[fd], Row(fd), Partial(fd), Of(es[i..], fd))
      {
        label Before:
        var e, was := es[i], ms;
        var out := ServeOne(e);
        ms := ms[e.fd := Put(ms[e.fd], old@Before(Partial(e.fd)), e.turn.r)];
        forall fd: nat | fd < SLOTS
          ensures OnTrack(old(Expected(Row(fd), Partial(fd), Of(es, fd))), ActsOn(log + out, fd),
                          ms[fd], Row(fd), Partial(fd), Of(es[i + 1..], fd))
        {
          assert es[i..] == [e] + es[i + 1..];
          TrackEvent(old(Expected(Row(fd), Partial(fd), Of(es, fd))), was[fd],
                     old@Before(Row(fd)), old@Before(Partial(fd)),
                     e, es[i + 1..], fd, log, out);
        }
        log := log + out;
        i := i + 1;
      }
      forall fd: nat | fd < SLOTS
        ensures ActsOn(log, fd) == Expected(old(Row(fd)), old(Partial(fd)), Of(es, fd))
      {
        assert es[i..] == [];
        TrackEnds(old(Expected(Row(fd), Partial(fd), Of(es, fd))), ActsOn(log, fd), ms[fd], Row(fd), Partial(fd), fd);
      }
    }
  }

  /** The unfinished frame and the row of a descriptor behind an event. */
  function PartialOf(e: Event, fd: nat, p: seq<byte>): (q: seq<byte>) {
    if e.fd == fd then PartialAfter(p, e.turn.r) else p
  }

  function RowOf(e: Event, fd: nat, row: seq<byte>, p: seq<byte>): (r: seq<byte>)
    requires |p| < |row|
  {
    if e.fd == fd then NextRow(row, p, e.turn.r) else row
  }

  function Tagged(fd: nat, a: seq<Act>): (out: seq<Entry>)
    ensures |out| == |a| && forall k :: 0 <= k < |a| ==> out[k] == Entry(fd, a[k])
  {
    seq(|a|, k requires 0 <= k < |a| => Entry(fd, a[k]))
  }

  /** What has been done and what is still expected make up the whole. */
  ghost predicate OnTrack(all: seq<Act>, done: seq<Act>, m: seq<byte>, row: seq<byte>, p: seq<byte>, h: seq<Turn>) {
    Mirrors(row, p, m) && done + Expected(m, p, h) == all
  }

  lemma TrackStart(row: seq<byte>, p: seq<byte>, h: seq<Turn>, fd: nat)
    requires Fits(row, p) && row[FRAME_MAX] == NUL
    ensures OnTrack(Expected(row, p, h), ActsOn([], fd), row, row, p, h)
  {
    assert [] + Expected(row, p, h) == Expected(row, p, h);
  }

  lemma TrackEnds(all: seq<Act>, done: seq<Act>, m: seq<byte>, row: seq<byte>, p: seq<byte>, fd: nat)
    requires OnTrack(all, done, m, row, p, Of([], fd))
    ensures done == all
  {
    assert done + [] == done;
  }

  lemma TrackTurn(all: seq<Act>, done: seq<Act>, m: seq<byte>, row: seq<byte>, p: seq<byte>, t: Turn, h: seq<Turn>)
    requires OnTrack(all, done, m, row, p, [t] + h)
    ensures OnTrack(all, done + Acts(row, p, t), Put(m, p, t.r), NextRow(row, p, t.r), PartialAfter(p, t.r), h)
  {
    hide FrameReply, Complete, Put, NextRow, PartialAfter;
    var w := [t] + h;
    assert w[1..] == h;
    MirrorsOn(row, p, m, t.r);
    if p != [] {
      MirrorsReply(row, p, m);
    }
    var rest := Expected(Put(m, p, t.r), PartialAfter(p, t.r), h);
    assert done + (Acts(m, p, t) + rest) == done + Acts(m, p, t) + rest;
  }

  lemma OfFirst(e: Event, es: seq<Event>, fd: nat)
    ensures Of([e] + es, fd) == (if e.fd == fd then [e.turn] else []) + Of(es, fd)
  {
    assert ([e] + es)[1..] == es;
  }

  /** The log grows by what one event calls for. */
  lemma ActsTagged(log: seq<Entry>, a: seq<Act>, to: nat, fd: nat)
    requires |a| <= 1
    ensures ActsOn(log + Tagged(to, a), fd) == ActsOn(log, fd) + if to == fd then a else []
  {
    if a == [] {
      assert log + Tagged(to, a) == log;
    } else {
      assert Tagged(to, a) == [Entry(to, a[0])];
      ActsMore(log, Entry(to, a[0]), fd);
      assert a == [a[0]];
    }
  }

  /** An event keeps every descriptor on track: its own, and the others. */
  lemma TrackEvent(all: seq<Act>, m: seq<byte>, row: seq<byte>, p: seq<byte>, e: Event, es: seq<Event>, fd: nat,
                   log: seq<Entry>, out: seq<Entry>)
    requires OnTrack(all, ActsOn(log, fd), m, row, p, Of([e] + es, fd))
    requires if e.fd == fd then out == Tagged(fd, Acts(row, p, e.turn))
             else exists a :: |a| <= 1 && out == Tagged(e.fd, a)
    ensures Mirrors(row, p, m)
    ensures OnTrack(all, ActsOn(log + out, fd), if e.fd == fd then Put(m, p, e.turn.r) else m,
                    RowOf(e, fd, row, p), PartialOf(e, fd, p), Of(es, fd))
  {
    assert Mirrors(row, p, m);
    hide Of, ActsOn, Acts, PartialAfter, Put, NextRow, Mirrors, Expected, Tagged;
    OfFirst(e, es, fd);
    var done := ActsOn(log, fd);
    if e.fd == fd {
      ActsTagged(log, Acts(row, p, e.turn), fd, fd);
      TrackTurn(all, done, m, row, p, e.turn, Of(es, fd));
    } else {
      var a :| |a| <= 1 && out == Tagged(e.fd, a);
      ActsTagged(log, a, e.fd, fd);
      assert done + [] == done && [] + Of(es, fd) == Of(es, fd);
    }
  }
}
