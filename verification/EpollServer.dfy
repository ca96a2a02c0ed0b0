/** The accept loop of chapter05/server4.c: descriptors live in the kernel's epoll set, and the
    program keeps only their number. */
module EpollServer {
  import opened Sockets

  /** What epoll_wait returned; each registered descriptor occurs at most once. */
  datatype Waited = Error | Timeout | Events(fds: seq<int>)

  /** The clients among the events whose exchange fails. */
  function Failing(events: seq<int>, soc: int, fails: int -> bool): (r: set<int>) {
    set fd | fd in events && fd != soc && fails(fd)
  }

  lemma FailingMore(events: seq<int>, i: nat, soc: int, fails: int -> bool)
    requires i < |events|
    ensures Failing(events[..i + 1], soc, fails)
         == Failing(events[..i], soc, fails) + if events[i] != soc && fails(events[i]) then {events[i]} else {}
  {
    assert events[..i + 1] == events[..i] + [events[i]];
  }

  /** A batch of events fits the array of MAX_CHILD entries while at most MAX_CHILD - 1 clients
      are registered, although epoll_wait is told there are MAX_CHILD + 1. */
  lemma BatchFits(events: seq<int>, registered: set<int>, soc: int)
    requires Distinct(events) && (forall fd :: fd in events ==> fd == soc || fd in registered)
    requires |registered| < MAX_CHILD
    ensures |events| <= MAX_CHILD
  {
    DistinctFits(events, registered + {soc});
  }

  lemma {:induction false} DistinctFits(s: seq<int>, all: set<int>)
    requires Distinct(s) && forall x :: x in s ==> x in all
    ensures |s| <= |all|
    decreases |s|
  {
    if s != [] {
      var l := |s| - 1;
      assert s == s[..l] + [s[l]] && s[l] in s;
      DistinctFits(s[..l], all - {s[l]});
    }
  }

  class Server {
    const kernel: Kernel
    var registered: set<int>  // the epoll set without the server socket
    var count: nat

    constructor (soc: int)
      requires soc >= 0
      ensures Valid() && registered == {} && kernel.soc == soc && fresh(kernel)
    {
      kernel := new Kernel(soc, false);
      registered, count := {}, 0;
    }

    /** The open connections are the registered descriptors, and `count` is their number. */
    ghost predicate Valid()
      reads this, kernel
    {
      && kernel.Valid() && registered == kernel.open.Keys
      && count == |registered| < MAX_CHILD
    }

    lemma SocketApart()
      requires Valid()
      ensures kernel.soc !in registered
    {
    }

    /** The server socket is ready. */
    method OnAccept(fails: bool) returns (acc: int)
      requires Valid()
      modifies this, kernel
      ensures acc == -1 <==> fails
      ensures Valid() && acc !in old(registered)
      ensures registered == old(registered) + Admitted(old(registered), acc)
      ensures kernel.accepted == old(kernel.accepted) + if acc != -1 then 1 else 0
    {
      hide Kernel.Valid, Admitted, Opened, Closed;
      ghost var was := registered;
      acc := kernel.Accept(fails);
      AdmittedSet(was, acc);
      if acc == -1 {
        return;
      }
      if count + 1 >= MAX_CHILD {
        kernel.Close(acc);
      } else {
        registered := registered + {acc};
        count := count + 1;
      }
    }

    /** A client is ready. */
    method OnClient(fd: int, fails: bool)
      requires Valid() && fd in registered
      modifies this, kernel
      ensures Valid() && registered == old(registered) - if fails then {fd} else {}
      ensures kernel.accepted == old(kernel.accepted)
    {
      hide Kernel.Valid, Closed;
      if fails {
        registered := registered - {fd};
        kernel.Close(fd);
        count := count - 1;
      }
    }

    /** The next event of a batch. */
    method HandleOne(events: seq<int>, i: nat, fails: int -> bool, acceptFails: bool, acc0: int,
                     ghost at0: int, ghost was: set<int>, ghost accepted0: nat)
      returns (acc: int, ghost at: int)
      requires Valid() && Distinct(events) && i < |events|
      requires events[i] == kernel.soc || events[i] in was
      requires InBatch(was, events, i, kernel.soc, fails, acceptFails, at0, acc0, registered)
      requires kernel.accepted == accepted0 + if acc0 != -1 then 1 else 0
      modifies this, kernel
      ensures Valid() && InBatch(was, events, i + 1, kernel.soc, fails, acceptFails, at, acc, registered)
      ensures kernel.accepted == accepted0 + if acc != -1 then 1 else 0
    {
      hide Failing, InBatch, Distinct, Kernel.Valid, Admitted;
      acc, at := acc0, at0;
      ghost var before := registered;
      if events[i] == kernel.soc {
        OnlyOnce(was, events, i, kernel.soc, fails, acceptFails, at, acc, before);
        acc := OnAccept(acceptFails);
        at := i;
        AcceptInBatch(was, events, i, kernel.soc, fails, acceptFails, acc, before, registered);
      } else {
        ClientInBatch(was, events, i, kernel.soc, fails, acceptFails, at, acc, before);
        OnClient(events[i], fails(events[i]));
      }
    }

    /** Handling a batch, in whatever order its events come. The number of a client closed by
        one event may go to a connection accepted by a later one, but no event is left that
        could be taken for it. `at` is the place of the server socket in the batch. */
    method HandleBatch(events: seq<int>, fails: int -> bool, acceptFails: bool) returns (acc: int, ghost at: int)
      requires Valid() && Distinct(events)
      requires forall fd :: fd in events ==> fd == kernel.soc || fd in registered
      modifies this, kernel
      ensures Valid()
      ensures Handled(old(registered), events, kernel.soc, fails, acceptFails, at, acc, registered)
      ensures kernel.accepted == old(kernel.accepted) + if acc != -1 then 1 else 0
    {
      hide Failing, InBatch, Distinct, Handled, Valid;
      acc, at := -1, -1;
      SocketApart();
      ghost var was, accepted0 := registered, kernel.accepted;
      var i := 0;
      StartBatch(was, events, kernel.soc, fails, acceptFails);
      while i < |events|
        invariant 0 <= i <= |events| && Valid()
        invariant InBatch(was, events, i, kernel.soc, fails, acceptFails, at, acc, registered)
        invariant kernel.accepted == accepted0 + if acc != -1 then 1 else 0
      {
        acc, at := HandleOne(events, i, fails, acceptFails, acc, at, was, accepted0);
        i := i + 1;
      }
      HandledIs(was, events, kernel.soc, fails, acceptFails, at, acc, registered);
    }

    /** One pass: nothing happens at an error or a timeout. */
    method Pass(waited: Waited, fails: int -> bool, acceptFails: bool) returns (acc: int, ghost at: int)
      requires Valid()
      modifies this, kernel
      ensures Valid()
      ensures Handled(old(registered), EventsOf(waited, old(registered) + {kernel.soc}), kernel.soc, fails, acceptFails,
                      at, acc, registered)
      ensures kernel.accepted == old(kernel.accepted) + if acc != -1 then 1 else 0
    {
      hide Handled, InBatch, Kernel.Valid;
      acc, at := -1, -1;
      if waited.Events? {
        var events := Reported(waited.fds, registered + {kernel.soc});
        BatchFits(events, registered, kernel.soc);
        acc, at := HandleBatch(events, fails, acceptFails);
      } else {
        NothingHandled(registered, kernel.soc, fails, acceptFails);
      }
    }

    /** Any number of passes, whatever epoll_wait reports, whichever exchanges fail and whenever
        accept does: every pass does to the registered clients what it is meant to. */
    method Run(rounds: nat, says: nat -> Waited, fails: nat -> int -> bool, acceptFails: nat -> bool)
      returns (ghost lives: seq<set<int>>, ghost accs: seq<int>, ghost ats: seq<int>)
      requires Valid()
      modifies this, kernel
      ensures Valid()
      ensures |accs| == |ats| == rounds && |lives| == rounds + 1
      ensures lives[0] == old(registered) && lives[rounds] == registered
      ensures kernel.accepted == old(kernel.accepted) + Taken(accs)
      ensures HandledAll(kernel.soc, lives, says, fails, acceptFails, ats, accs)
    {
      hide Handled, HandledAll, Kernel.Valid, EventsOf, Taken;
      lives, accs, ats := [registered], [], [];
      NonePassed(kernel.soc, registered, says, fails, acceptFails);
      for r := 0 to rounds
        invariant Valid() && |accs| == |ats| == r && |lives| == r + 1
        invariant lives[0] == old(registered) && lives[r] == registered
        invariant kernel.accepted == old(kernel.accepted) + Taken(accs)
        invariant HandledAll(kernel.soc, lives, says, fails, acceptFails, ats, accs)
      {
        var acc: int;
        ghost var at: int;
        acc, at := Pass(says(r), fails(r), acceptFails(r));
        TakenMore(accs, acc);
        HandledMore(kernel.soc, lives, says, fails, acceptFails, ats, accs, at, acc, registered);
        lives, accs, ats := lives + [registered], accs + [acc], ats + [at];
      }
    }
  }

  /** What epoll_wait can report of a list: what is registered, each descriptor once. */
  function Reported(fds: seq<int>, watched: set<int>): (r: seq<int>)
    ensures Distinct(r) && forall fd :: fd in r <==> fd in watched && fd in fds
  {
    if fds == [] then []
    else
      var r := Reported(fds[..|fds| - 1], watched);
      var last := fds[|fds| - 1];
      if last in watched && last !in r then r + [last] else r
  }

  /** The clients registered after `i` events of a batch that started with `was`. */
  predicate InBatch(was: set<int>, events: seq<int>, i: nat, soc: int, fails: int -> bool, acceptFails: bool,
                    at: int, acc: int, now: set<int>) {
    && i <= |events|
    && if at == -1 then acc == -1 && soc !in events[..i] && now == was - Failing(events[..i], soc, fails)
       else
         && 0 <= at < i && events[at] == soc && (acc == -1 <==> acceptFails)
         && acc !in was - Failing(events[..at], soc, fails)
         && now == was - Failing(events[..i], soc, fails) + Admitted(was - Failing(events[..at], soc, fails), acc)
  }

  /** What a batch does: a connection is accepted exactly when the server socket is among the
      events and accept succeeds; the clients among the events whose exchange fails are gone, and
      the new one is in while fewer than 19 were left when its turn came. */
  ghost predicate Handled(was: set<int>, events: seq<int>, soc: int, fails: int -> bool, acceptFails: bool,
                          at: int, acc: int, now: set<int>) {
    && (if soc in events then 0 <= at < |events| && events[at] == soc else at == -1)
    && (acc != -1 <==> soc in events && !acceptFails)
    && (at != -1 && acc != -1 ==> acc !in (set fd | fd in was && !(fd in events[..at] && fails(fd))))
    && now == (set fd | fd in was && !(fd in events && fails(fd)))
              + (if at != -1 && acc != -1 && |set fd | fd in was && !(fd in events[..at] && fails(fd))| < 19
                 then {acc} else {})
  }

  function EventsOf(waited: Waited, watched: set<int>): (events: seq<int>) {
    if waited.Events? then Reported(waited.fds, watched) else []
  }

  lemma HandledIs(was: set<int>, events: seq<int>, soc: int, fails: int -> bool, acceptFails: bool,
                  at: int, acc: int, now: set<int>)
    requires InBatch(was, events, |events|, soc, fails, acceptFails, at, acc, now) && soc !in was
    ensures Handled(was, events, soc, fails, acceptFails, at, acc, now)
  {
    assert events[..|events|] == events;
    LeftAre(was, events, soc, fails);
    if at != -1 {
      LeftAre(was, events[..at], soc, fails);
    }
  }

  lemma LeftAre(was: set<int>, events: seq<int>, soc: int, fails: int -> bool)
    requires soc !in was
    ensures was - Failing(events, soc, fails) == set fd | fd in was && !(fd in events && fails(fd))
  {
  }

  lemma NothingHandled(was: set<int>, soc: int, fails: int -> bool, acceptFails: bool)
    ensures Handled(was, [], soc, fails, acceptFails, -1, -1, was)
  {
  }

  /** What the passes make of the registered clients one after the other. */
  ghost predicate HandledAll(soc: int, lives: seq<set<int>>, says: nat -> Waited, fails: nat -> int -> bool,
                             acceptFails: nat -> bool, ats: seq<int>, accs: seq<int>) {
    && |lives| == |accs| + 1 == |ats| + 1
    && forall r :: 0 <= r < |accs| ==>
         Handled(lives[r], EventsOf(says(r), lives[r] + {soc}), soc, fails(r), acceptFails(r),
                 ats[r], accs[r], lives[r + 1])
  }

  lemma NonePassed(soc: int, was: set<int>, says: nat -> Waited, fails: nat -> int -> bool, acceptFails: nat -> bool)
    ensures HandledAll(soc, [was], says, fails, acceptFails, [], []) && Taken([]) == 0
  {
  }

  lemma HandledMore(soc: int, lives: seq<set<int>>, says: nat -> Waited, fails: nat -> int -> bool,
                    acceptFails: nat -> bool, ats: seq<int>, accs: seq<int>, at: int, acc: int, next: set<int>)
    requires HandledAll(soc, lives, says, fails, acceptFails, ats, accs)
    requires var r := |accs|;
             Handled(lives[r], EventsOf(says(r), lives[r] + {soc}), soc, fails(r), acceptFails(r), at, acc, next)
    ensures HandledAll(soc, lives + [next], says, fails, acceptFails, ats + [at], accs + [acc])
  {
    hide Handled, EventsOf;
  }

  lemma StartBatch(was: set<int>, events: seq<int>, soc: int, fails: int -> bool, acceptFails: bool)
    ensures InBatch(was, events, 0, soc, fails, acceptFails, -1, -1, was)
  {
  }

  /** The server socket occurs once in a batch. */
  lemma OnlyOnce(was: set<int>, events: seq<int>, i: nat, soc: int, fails: int -> bool, acceptFails: bool,
                 at: int, acc: int, now: set<int>)
    requires InBatch(was, events, i, soc, fails, acceptFails, at, acc, now)
    requires i < |events| && Distinct(events) && events[i] == soc
    ensures at == -1 && acc == -1
  {
  }

  lemma AcceptInBatch(was: set<int>, events: seq<int>, i: nat, soc: int, fails: int -> bool, acceptFails: bool,
                      acc: int, before: set<int>, now: set<int>)
    requires InBatch(was, events, i, soc, fails, acceptFails, -1, -1, before) && i < |events| && events[i] == soc
    requires acc !in before && now == before + Admitted(before, acc) && (acc == -1 <==> acceptFails)
    ensures InBatch(was, events, i + 1, soc, fails, acceptFails, i, acc, now)
  {
    FailingMore(events, i, soc, fails);
  }

  /** A client in the batch is still the one that was registered when the batch was reported. */
  lemma ClientInBatch(was: set<int>, events: seq<int>, i: nat, soc: int, fails: int -> bool, acceptFails: bool,
                      at: int, acc: int, now: set<int>)
    requires InBatch(was, events, i, soc, fails, acceptFails, at, acc, now) && i < |events| && Distinct(events)
    requires events[i] != soc && events[i] in was
    ensures events[i] in now && (at != -1 ==> events[i] != acc)
    ensures InBatch(was, events, i + 1, soc, fails, acceptFails, at, acc,
                    now - if fails(events[i]) then {events[i]} else {})
  {
    hide Failing, Admitted;
    var x := events[i];
    FailingMore(events, i, soc, fails);
    NotYet(events, i, i, soc, fails);
    assert events[..i + 1] == events[..i] + [x];
    var f := Failing(events[..i], soc, fails);
    var gone: set<int> := if fails(x) then {x} else {};
    if at == -1 {
      assert was - f - gone == was - (f + gone);
    } else {
      NotYet(events, at, i, soc, fails);
      AdmittedOnly(was - Failing(events[..at], soc, fails), acc);
      TakeOff(was, f, Admitted(was - Failing(events[..at], soc, fails), acc), gone);
    }
  }

  lemma NotYet(events: seq<int>, k: nat, i: nat, soc: int, fails: int -> bool)
    requires k <= i < |events| && Distinct(events)
    ensures events[i] !in Failing(events[..k], soc, fails)
  {
  }

  lemma AdmittedOnly(registered: set<int>, acc: int)
    ensures Admitted(registered, acc) <= {acc}
  {
  }

  lemma TakeOff(was: set<int>, f: set<int>, a: set<int>, gone: set<int>)
    requires gone !! a
    ensures was - f + a - gone == was - (f + gone) + a
  {
  }
}
