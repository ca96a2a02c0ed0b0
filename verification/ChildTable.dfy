/** The table of accepted descriptors that chapter05/server2.c and server3.c keep: slots are
    reused, and the table grows while no slot is free. */
module ChildTable {
  import opened Sockets

  class Table {
    const child: array<int>
    var childNo: nat

    constructor ()
      ensures Valid() && childNo == 0 && fresh(child)
      ensures Live() == {}
    {
      child := new int[MAX_CHILD](_ => -1);
      childNo := 0;
    }

    /** Free slots hold -1; the others hold different descriptors. */
    ghost predicate Valid()
      reads this, child
    {
      && child.Length == MAX_CHILD && childNo < MAX_CHILD
      && (forall i :: childNo <= i < MAX_CHILD ==> child[i] == -1)
      && (forall i :: 0 <= i < childNo ==> child[i] >= -1)
      && (forall i, j :: 0 <= i < j < childNo && child[i] != -1 ==> child[i] != child[j])
    }

    /** The live descriptors. */
    ghost function Live(): (r: set<int>)
      reads child
    {
      LiveOf(child[..])
    }

    /** The admission limit. */
    lemma LiveBound()
      requires Valid()
      ensures |Live()| < MAX_CHILD
    {
      LiveSize(child[..], childNo);
    }

    /** The first free slot among those in use so far, or -1. */
    method FreeSlot() returns (pos: int)
      requires Valid()
      ensures pos == -1 ==> forall i :: 0 <= i < childNo ==> child[i] != -1
      ensures pos != -1 ==> 0 <= pos < childNo && child[pos] == -1 && forall i :: 0 <= i < pos ==> child[i] != -1
    {
      for i := 0 to childNo
        invariant forall k :: 0 <= k < i ==> child[k] != -1
      {
        if child[i] == -1 {
          return i;
        }
      }
      pos := -1;
    }

    /** The slot for a new descriptor: a free one, a further one, or none (-1) when
        MAX_CHILD - 1 are live. */
    method NextSlot() returns (pos: int)
      requires Valid()
      modifies this`childNo
      ensures Valid() && (pos == -1 <==> |Live()| >= MAX_CHILD - 1)
      ensures childNo >= old(childNo) && FirstFree(child[..]) < child.Length
      ensures pos != -1 ==> 0 <= pos < childNo && pos == FirstFree(child[..]) && child[pos] == -1
    {
      LiveSize(child[..], childNo);
      pos := FreeSlot();
      FirstFreeIs(child[..], if pos == -1 then childNo else pos);
      if pos == -1 {
        if childNo + 1 >= MAX_CHILD {
          return;
        }
        childNo := childNo + 1;
        pos := childNo - 1;
      }
    }

    /** Storing an accepted descriptor: it is refused exactly when MAX_CHILD - 1 are live. */
    method Store(acc: int) returns (stored: bool)
      requires Valid() && acc >= 0 && acc !in Live()
      modifies this, child
      ensures Valid()
      ensures stored <==> |old(Live())| < MAX_CHILD - 1
      ensures Live() == if stored then old(Live()) + {acc} else old(Live())
      ensures FirstFree(old(child[..])) < child.Length
      ensures child[..] == if stored then old(child[..])[FirstFree(old(child[..])) := acc] else old(child[..])
      ensures childNo >= old(childNo)
    {
      hide LiveOf;
      ghost var was := child[..];
      NotLive(was, acc);
      var pos := NextSlot();
      if pos == -1 {
        return false;
      }
      child[pos] := acc;
      assert child[..] == was[pos := acc];
      FilledSlot(was, pos, acc);
      stored := true;
    }

    /** Freeing the slot of a closed descriptor. */
    method Clear(i: nat)
      requires Valid() && i < childNo && child[i] != -1
      modifies child
      ensures Valid() && child[i] == -1 && Live() == old(Live()) - {old(child[i])}
      ensures forall j :: 0 <= j < MAX_CHILD && j != i ==> child[j] == old(child[j])
    {
      ghost var was := child[..];
      child[i] := -1;
      assert child[..] == was[i := -1];
      FreedSlot(was, i);
    }

    /** Freeing by value: the loop of server3.c finds exactly the slot of the descriptor. */
    method ClearValue(fd: int)
      requires Valid() && fd in Live()
      modifies child
      ensures Valid() && Live() == old(Live()) - {fd}
      ensures forall j :: 0 <= j < MAX_CHILD ==> child[j] == if old(child[j]) == fd then -1 else old(child[j])
    {
      ghost var at :| 0 <= at < child.Length && child[..][at] == fd;
      var j := 0;
      while j < childNo
        invariant 0 <= j <= at
      {
        if child[j] == fd {
          Clear(j);
          return;
        }
        j := j + 1;
      }
    }
  }

  /** The first free slot. */
  function FirstFree(s: seq<int>): (i: nat)
    ensures i <= |s|
  {
    if s == [] || s[0] == -1 then 0 else 1 + FirstFree(s[1..])
  }

  lemma {:induction false} FirstFreeIs(s: seq<int>, i: nat)
    requires i <= |s| && (forall k :: 0 <= k < i ==> s[k] != -1) && (i < |s| ==> s[i] == -1)
    ensures FirstFree(s) == i
  {
    if i > 0 {
      FirstFreeIs(s[1..], i - 1);
    }
  }

  function LiveOf(s: seq<int>): (r: set<int>) {
    set x | x in s && x != -1
  }

  lemma NotLive(s: seq<int>, x: int)
    requires x != -1 && x !in LiveOf(s)
    ensures forall i :: 0 <= i < |s| ==> s[i] != x
  {
  }

  lemma FilledSlot(s: seq<int>, i: nat, x: int)
    requires i < |s| && s[i] == -1 && x != -1
    ensures LiveOf(s[i := x]) == LiveOf(s) + {x}
  {
    var t := s[i := x];
    assert t[i] == x;
    forall y | y in LiveOf(s) ensures y in t {
      var k :| 0 <= k < |s| && s[k] == y;
      assert t[k] == y;
    }
  }

  lemma FreedSlot(s: seq<int>, i: nat)
    requires i < |s| && s[i] != -1
    requires forall j :: 0 <= j < |s| && j != i ==> s[j] != s[i]
    ensures LiveOf(s[i := -1]) == LiveOf(s) - {s[i]}
  {
    var t := s[i := -1];
    forall y | y in LiveOf(s) && y != s[i] ensures y in t {
      var k :| 0 <= k < |s| && s[k] == y;
      assert t[k] == y;
    }
  }

  /** At most `n` are live when only the first `n` slots are in use; all of them when none of
      these is free. */
  lemma LiveSize(s: seq<int>, n: nat)
    requires n <= |s| && forall i :: n <= i < |s| ==> s[i] == -1
    requires forall i, j :: 0 <= i < j < n && s[i] != -1 ==> s[i] != s[j]
    ensures |LiveOf(s)| <= n
    ensures |LiveOf(s)| == n <==> forall i :: 0 <= i < n ==> s[i] != -1
  {
    var t := s[..n];
    UsedSize(t);
    forall x | x in LiveOf(s) ensures x in Used(t) {
      var k :| 0 <= k < |s| && s[k] == x;
      assert t[k] == x;
    }
    DistinctSize(Used(t), LiveOf(s));
  }

  /** The entries in use, in slot order. */
  function Used(s: seq<int>): (u: seq<int>) {
    if s == [] then [] else Used(s[..|s| - 1]) + if s[|s| - 1] == -1 then [] else [s[|s| - 1]]
  }

  lemma {:induction false} UsedSize(s: seq<int>)
    requires forall i, j :: 0 <= i < j < |s| && s[i] != -1 ==> s[i] != s[j]
    ensures Distinct(Used(s)) && |Used(s)| <= |s|
    ensures forall x :: x in Used(s) <==> x in s && x != -1
    ensures |Used(s)| == |s| <==> forall i :: 0 <= i < |s| ==> s[i] != -1
    decreases |s|
  {
    if s != [] {
      var l := |s| - 1;
      UsedSize(s[..l]);
      assert s == s[..l] + [s[l]];
      if s[l] != -1 {
        NotIn(s, l);
        DistinctMore(Used(s[..l]), s[l]);
      }
    }
  }

  lemma NotIn(s: seq<int>, l: nat)
    requires l < |s| && forall i :: 0 <= i < l && s[i] != -1 ==> s[i] != s[l]
    requires s[l] != -1
    ensures s[l] !in s[..l]
  {
  }

  lemma DistinctMore(u: seq<int>, x: int)
    requires Distinct(u) && x !in u
    ensures Distinct(u + [x])
  {
  }

  lemma LiveAt(s: seq<int>, i: nat)
    requires i < |s| && s[i] != -1
    ensures s[i] in LiveOf(s)
  {
  }

  lemma NotMinusOne(s: seq<int>)
    ensures -1 !in LiveOf(s)
  {
  }

  /** Slots not in use hold nothing. */
  lemma LiveInUse(s: seq<int>, n: nat)
    requires n <= |s| && forall i :: n <= i < |s| ==> s[i] == -1
    ensures LiveOf(s[..n]) == LiveOf(s)
  {
    forall x | x in LiveOf(s) ensures x in s[..n] {
      var k :| 0 <= k < |s| && s[k] == x;
      assert s[..n][k] == x;
    }
  }

  // ---- The table and the kernel ----

  /** What select or poll returned; the ready descriptors are among those asked for. */
  datatype Selected = Error | Timeout | Ready(fds: set<int>)

  /** One pass of an accept loop over a table: a connection is accepted exactly when the server
      socket is reported ready and accept succeeds; exactly the ready descriptors whose exchange
      fails are gone, and the new one is in while fewer than 19 were live. */
  ghost predicate Passed(soc: int, live: set<int>, says: Selected, fails: int -> bool, acceptFails: bool,
                         acc: int, next: set<int>) {
    && (acc != -1 <==> says.Ready? && soc in says.fds && !acceptFails)
    && (acc != -1 ==> acc !in live)
    && next == (set fd | fd in live && !(says.Ready? && fd in says.fds && fails(fd)))
               + (if acc != -1 && |live| < 19 then {acc} else {})
  }

  /** What the passes make of the live descriptors one after the other. */
  ghost predicate PassedAll(soc: int, lives: seq<set<int>>, says: nat -> Selected, fails: nat -> int -> bool,
                            acceptFails: nat -> bool, accs: seq<int>) {
    && |lives| == |accs| + 1
    && forall r :: 0 <= r < |accs| ==>
         Passed(soc, lives[r], says(r), fails(r), acceptFails(r), accs[r], lives[r + 1])
  }

  lemma NoPasses(soc: int, live: set<int>, says: nat -> Selected, fails: nat -> int -> bool, acceptFails: nat -> bool)
    ensures PassedAll(soc, [live], says, fails, acceptFails, []) && Taken([]) == 0
  {
  }

  lemma PassedMore(soc: int, lives: seq<set<int>>, says: nat -> Selected, fails: nat -> int -> bool,
                   acceptFails: nat -> bool, accs: seq<int>, acc: int, next: set<int>)
    requires PassedAll(soc, lives, says, fails, acceptFails, accs)
    requires Passed(soc, lives[|accs|], says(|accs|), fails(|accs|), acceptFails(|accs|), acc, next)
    ensures PassedAll(soc, lives + [next], says, fails, acceptFails, accs + [acc])
  {
    hide Passed;
  }

  lemma PassedIs(soc: int, live: set<int>, says: Selected, fails: int -> bool, acceptFails: bool,
                 acc: int, next: set<int>)
    requires acc != -1 <==> says.Ready? && soc in says.fds && !acceptFails
    requires acc != -1 ==> acc !in live
    requires next == if says.Ready? then live - Failing(live, says.fds, fails) + Admitted(live, acc) else live
    ensures Passed(soc, live, says, fails, acceptFails, acc, next)
  {
  }

  /** The live descriptors that are ready and whose exchange fails. */
  function Failing(live: set<int>, ready: set<int>, fails: int -> bool): (r: set<int>) {
    set fd | fd in live && fd in ready && fails(fd)
  }

  /** The open descriptors are never the server socket. */
  lemma SocketApart(kernel: Kernel)
    requires kernel.Valid()
    ensures kernel.soc !in kernel.open && kernel.soc >= 0
  {
  }

  lemma NoneAdmitted(live: set<int>)
    ensures live + Admitted(live, -1) == live
  {
  }

  lemma MoreLive(live: set<int>, acc: int)
    ensures live <= live + Admitted(live, acc)
  {
  }

  /** A connection accepted in this pass is not served in it: it was not in the mask. */
  lemma NewNotReady(live: set<int>, acc: int, soc: int, ready: set<int>, fails: int -> bool)
    requires ready <= {soc} + live && soc != acc && (acc != -1 ==> acc !in live)
    ensures var now := live + Admitted(live, acc);
            now - Failing(now, ready, fails) == live - Failing(live, ready, fails) + Admitted(live, acc)
  {
    assert Failing(live + Admitted(live, acc), ready, fails) == Failing(live, ready, fails);
  }

  predicate AlignedTo(s: seq<int>, base: int) {
    forall i :: 0 <= i < |s| ==> s[i] == -1 || s[i] == base + i
  }

  /** The lowest free number belongs to the first free slot. */
  lemma StaysAligned(s: seq<int>, soc: int, fd: int)
    requires soc >= 0 && AlignedTo(s, soc + 1) && LowestFree(soc, LiveOf(s), fd) && FirstFree(s) < |s|
    ensures AlignedTo(s[FirstFree(s) := fd], soc + 1)
  {
    var i := FirstFree(s);
    BeforeFirstFree(s);
    forall n | soc < n < soc + 1 + i ensures n in LiveOf(s) {
      assert s[n - soc - 1] == n;
    }
    assert soc + 1 + i !in LiveOf(s);
  }

  lemma {:induction false} BeforeFirstFree(s: seq<int>)
    ensures var i := FirstFree(s); (forall k :: 0 <= k < i ==> s[k] != -1) && (i < |s| ==> s[i] == -1)
  {
    if s != [] && s[0] != -1 {
      BeforeFirstFree(s[1..]);
    }
  }

  class Connections {
    const kernel: Kernel
    const table: Table

    constructor (soc: int, lowest: bool)
      requires soc >= 0
      ensures Valid() && table.Live() == {} && kernel.soc == soc && kernel.lowest == lowest
      ensures fresh(kernel) && fresh(table) && fresh(table.child) && Aligned()
    {
      kernel := new Kernel(soc, lowest);
      table := new Table();
    }

    /** The table lists exactly the open connections. */
    ghost predicate Valid()
      reads this, kernel, table, table.child
    {
      kernel.Valid() && table.Valid() && table.Live() == kernel.open.Keys
    }

    /** Every descriptor stands in the slot of its number, counted from the server socket. */
    ghost predicate Aligned()
      reads this, kernel, table, table.child
    {
      AlignedTo(table.child[..], kernel.soc + 1)
    }

    /** Accepting a connection: it is closed again exactly when MAX_CHILD - 1 are live. */
    method AcceptOne(fails: bool) returns (acc: int)
      requires Valid()
      modifies kernel, table, table.child
      ensures acc == -1 <==> fails
      ensures Valid() && acc !in old(table.Live()) && acc != kernel.soc
      ensures kernel.accepted == old(kernel.accepted) + if acc != -1 then 1 else 0
      ensures table.Live() == old(table.Live()) + Admitted(old(table.Live()), acc)
      ensures kernel.lowest && old(Aligned()) ==> Aligned()
    {
      hide LiveOf, Table.Valid, Kernel.Valid, Admitted, Opened, Closed, AlignedTo, LowestFree, FirstFree;
      ghost var was := table.child[..];
      acc := kernel.Accept(fails);
      AdmittedSet(table.Live(), acc);
      if acc == -1 {
        return;
      }
      var stored := table.Store(acc);
      if !stored {
        kernel.Close(acc);
      } else if kernel.lowest && AlignedTo(was, kernel.soc + 1) {
        StaysAligned(was, kernel.soc, acc);
      }
    }
  }
}
