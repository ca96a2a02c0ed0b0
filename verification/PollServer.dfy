/** The accept loop of chapter05/server3.c: poll over a snapshot of the table, so that a
    descriptor that is closed has to be looked up by its value. */
module PollServer {
  import opened Sockets
  import opened ChildTable

  /** The descriptors given to poll: the server socket and the live entries, in slot order. */
  ghost predicate Snapshot(targets: seq<int>, soc: int, live: set<int>) {
    && targets != [] && targets[0] == soc && Distinct(targets)
    && forall fd :: fd in targets[1..] <==> fd in live
  }

  lemma SnapshotIs(u: seq<int>, soc: int, live: set<int>)
    requires Distinct(u) && soc !in live && forall x :: x in u <==> x in live
    ensures Snapshot([soc] + u, soc, live)
  {
    var t := [soc] + u;
    assert t[1..] == u;
    forall i, j | 0 <= i < j < |t| ensures t[i] != t[j] {
      assert t[j] == u[j - 1];
      if i == 0 {
        assert t[j] in u;
      } else {
        assert t[i] == u[i - 1];
      }
    }
  }

  /** The entries in use are the live descriptors. */
  lemma UsedIsLive(s: seq<int>, n: nat)
    requires n <= |s| && forall i :: n <= i < |s| ==> s[i] == -1
    requires forall i, j :: 0 <= i < j < n && s[i] != -1 ==> s[i] != s[j]
    ensures Distinct(Used(s[..n])) && |Used(s[..n])| == |LiveOf(s)| && forall x :: x in Used(s[..n]) <==> x in LiveOf(s)
  {
    UsedSize(s[..n]);
    LiveInUse(s, n);
    DistinctSize(Used(s[..n]), LiveOf(s));
  }

  /** Building the targets, which always fit the MAX_CHILD + 1 entries of the array. */
  method BuildTargets(c: Connections) returns (targets: array<int>, count: nat)
    requires c.Valid()
    ensures fresh(targets) && targets.Length == MAX_CHILD + 1 && count <= MAX_CHILD
    ensures count == |c.table.Live()| + 1 && Snapshot(targets[..count], c.kernel.soc, c.table.Live())
  {
    hide LiveOf, Kernel.Valid, Snapshot, Distinct;
    targets := new int[MAX_CHILD + 1];
    targets[0] := c.kernel.soc;
    count := 1;
    var i := 0;
    ghost var s := c.table.child[..];
    assert s[..0] == [];
    while i < c.table.childNo
      invariant 0 <= i <= c.table.childNo
      invariant 1 <= count <= i + 1 && targets[..count] == [c.kernel.soc] + Used(s[..i])
    {
      ghost var before := targets[..count];
      assert s[..i + 1][..i] == s[..i];
      if c.table.child[i] != -1 {
        targets[count] := c.table.child[i];
        assert targets[..count] == before;
        count := count + 1;
      }
      i := i + 1;
    }
    UsedIsLive(s, i);
    SocketApart(c.kernel);
    SnapshotIs(Used(s[..i]), c.kernel.soc, c.table.Live());
  }

  /** Serving the ready targets. Each failing one is closed once, and exactly its own slot is
      freed, whichever connection has been accepted since the snapshot. */
  method ServeTargets(c: Connections, targets: array<int>, count: nat, ready: set<int>,
                      fails: int -> bool, ghost live: set<int>)
    requires c.Valid() && 1 <= count <= targets.Length && targets != c.table.child
    requires Snapshot(targets[..count], c.kernel.soc, live) && live <= c.table.Live()
    modifies c.kernel, c.table.child
    ensures c.Valid() && c.table.Live() == old(c.table.Live()) - Failing(live, ready, fails)
    ensures c.kernel.accepted == old(c.kernel.accepted)
  {
    hide Kernel.Valid, Table.Valid, LiveOf;
    ghost var t, all := targets[..count], c.table.Live();
    ghost var served: set<int> := {};
    var i := 1;
    while i < count
      invariant 1 <= i <= count && c.Valid() && targets[..count] == t && c.kernel.accepted == old(c.kernel.accepted)
      invariant served == set k | 1 <= k < i && t[k] in ready && fails(t[k]) :: t[k]
      invariant c.table.Live() == all - served
    {
      StillOpen(t, c.kernel.soc, live, i, served);
      assert targets[i] == t[i];
      if targets[i] in ready {
        if fails(targets[i]) {
          c.kernel.Close(targets[i]);
          c.table.ClearValue(targets[i]);
          served := served + {t[i]};
        }
      }
      i := i + 1;
    }
    AllServed(t, c.kernel.soc, live, ready, fails, served);
  }

  /** A target not yet visited is live and not among those closed. */
  lemma StillOpen(t: seq<int>, soc: int, live: set<int>, i: nat, served: set<int>)
    requires Snapshot(t, soc, live) && 1 <= i < |t|
    requires forall x :: x in served ==> exists k :: 1 <= k < i && t[k] == x
    ensures t[i] in live && t[i] !in served
  {
    assert t[1..][i - 1] == t[i];
  }

  lemma AllServed(t: seq<int>, soc: int, live: set<int>, ready: set<int>, fails: int -> bool, served: set<int>)
    requires Snapshot(t, soc, live)
    requires served == set k | 1 <= k < |t| && t[k] in ready && fails(t[k]) :: t[k]
    ensures served == Failing(live, ready, fails)
  {
    forall x | x in Failing(live, ready, fails) ensures x in served {
      assert x in t[1..];
      var k :| 0 <= k < |t[1..]| && t[1..][k] == x;
      assert t[k + 1] == x;
    }
    forall x | x in served ensures x in live {
      var k :| 1 <= k < |t| && t[k] == x;
      assert t[1..][k - 1] == x;
    }
  }

  /** One pass of the accept loop: `selected` is what poll reports on the snapshot. */
  method Round(c: Connections, targets: array<int>, count: nat, selected: Selected, fails: int -> bool,
               acceptFails: bool)
    returns (acc: int)
    requires c.Valid() && 1 <= count <= targets.Length && targets != c.table.child
    requires Snapshot(targets[..count], c.kernel.soc, c.table.Live())
    modifies c.kernel, c.table, c.table.child
    ensures c.Valid() && |c.table.Live()| < MAX_CHILD
    ensures Passed(c.kernel.soc, old(c.table.Live()), selected, fails, acceptFails, acc, c.table.Live())
    ensures c.kernel.accepted == old(c.kernel.accepted) + if acc != -1 then 1 else 0
  {
    hide LiveOf, Kernel.Valid, Table.Valid, Failing, Snapshot, Admitted, Passed;
    acc := -1;
    ghost var live := c.table.Live();
    NotMinusOne(c.table.child[..]);
    if selected.Ready? {
      NoneAdmitted(live);
      SnapshotHead(targets[..count], c.kernel.soc, live);
      if targets[0] in selected.fds {
        acc := c.AcceptOne(acceptFails);
      }
      MoreLive(live, acc);
      ServeTargets(c, targets, count, selected.fds, fails, live);
      OldServed(live, acc, selected.fds, fails);
    }
    PassedIs(c.kernel.soc, live, selected, fails, acceptFails, acc, c.table.Live());
    c.table.LiveBound();
  }

  lemma SnapshotHead(t: seq<int>, soc: int, live: set<int>)
    requires Snapshot(t, soc, live)
    ensures t != [] && t[0] == soc
  {
  }

  lemma OldServed(live: set<int>, acc: int, ready: set<int>, fails: int -> bool)
    requires acc !in live
    ensures live + Admitted(live, acc) - Failing(live, ready, fails)
         == live - Failing(live, ready, fails) + Admitted(live, acc)
  {
  }

  /** Any number of passes, whatever poll reports, whichever exchanges fail and whenever accept
      does: every pass does to the live descriptors what it is meant to. */
  method Run(c: Connections, rounds: nat, says: nat -> Selected, fails: nat -> int -> bool, acceptFails: nat -> bool)
    returns (ghost lives: seq<set<int>>, ghost accs: seq<int>)
    requires c.Valid()
    modifies c.kernel, c.table, c.table.child
    ensures c.Valid() && |c.table.Live()| < MAX_CHILD
    ensures |accs| == rounds && PassedAll(c.kernel.soc, lives, says, fails, acceptFails, accs)
    ensures lives[0] == old(c.table.Live()) && lives[rounds] == c.table.Live()
    ensures c.kernel.accepted == old(c.kernel.accepted) + Taken(accs)
  {
    hide LiveOf, Kernel.Valid, Table.Valid, Passed, PassedAll, Taken, Snapshot;
    lives, accs := [c.table.Live()], [];
    NoPasses(c.kernel.soc, c.table.Live(), says, fails, acceptFails);
    for r := 0 to rounds
      invariant c.Valid() && |accs| == r && |lives| == r + 1
      invariant PassedAll(c.kernel.soc, lives, says, fails, acceptFails, accs)
      invariant lives[0] == old(c.table.Live()) && lives[r] == c.table.Live()
      invariant c.kernel.accepted == old(c.kernel.accepted) + Taken(accs)
    {
      var targets, count := BuildTargets(c);
      var acc := Round(c, targets, count, says(r), fails(r), acceptFails(r));
      PassedMore(c.kernel.soc, lives, says, fails, acceptFails, accs, acc, c.table.Live());
      TakenMore(accs, acc);
      lives, accs := lives + [c.table.Live()], accs + [acc];
    }
    c.table.LiveBound();
  }
}
