/** The accept loop of chapter05/server2.c: select over the table of accepted descriptors. */
module SelectServer {
  import opened Sockets
  import opened ChildTable

  /** A table after serving: the failing ones are gone. */
  lemma ServedTable(s: seq<int>, t: seq<int>, ready: set<int>, fails: int -> bool)
    requires |t| == |s|
    requires forall k :: 0 <= k < |s| ==> t[k] == if s[k] != -1 && s[k] in ready && fails(s[k]) then -1 else s[k]
    ensures LiveOf(t) == LiveOf(s) - Failing(LiveOf(s), ready, fails)
  {
    forall x | x in LiveOf(s) && !(x in ready && fails(x)) ensures x in t {
      var k :| 0 <= k < |s| && s[k] == x;
      assert t[k] == x;
    }
  }

  /** The number of entries that raise the width when they are visited in slot order. */
  function Raises(s: seq<int>, width: int): (n: nat) {
    if s == [] then 0
    else if s[0] != -1 && s[0] + 1 > width then 1 + Raises(s[1..], s[0] + 1)
    else Raises(s[1..], width)
  }

  function Entries(s: seq<int>): (n: nat) {
    if s == [] then 0 else (if s[0] != -1 then 1 else 0) + Entries(s[1..])
  }

  /** Every entry is above all earlier ones. */
  predicate Climbing(s: seq<int>, width: int) {
    s == [] || (if s[0] == -1 then Climbing(s[1..], width) else s[0] >= width && Climbing(s[1..], s[0] + 1))
  }

  /** The child count that is displayed is right exactly when the descriptors increase from
      slot to slot. */
  lemma {:induction false} CountRightWhenClimbing(s: seq<int>, width: int)
    ensures Raises(s, width) <= Entries(s)
    ensures Raises(s, width) == Entries(s) <==> Climbing(s, width)
  {
    if s != [] {
      CountRightWhenClimbing(s[1..], width);
      CountRightWhenClimbing(s[1..], s[0] + 1);
    }
  }

  lemma {:induction false} EntriesAreLive(s: seq<int>)
    requires forall i, j :: 0 <= i < j < |s| && s[i] != -1 ==> s[i] != s[j]
    ensures Entries(s) == |LiveOf(s)|
  {
    if s != [] {
      EntriesAreLive(s[1..]);
      assert s == [s[0]] + s[1..];
      if s[0] != -1 {
        assert LiveOf(s) == LiveOf(s[1..]) + {s[0]};
      } else {
        assert LiveOf(s) == LiveOf(s[1..]);
      }
    }
  }

  /** Building the mask for select. */
  method BuildMask(c: Connections) returns (mask: set<int>, width: int, count: nat)
    requires c.Valid()
    ensures mask == {c.kernel.soc} + c.table.Live()
    ensures (forall fd :: fd in mask ==> fd < width) && width - 1 in mask
    ensures count == Raises(c.table.child[..c.table.childNo], c.kernel.soc + 1)
  {
    hide Raises, Kernel.Valid, LiveOf;
    mask, width, count := {c.kernel.soc}, c.kernel.soc + 1, 0;
    var i := 0;
    ghost var s, soc := c.table.child[..], c.kernel.soc;
    NoRaises(s, 0, width);
    assert s[..0] == [] && s[0..c.table.childNo] == c.table.child[..c.table.childNo];
    while i < c.table.childNo
      invariant 0 <= i <= c.table.childNo
      invariant mask == {soc} + LiveOf(s[..i])
      invariant (forall fd :: fd in mask ==> fd < width) && width - 1 in mask
      invariant count + Raises(s[i..c.table.childNo], width) == Raises(c.table.child[..c.table.childNo], soc + 1)
    {
      MaskStep(s, i, c.table.childNo, width);
      if c.table.child[i] != -1 {
        mask := mask + {c.table.child[i]};
        if c.table.child[i] + 1 > width {
          width := c.table.child[i] + 1;
          count := count + 1;
        }
      }
      i := i + 1;
    }
    NoRaises(s, i, width);
    LiveInUse(s, c.table.childNo);
  }

  /** Serving the ready ones among the accepted descriptors. */
  method ServeReady(c: Connections, ready: set<int>, fails: int -> bool)
    requires c.Valid()
    modifies c.kernel, c.table.child
    ensures c.Valid() && c.table.Live() == old(c.table.Live()) - Failing(old(c.table.Live()), ready, fails)
    ensures c.kernel.accepted == old(c.kernel.accepted)
    ensures old(c.Aligned()) ==> c.Aligned()
  {
    hide LiveOf, Failing, Kernel.Valid;
    ghost var s := c.table.child[..];
    var i := 0;
    while i < c.table.childNo
      invariant 0 <= i <= c.table.childNo && c.Valid() && c.kernel.accepted == old(c.kernel.accepted)
      invariant forall k :: 0 <= k < i ==>
                  c.table.child[k] == if s[k] != -1 && s[k] in ready && fails(s[k]) then -1 else s[k]
      invariant forall k :: i <= k < MAX_CHILD ==> c.table.child[k] == s[k]
    {
      if c.table.child[i] != -1 {
        if c.table.child[i] in ready {
          if fails(c.table.child[i]) {
            LiveAt(c.table.child[..], i);
            c.kernel.Close(c.table.child[i]);
            c.table.Clear(i);
          }
        }
      }
      i := i + 1;
    }
    ServedTable(s, c.table.child[..], ready, fails);
  }

  /** One pass of the accept loop. */
  method Round(c: Connections, selected: Selected, fails: int -> bool, acceptFails: bool) returns (acc: int)
    requires c.Valid() && (selected.Ready? ==> selected.fds <= {c.kernel.soc} + c.table.Live())
    modifies c.kernel, c.table, c.table.child
    ensures c.Valid() && |c.table.Live()| < MAX_CHILD
    ensures Passed(c.kernel.soc, old(c.table.Live()), selected, fails, acceptFails, acc, c.table.Live())
    ensures c.kernel.accepted == old(c.kernel.accepted) + if acc != -1 then 1 else 0
    ensures c.kernel.lowest && old(c.Aligned()) ==> c.Aligned()
  {
    hide LiveOf, Failing, Admitted, Kernel.Valid, AlignedTo, Passed;
    acc := -1;
    ghost var live := c.table.Live();
    if selected.Ready? {
      NoneAdmitted(live);
      SocketApart(c.kernel);
      if c.kernel.soc in selected.fds {
        acc := c.AcceptOne(acceptFails);
      }
      NewNotReady(live, acc, c.kernel.soc, selected.fds, fails);
      ServeReady(c, selected.fds, fails);
    }
    PassedIs(c.kernel.soc, live, selected, fails, acceptFails, acc, c.table.Live());
    c.table.LiveBound();
  }

  /** The mask, and the count displayed. */
  method Prepare(c: Connections) returns (mask: set<int>, count: nat)
    requires c.Valid()
    ensures mask == {c.kernel.soc} + c.table.Live() && count <= |c.table.Live()|
    ensures c.Aligned() ==> count == |c.table.Live()|
  {
    hide Raises, LiveOf, AlignedTo, Climbing, Kernel.Valid, Table.Valid;
    var width;
    mask, width, count := BuildMask(c);
    DisplayedCount(c);
    if c.Aligned() {
      AlignedCount(c);
    }
  }

  /** One pass from the mask on: select reports on what is asked for. */
  method Pass(c: Connections, says: Selected, fails: int -> bool, acceptFails: bool) returns (count: nat, acc: int)
    requires c.Valid()
    modifies c.kernel, c.table, c.table.child
    ensures c.Valid() && count <= |old(c.table.Live())|
    ensures c.kernel.lowest && old(c.Aligned()) ==> c.Aligned() && count == |old(c.table.Live())|
    ensures Passed(c.kernel.soc, old(c.table.Live()), says, fails, acceptFails, acc, c.table.Live())
    ensures c.kernel.accepted == old(c.kernel.accepted) + if acc != -1 then 1 else 0
  {
    hide LiveOf, AlignedTo, Kernel.Valid, Table.Valid, Passed;
    ghost var live := c.table.Live();
    var mask;
    mask, count := Prepare(c);
    var selected := if says.Ready? then Ready(says.fds * mask) else says;
    acc := Round(c, selected, fails, acceptFails);
    OnlyAsked(c.kernel.soc, live, says, fails, acceptFails, acc, c.table.Live());
  }

  /** Only what is in the mask matters. */
  lemma OnlyAsked(soc: int, live: set<int>, says: Selected, fails: int -> bool, acceptFails: bool,
                  acc: int, next: set<int>)
    requires var selected := if says.Ready? then Ready(says.fds * ({soc} + live)) else says;
             Passed(soc, live, selected, fails, acceptFails, acc, next)
    ensures Passed(soc, live, says, fails, acceptFails, acc, next)
  {
  }

  /** Any number of passes, whatever select reports, whichever exchanges fail and whenever accept
      does: every pass does to the live descriptors what it is meant to. The counts displayed
      never exceed the numbers of live descriptors, and where accept gives the lowest free number
      they are these numbers. */
  method Run(c: Connections, rounds: nat, says: nat -> Selected, fails: nat -> int -> bool, acceptFails: nat -> bool)
    returns (shown: seq<nat>, ghost lives: seq<set<int>>, ghost accs: seq<int>)
    requires c.Valid()
    modifies c.kernel, c.table, c.table.child
    ensures c.Valid() && |c.table.Live()| < MAX_CHILD
    ensures |shown| == |accs| == rounds && PassedAll(c.kernel.soc, lives, says, fails, acceptFails, accs)
    ensures lives[0] == old(c.table.Live()) && lives[rounds] == c.table.Live()
    ensures c.kernel.accepted == old(c.kernel.accepted) + Taken(accs)
    ensures forall r :: 0 <= r < rounds ==> shown[r] <= |lives[r]|
    ensures c.kernel.lowest && old(c.Aligned()) ==>
              c.Aligned() && forall r :: 0 <= r < rounds ==> shown[r] == |lives[r]|
  {
    hide LiveOf, AlignedTo, Kernel.Valid, Table.Valid, Passed, PassedAll, Taken;
    ghost var right := c.kernel.lowest && c.Aligned();
    shown, lives, accs := [], [c.table.Live()], [];
    NoPasses(c.kernel.soc, c.table.Live(), says, fails, acceptFails);
    for r := 0 to rounds
      invariant c.Valid()
      invariant |shown| == |accs| == r && |lives| == r + 1
      invariant PassedAll(c.kernel.soc, lives, says, fails, acceptFails, accs)
      invariant lives[0] == old(c.table.Live()) && lives[r] == c.table.Live()
      invariant c.kernel.accepted == old(c.kernel.accepted) + Taken(accs)
      invariant forall k :: 0 <= k < r ==> shown[k] <= |lives[k]| && (right ==> shown[k] == |lives[k]|)
      invariant right ==> c.kernel.lowest && c.Aligned()
    {
      var count, acc := Pass(c, says(r), fails(r), acceptFails(r));
      PassedMore(c.kernel.soc, lives, says, fails, acceptFails, accs, acc, c.table.Live());
      TakenMore(accs, acc);
      shown, lives, accs := shown + [count], lives + [c.table.Live()], accs + [acc];
    }
    c.table.LiveBound();
  }

  /** The child count displayed is the number of live descriptors exactly when they increase
      from slot to slot, starting above the server socket; otherwise it is too small. */
  lemma DisplayedCount(c: Connections)
    requires c.Valid()
    ensures var s, width := c.table.child[..c.table.childNo], c.kernel.soc + 1;
            && Raises(s, width) <= |c.table.Live()|
            && (Raises(s, width) == |c.table.Live()| <==> Climbing(s, width))
  {
    hide Raises, Entries, Climbing, LiveOf, Kernel.Valid;
    var s := c.table.child[..c.table.childNo];
    assert c.table.child[..][..c.table.childNo] == s;
    CountRightWhenClimbing(s, c.kernel.soc + 1);
    LiveInUse(c.table.child[..], c.table.childNo);
    EntriesAreLive(s);
  }

  lemma {:induction false} AlignedClimbs(s: seq<int>, base: int, width: int)
    requires AlignedTo(s, base) && 0 <= width <= base
    ensures Climbing(s, width)
  {
    if s != [] {
      assert forall i :: 0 <= i < |s| - 1 ==> s[1..][i] == s[i + 1];
      AlignedClimbs(s[1..], base + 1, if s[0] == -1 then width else s[0] + 1);
    }
  }

  lemma AlignedCount(c: Connections)
    requires c.Valid() && c.Aligned()
    ensures Climbing(c.table.child[..c.table.childNo], c.kernel.soc + 1)
  {
    SocketApart(c.kernel);
    assert forall i :: 0 <= i < c.table.childNo ==> c.table.child[..][i] == c.table.child[i];
    AlignedClimbs(c.table.child[..c.table.childNo], c.kernel.soc + 1, c.kernel.soc + 1);
  }

  lemma MaskStep(s: seq<int>, i: nat, n: nat, width: int)
    requires i < n <= |s|
    ensures LiveOf(s[..i + 1]) == LiveOf(s[..i]) + if s[i] != -1 then {s[i]} else {}
    ensures Raises(s[i..n], width)
         == if s[i] != -1 && s[i] + 1 > width then 1 + Raises(s[i + 1..n], s[i] + 1) else Raises(s[i + 1..n], width)
  {
    assert s[..i + 1] == s[..i] + [s[i]];
    assert s[i..n][1..] == s[i + 1..n];
  }

  lemma NoRaises(s: seq<int>, n: nat, width: int)
    requires n <= |s|
    ensures Raises(s[n..n], width) == 0 && LiveOf(s[..0]) == {}
  {
  }
}
