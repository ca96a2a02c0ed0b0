/** The kernel's side of a connection server: accepted descriptors and what became of them. */
module Sockets {

  const MAX_CHILD: nat := 20

  /** Open descriptors with the connection behind each; connections are numbered in the order
      of accept. */
  class Kernel {
    const soc: int
    const lowest: bool  // accept gives the lowest number that is free, as POSIX demands; none below soc is
    var open: map<int, nat>
    var accepted: nat
    var closed: seq<nat>

    constructor (soc: int, lowest: bool)
      requires soc >= 0
      ensures Valid() && open == map[] && closed == [] && accepted == 0 && this.soc == soc && this.lowest == lowest
    {
      this.soc, this.lowest, open, accepted, closed := soc, lowest, map[], 0, [];
    }

    /** Every connection ever accepted is open on exactly one descriptor or has been closed
        exactly once. */
    ghost predicate Valid()
      reads this
    {
      && soc >= 0 && (forall fd :: fd in open ==> fd >= 0 && fd != soc)
      && Distinguished(open, accepted, closed) && Accounted(open, accepted, closed)
    }

    /** accept: an error, which its caller cannot foresee, or a descriptor number not in use. */
    method Accept(fails: bool) returns (acc: int)
      requires Valid()
      modifies this
      ensures Valid() && closed == old(closed)
      ensures acc == -1 <==> fails
      ensures acc >= -1 && acc != soc && acc !in old(open.Keys)
      ensures lowest && acc != -1 ==> LowestFree(soc, old(open.Keys), acc)
      ensures acc == -1 ==> open == old(open)
      ensures acc != -1 ==> Opened(old(open), open, acc, old(accepted)) && open.Keys == old(open.Keys) + {acc}
      ensures accepted == old(accepted) + if acc == -1 then 0 else 1
    {
      if fails {
        return -1;
      }
      acc := FreeNumber();
      OpenKeeps(open, accepted, closed, acc);
      open := open[acc := accepted];
      accepted := accepted + 1;
    }

    /** Some number that is not in use. */
    method FreeNumber() returns (fd: int)
      requires Valid()
      ensures fd >= 0 && fd != soc && fd !in open
      ensures lowest ==> LowestFree(soc, open.Keys, fd)
    {
      var used := open.Keys + {soc};
      if lowest {
        ghost var top := Above(used);
        fd := soc + 1;
        while fd in open
          invariant soc < fd <= top && forall n :: soc < n < fd ==> n in open
          decreases top - fd
        {
          fd := fd + 1;
        }
      } else {
        Unused(used);
        fd :| fd >= 0 && fd !in used;
      }
    }

    /** close: only what is open, so nothing is closed twice. */
    method Close(fd: int)
      requires Valid() && fd in open
      modifies this
      ensures Valid() && Closed(old(open), open, fd) && closed == old(closed) + [old(open)[fd]]
      ensures open.Keys == old(open.Keys) - {fd}
      ensures accepted == old(accepted)
    {
      CloseKeeps(open, accepted, closed, fd);
      closed := closed + [open[fd]];
      open := open - {fd};
    }
  }

  /** The lowest number above the server socket that is not in use. */
  predicate LowestFree(soc: int, used: set<int>, fd: int) {
    soc < fd && fd !in used && forall n :: soc < n < fd ==> n in used
  }

  predicate Opened(was: map<int, nat>, now: map<int, nat>, fd: int, id: nat) {
    now == was[fd := id]
  }

  predicate Closed(was: map<int, nat>, now: map<int, nat>, fd: int) {
    fd in was && now == was - {fd}
  }

  /** No connection is open twice, closed twice, or both. */
  predicate Distinguished(open: map<int, nat>, accepted: nat, closed: seq<nat>) {
    && (forall fd :: fd in open ==> open[fd] < accepted && open[fd] !in closed)
    && (forall a, b :: a in open && b in open && a != b ==> open[a] != open[b])
    && (forall i, j :: 0 <= i < j < |closed| ==> closed[i] != closed[j])
    && (forall i :: 0 <= i < |closed| ==> closed[i] < accepted)
  }

  /** No accepted connection is lost. */
  ghost predicate Accounted(open: map<int, nat>, accepted: nat, closed: seq<nat>) {
    forall id: nat :: id < accepted ==> id in closed || exists fd :: fd in open && open[fd] == id
  }

  lemma OpenKeeps(open: map<int, nat>, accepted: nat, closed: seq<nat>, fd: int)
    requires Distinguished(open, accepted, closed) && Accounted(open, accepted, closed) && fd !in open
    ensures Distinguished(open[fd := accepted], accepted + 1, closed)
    ensures Accounted(open[fd := accepted], accepted + 1, closed)
  {
    var now := open[fd := accepted];
    assert now[fd] == accepted;
    forall id: nat | id < accepted + 1 ensures id in closed || exists f :: f in now && now[f] == id {
      if id < accepted && id !in closed {
        var f :| f in open && open[f] == id;
        assert f in now && now[f] == id;
      }
    }
  }

  lemma CloseKeeps(open: map<int, nat>, accepted: nat, closed: seq<nat>, fd: int)
    requires Distinguished(open, accepted, closed) && Accounted(open, accepted, closed) && fd in open
    ensures Distinguished(open - {fd}, accepted, closed + [open[fd]])
    ensures Accounted(open - {fd}, accepted, closed + [open[fd]])
  {
    var now, gone := open - {fd}, closed + [open[fd]];
    assert gone[|closed|] == open[fd];
    forall id: nat | id < accepted ensures id in gone || exists f :: f in now && now[f] == id {
      if id in closed {
        var i :| 0 <= i < |closed| && closed[i] == id;
        assert gone[i] == id;
      } else {
        var f :| f in open && open[f] == id;
        if f != fd {
          assert f in now && now[f] == id;
        }
      }
    }
  }

  /** How many of the calls of accept delivered a connection. */
  function Taken(accs: seq<int>): (n: nat) {
    if accs == [] then 0 else Taken(accs[..|accs| - 1]) + if accs[|accs| - 1] != -1 then 1 else 0
  }

  lemma TakenMore(accs: seq<int>, acc: int)
    ensures Taken(accs + [acc]) == Taken(accs) + if acc != -1 then 1 else 0
  {
    assert (accs + [acc])[..|accs|] == accs;
  }

  /** The accepted descriptor is taken in while fewer than MAX_CHILD - 1 are live. */
  function Admitted(live: set<int>, acc: int): (r: set<int>) {
    if acc != -1 && |live| < MAX_CHILD - 1 then {acc} else {}
  }

  /** What admission does to the live descriptors, and what closing a refused one undoes. */
  lemma AdmittedSet(live: set<int>, acc: int)
    requires acc !in live
    ensures acc == -1 || |live| >= MAX_CHILD - 1 ==> live + Admitted(live, acc) == live
    ensures acc != -1 && |live| < MAX_CHILD - 1 ==> live + Admitted(live, acc) == live + {acc}
    ensures live + {acc} - {acc} == live && |live + {acc}| == |live| + 1
  {
  }

  lemma {:induction false} Unused(used: set<int>)
    ensures exists fd :: fd >= 0 && fd !in used
  {
    var n := Above(used);
    assert n !in used;
  }

  lemma {:induction false} Above(used: set<int>) returns (n: int)
    ensures n >= 0 && forall x :: x in used ==> x < n
    decreases |used|
  {
    if x :| x in used {
      var m := Above(used - {x});
      n := if x < m then m else x + 1;
      forall y | y in used ensures y < n {
        assert y == x || y in used - {x};
      }
    } else {
      n := 0;
    }
  }

  /** A list without repetitions has as many elements as positions. */
  predicate Distinct(s: seq<int>) {
    forall i, j :: 0 <= i < j < |s| ==> s[i] != s[j]
  }

  lemma {:induction false} DistinctSize(s: seq<int>, elements: set<int>)
    requires Distinct(s) && forall x :: x in elements <==> x in s
    ensures |elements| == |s|
    decreases |s|
  {
    if s != [] {
      var l, last := |s| - 1, s[|s| - 1];
      assert s == s[..l] + [last];
      DistinctSize(s[..l], elements - {last});
    } else {
      assert forall x :: x in elements ==> x in s;
      assert elements == {};
    }
  }
}
