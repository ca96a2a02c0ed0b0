/** The memory behind a ring of server9.c: `struct queue` with its slots, and the statements of
    both threads as they change it in place. Each method is one or more steps of the step
    system; its contract says which. */
module SendQueueMemory {
  import opened CStrings
  import opened SendQueue
  import Echo

  class Cell {
    var acc: int
    const buf: array<byte>
    var len: int

    constructor ()
      ensures Value() == EMPTY_SLOT
      ensures fresh(buf)
    {
      acc, len := 0, 0;
      buf := new byte[Echo.BUFSZ](_ => NUL);
    }

    function Value(): (r: Slot)
      reads this, buf
    {
      Slot(acc, buf[..], len)
    }
  }

  class Queue {
    var front: nat
    var last: nat
    const data: seq<Cell>

    constructor ()
      ensures Valid() && Ring(Free, Start) == EMPTY_LANE
    {
      front, last := 0, 0;
      var cells: seq<Cell> := [];
      while |cells| < MAXQUEUESZ
        invariant |cells| <= MAXQUEUESZ
        invariant forall i :: 0 <= i < |cells| ==>
                    fresh(cells[i]) && fresh(cells[i].buf) && cells[i].Value() == EMPTY_SLOT
        invariant forall i, j :: 0 <= i < j < |cells| ==> cells[i] != cells[j] && cells[i].buf != cells[j].buf
        decreases MAXQUEUESZ - |cells|
      {
        var c := new Cell();
        cells := cells + [c];
      }
      data := cells;
    }

    /** The slots are separate pieces of memory of the declared size. */
    ghost predicate Valid()
      reads this
    {
      && front < MAXQUEUESZ && last < MAXQUEUESZ && |data| == MAXQUEUESZ
      && (forall i :: 0 <= i < |data| ==> data[i].buf.Length == Echo.BUFSZ)
      && (forall i, j :: 0 <= i < j < |data| ==> data[i] != data[j] && data[i].buf != data[j].buf)
    }

    ghost function Cells(): (r: set<object>) {
      set i | 0 <= i < |data| :: data[i]
    }

    ghost function Bufs(): (r: set<object>) {
      set i | 0 <= i < |data| :: data[i].buf
    }

    ghost function Slots(): (r: seq<Slot>)
      reads this, Cells(), Bufs()
      ensures |r| == |data| && forall i :: 0 <= i < |r| ==> r[i] == data[i].Value()
    {
      seq(|data|, i requires 0 <= i < |data| reads Cells(), Bufs() => data[i].Value())
    }

    /** The ring as the step system sees it, for given owner and sender positions. */
    ghost function Ring(owner: Owner, sender: Sender): (l: Lane)
      reads this, Cells(), Bufs()
    {
      Lane(front, last, Slots(), owner, sender)
    }

    /** Storing into a slot leaves every other slot as it was. */
    twostate lemma OnlySlot(i: nat)
      requires old(Valid()) && Valid() && i < |data|
      requires forall c :: c in Cells() && c != data[i] ==> unchanged(c)
      requires forall b :: b in Bufs() && b != data[i].buf ==> unchanged(b)
      ensures Slots() == old(Slots())[i := data[i].Value()]
    {
      forall k | 0 <= k < |data| && k != i ensures Slots()[k] == old(Slots()[k]) {
        assert data[k] in Cells() && data[k].buf in Bufs();
      }
    }

    /** Receiver: `acc` of data[last], before recv. */
    method SetAcc(fd: nat, ghost v: Sender)
      requires Valid()
      modifies data[last]
      ensures Valid()
      ensures Ring(Free, v) == old(Ring(Free, v)).(
                data := old(Slots())[last := old(Slots()[last]).(acc := fd)])
    {
      data[last].acc := fd;
      OnlySlot(last);
    }

    /** Receiver: recv has stored `text` and its length. */
    method StoreText(text: seq<byte>)
      requires Valid() && 1 <= |text| < Echo.BUFSZ
      modifies data[last], data[last].buf
      ensures Valid() && front == old(front) && last == old(last)
      ensures Slots() == old(Slots())[last := FillSlot(old(Slots()[last]), text)]
    {
      var c := data[last];
      ghost var was := c.buf[..];
      forall k | 0 <= k < |text| { c.buf[k] := text[k]; }
      c.len := |text|;
      assert c.buf[..] == text + was[|text|..];
      OnlySlot(last);
    }

    /** Receiver, holding the mutex. */
    method Publish()
      requires Valid()
      modifies this`last
      ensures Valid() && front == old(front) && Slots() == old(Slots())
      ensures last == QueueNext(old(last))
    {
      last := (last + 1) % MAXQUEUESZ;
    }

    /** Sender, holding the mutex: the index taken, or -1 when it has to wait. */
    method Take() returns (i: int)
      requires Valid()
      modifies this`front
      ensures Valid()
      ensures i == -1 <==> old(front) == last
      ensures i != -1 ==> i == old(front)
      ensures Ring(if i == -1 then Free else BySender, if i == -1 then Parked else Working(i, Taken))
              == SenderStep(old(Ring(BySender, Testing)), Test)
    {
      if last != front {
        i := front;
        front := (front + 1) % MAXQUEUESZ;
      } else {
        i := -1;
      }
    }

    /** Sender, without the mutex: terminate, cut, append, measure. */
    method Prepare(i: nat)
      requires Valid() && i < MAXQUEUESZ && 0 <= data[i].len < Echo.BUFSZ
      modifies data[i], data[i].buf
      ensures Valid() && front == old(front) && last == old(last)
      ensures Slots() == old(Slots())[i := MeasureSlot(AppendSlot(CutSlot(EndSlot(old(Slots()[i])))))]
    {
      var c := data[i];
      ghost var x := c.Value();
      c.buf[c.len] := NUL;
      assert c.Value() == EndSlot(x);
      assert c.buf[..][c.len] == NUL;
      CutBuffer(c.buf);
      assert c.Value() == CutSlot(EndSlot(x));
      AppendSuffix(c.buf);
      assert c.Value() == AppendSlot(CutSlot(EndSlot(x)));
      c.len := StrLen(c.buf);
      OnlySlot(i);
    }
  }

  method CutBuffer(buf: array<byte>)
    requires buf.Length == Echo.BUFSZ && NUL in buf[..]
    modifies buf
    ensures NUL in buf[..]
    ensures forall acc, len :: Slot(acc, buf[..], len) == CutSlot(Slot(acc, old(buf[..]), len))
  {
    ghost var was := buf[..];
    Terminated(was);
    var ptr := StrPBrk(buf);
    if ptr != -1 {
      buf[ptr] := NUL;
      assert buf[..] == was[ptr := NUL];
      assert buf[..][ptr] == NUL;
      assert CutLine(was) == was[..ptr];
    }
  }

  method AppendSuffix(buf: array<byte>)
    requires buf.Length == Echo.BUFSZ && NUL in buf[..]
    modifies buf
    ensures buf[..] == LCat(old(buf[..]), OK_SUFFIX) && NUL in buf[..]
  {
    ghost var was := buf[..];
    Terminated(was);
    assert buf[..Echo.BUFSZ] == was;
    Echo.SuffixIsString();
    var _ := StrLCat(buf, Echo.SUFFIX_Z, Echo.BUFSZ);
    assert buf[..Echo.BUFSZ] == buf[..];
    LCatString(was, OK_SUFFIX);
    Terminated(buf[..]);
  }
}
