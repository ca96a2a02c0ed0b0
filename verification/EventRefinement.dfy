/** The event-driven reader of chapter06/oneline1.c against the blocking loop of
    chapter06/oneline.c: what it makes of every stream, for which streams the two answer
    alike, and whole servers of successive connections. */
module EventRefinement {
  import opened CStrings
  import opened LineFraming
  import opened EventFraming

  /** A stream received byte by byte. */
  function Gots(s: seq<byte>): (h: seq<Turn>)
    ensures |h| == |s| && forall i :: 0 <= i < |s| ==> h[i] == Turn(Got(s[i]), true)
  {
    seq(|s|, i requires 0 <= i < |s| => Turn(Got(s[i]), true))
  }

  function Sents(rs: seq<seq<byte>>): (a: seq<Act>)
    ensures |a| == |rs| && forall i :: 0 <= i < |rs| ==> a[i] == Sent(rs[i])
  {
    seq(|rs|, i requires 0 <= i < |rs| => Sent(rs[i]))
  }

  const CLOSING: Turn := Turn(AtEnd, true)

  /** The frame a stream leaves unfinished. */
  function Tail(s: seq<byte>): (t: seq<byte>)
    decreases |s|
  {
    if s == [] then []
    else if Complete(Frame(s, FRAME_MAX), FRAME_MAX) then Tail(s[|Frame(s, FRAME_MAX)|..])
    else Frame(s, FRAME_MAX)
  }

  /** The stream without the NULs found where a frame is about to start. */
  function Stripped(s: seq<byte>): (d: seq<byte>)
    ensures |d| <= |s|
    decreases |s|
  {
    if s == [] then []
    else if s[0] == NUL then Stripped(s[1..])
    else Frame(s, FRAME_MAX) + Stripped(s[|Frame(s, FRAME_MAX)|..])
  }

  /** No frame starts with a NUL; a stream without NUL bytes is one example. */
  predicate NoNulStart(s: seq<byte>)
    decreases |s|
  {
    s == [] || (s[0] != NUL && NoNulStart(s[|Frame(s, FRAME_MAX)|..]))
  }

  lemma {:induction false} NulFree(s: seq<byte>)
    requires NUL !in s
    ensures NoNulStart(s)
    decreases |s|
  {
    if s != [] {
      NulFree(s[|Frame(s, FRAME_MAX)|..]);
    }
  }

  /** Nothing is taken away exactly where no frame starts with a NUL. */
  lemma {:induction false} NothingStripped(s: seq<byte>)
    ensures Stripped(s) == s <==> NoNulStart(s)
    decreases |s|
  {
    if s != [] && s[0] != NUL {
      var f, rest := Frame(s, FRAME_MAX), s[|Frame(s, FRAME_MAX)|..];
      NothingStripped(rest);
      assert s == f + rest && (f + Stripped(rest))[|f|..] == Stripped(rest);
    }
  }

  // ---- Byte by byte and frame by frame ----

  /** A frame in the making: no LF yet, not full, not starting with a NUL. */
  predicate Open(p: seq<byte>) {
    |p| < FRAME_MAX && LF !in p && (p != [] ==> p[0] != NUL)
  }

  /** The first frame of a stream that starts with it. */
  lemma FirstFrame(q: seq<byte>, s: seq<byte>)
    requires Complete(q, FRAME_MAX) && |q| <= FRAME_MAX && forall k :: 0 <= k < |q| - 1 ==> q[k] != LF
    ensures Frame(q + s, FRAME_MAX) == q && (q + s)[|q|..] == s
    ensures BlockReplies(q + s, Broken) == [FrameReply(q)] + BlockReplies(s, Broken)
    ensures Tail(q + s) == Tail(s)
    ensures q[0] != NUL ==> Stripped(q + s) == q + Stripped(s)
  {
    hide FrameReply;
    FrameIs(q + s, FRAME_MAX, |q|);
    assert (q + s)[0] == q[0];
  }

  lemma OpenIsTail(p: seq<byte>)
    requires |p| < FRAME_MAX && LF !in p
    ensures Tail(p) == p && BlockReplies(p, Broken) == []
    ensures p != [] ==> Frame(p, FRAME_MAX) == p && !Complete(p, FRAME_MAX)
    ensures (p != [] ==> p[0] != NUL) ==> Stripped(p) == p
  {
    hide FrameReply;
    FrameIs(p, FRAME_MAX, |p|);
  }

  // The bytes last received at each position, frame by frame.

  /** A frame laid over the front. */
  function Over(m: seq<byte>, f: seq<byte>): (n: seq<byte>)
    ensures |n| == |m|
  {
    if |f| <= |m| then f + m[|f|..] else f[..|m|]
  }

  function Lay(m: seq<byte>, fs: seq<seq<byte>>): (n: seq<byte>)
    ensures |n| == |m|
    decreases |fs|
  {
    if fs == [] then m else Lay(Over(m, fs[0]), fs[1..])
  }

  function Laid(m: seq<byte>, s: seq<byte>): (n: seq<byte>)
    ensures |n| == |m|
  {
    Lay(m, Frames(s, FRAME_MAX))
  }

  lemma {:induction false} LayMore(m: seq<byte>, fs: seq<seq<byte>>, gs: seq<seq<byte>>)
    ensures Lay(m, fs + gs) == Lay(Lay(m, fs), gs)
    decreases |fs|
  {
    if fs == [] {
      assert fs + gs == gs;
    } else {
      assert (fs + gs)[1..] == fs[1..] + gs;
      LayMore(Over(m, fs[0]), fs[1..], gs);
    }
  }

  /** The byte at a position is that of the last frame that reached it. */
  lemma {:induction false} LayAt(m: seq<byte>, fs: seq<seq<byte>>, k: nat)
    requires k < |m|
    ensures (forall i :: 0 <= i < |fs| ==> |fs[i]| <= k) ==> Lay(m, fs)[k] == m[k]
    ensures forall i :: 0 <= i < |fs| && |fs[i]| > k && (forall j :: i < j < |fs| ==> |fs[j]| <= k) ==>
              Lay(m, fs)[k] == fs[i][k]
    decreases |fs|
  {
    if fs != [] {
      var n := Over(m, fs[0]);
      var rest := fs[1..];
      LayAt(n, rest, k);
      assert forall i :: 0 <= i < |rest| ==> rest[i] == fs[i + 1];
      forall i | 0 <= i < |fs| && |fs[i]| > k && (forall j :: i < j < |fs| ==> |fs[j]| <= k)
        ensures Lay(m, fs)[k] == fs[i][k]
      {
        if i > 0 {
          assert rest[i - 1] == fs[i];
        }
      }
    }
  }

  lemma LaidMore(m: seq<byte>, q: seq<byte>, s: seq<byte>)
    requires Complete(q, FRAME_MAX) && |q| <= FRAME_MAX && forall k :: 0 <= k < |q| - 1 ==> q[k] != LF
    ensures Laid(m, q + s) == Laid(Over(m, q), s)
  {
    FirstFrame(q, s);
  }

  lemma LaidOpen(m: seq<byte>, p: seq<byte>)
    requires |p| < FRAME_MAX && LF !in p
    ensures Laid(m, p) == Over(m, p)
  {
    if p == [] {
      assert Over(m, p) == m;
    } else {
      OpenIsTail(p);
      assert p[|p|..] == [];
      assert Frames(p, FRAME_MAX) == [p] && [p][1..] == [];
      assert Lay(m, [p]) == Lay(Over(m, p), []);
    }
  }

  /** Where a stream leaves the memory and the frame in the making. */
  lemma {:induction false} LaidFits(m: seq<byte>, s: seq<byte>)
    requires |m| == FIXED_BUFFER_SIZE
    ensures Fits(Laid(m, s), Tail(s))
    decreases |s|
  {
    if s != [] {
      hide Frame, Laid, Complete, Tail, BlockReplies, FrameReply, Stripped;
      SplitFrame(s);
      var f := Frame(s, FRAME_MAX);
      if Complete(f, FRAME_MAX) {
        FirstFrame(f, s[|f|..]);
        LaidMore(m, f, s[|f|..]);
        LaidFits(Over(m, f), s[|f|..]);
      } else {
        LaidOpen(m, s);
        OpenIsTail(s);
      }
    }
  }

  lemma OneByteMore(m: seq<byte>, p: seq<byte>, s: seq<byte>)
    requires Open(p) && s != []
    ensures var q, d := p + [s[0]], Stripped(p + s);
            if Complete(q, FRAME_MAX) then
              && d == q + Stripped(s[1..])
              && BlockReplies(d, Broken) == [FrameReply(q)] + BlockReplies(Stripped(s[1..]), Broken)
              && Tail(d) == Tail(Stripped(s[1..]))
              && Laid(m, d) == Laid(Over(m, q), Stripped(s[1..]))
            else Open(Kept(q)) && d == Stripped(Kept(q) + s[1..])
  {
    hide Frame, FrameReply, BlockReplies, Tail, Laid;
    var q := p + [s[0]];
    assert p + s == q + s[1..];
    if Complete(q, FRAME_MAX) {
      assert q[0] != NUL;
      FirstFrame(q, s[1..]);
      FirstFrame(q, Stripped(s[1..]));
      LaidMore(m, q, Stripped(s[1..]));
    } else if q == [NUL] {
      assert [] + s == s && [] + s[1..] == s[1..] && p == [];
    }
  }

  /** The memory behind one more byte of a frame. */
  function PutNext(m: seq<byte>, q: seq<byte>): (n: seq<byte>) {
    if q == [NUL] then m else Over(m, q)
  }

  lemma PutOver(m: seq<byte>, p: seq<byte>, c: byte)
    requires Fits(m, p)
    ensures |p| < |m| && Put(m, p, Got(c)) == PutNext(m, p + [c])
    ensures Complete(p + [c], FRAME_MAX) ==> p + [c] != [NUL]
  {
    assert m[|p| := c] == Over(m, p + [c]);
  }

  lemma NextGot(m: seq<byte>, p: seq<byte>, s: seq<byte>, h: seq<Turn>)
    requires Fits(m, p) && s != []
    ensures var q := p + [s[0]];
            var n := PutNext(m, q);
            if Complete(q, FRAME_MAX) then
              n == Over(m, q) && Fits(n, [])
              && Expected(m, p, Gots(s) + h) == [Sent(FrameReply(q))] + Expected(n, [], Gots(s[1..]) + h)
            else
              Fits(n, Kept(q)) && Expected(m, p, Gots(s) + h) == Expected(n, Kept(q), Gots(s[1..]) + h)
  {
    hide FrameReply, Fits, Complete, Over;
    var c := s[0];
    FitsOn(m, p, Got(c));
    PutOver(m, p, c);
    assert (Gots(s) + h)[1..] == Gots(s[1..]) + h && (Gots(s) + h)[0] == Turn(Got(c), true);
  }

  lemma NoGots(h: seq<Turn>)
    ensures Gots([]) + h == h
  {
  }

  lemma SentsMore(x: seq<byte>, a: seq<seq<byte>>, b: seq<Act>)
    ensures [Sent(x)] + (Sents(a) + b) == Sents([x] + a) + b
  {
  }

  /** The first frame does not end inside a frame in the making. */
  lemma NotBefore(q: seq<byte>, s: seq<byte>)
    requires Open(q)
    ensures |Frame(q + s, FRAME_MAX)| >= |q|
  {
    var t := q + s;
    var n := FrameLength(t, FRAME_MAX);
    assert forall k :: 0 <= k < |q| ==> t[k] == q[k];
  }

  /** Laying a frame over its own beginning. */
  lemma LaidAgain(m: seq<byte>, q: seq<byte>, s: seq<byte>)
    requires Open(q) && q != []
    ensures PutNext(m, q) == Over(m, q) && Kept(q) == q
    ensures Laid(Over(m, q), Stripped(q + s)) == Laid(m, Stripped(q + s))
  {
    hide Laid, BlockReplies, FrameReply, Tail, Over, Frame, Complete;
    var t := q + s;
    var f := Frame(t, FRAME_MAX);
    SplitFrame(t);
    NotBefore(q, s);
    var rest := t[|f|..];
    OverOver(m, q, f);
    if Complete(f, FRAME_MAX) {
      FirstFrame(f, rest);
      LaidMore(m, f, Stripped(rest));
      LaidMore(Over(m, q), f, Stripped(rest));
    } else {
      OpenIsTail(t);
      LaidOpen(m, t);
      LaidOpen(Over(m, q), t);
    }
  }

  lemma OverPrefix(m: seq<byte>, p: seq<byte>)
    requires Fits(m, p)
    ensures Over(m, p) == m
  {
  }

  /** For every stream and whatever was received before: one byte per event gives the replies
      of the blocking loop to the stream without the NULs at the starts of frames; it leaves
      the same frame unfinished, and the bytes of the frames laid over those before. */
  lemma {:induction false} BytewiseIsFramewise(m: seq<byte>, p: seq<byte>, s: seq<byte>, h: seq<Turn>)
    requires Open(p) && Fits(m, p)
    ensures var d := Stripped(p + s);
            && Fits(Laid(m, d), Tail(d))
            && Expected(m, p, Gots(s) + h) == Sents(BlockReplies(d, Broken)) + Expected(Laid(m, d), Tail(d), h)
    decreases |s|
  {
    hide Expected, BlockReplies, Tail, Frame, FrameReply, Complete, Stripped, Gots, Kept, Laid, Over, PutNext;
    LaidFits(m, Stripped(p + s));
    if s == [] {
      assert p + s == p;
      NoGots(h);
      OpenIsTail(p);
      LaidOpen(m, p);
      OverPrefix(m, p);
      assert Sents([]) + Expected(m, p, h) == Expected(m, p, h);
    } else {
      var q := p + [s[0]];
      var n := PutNext(m, q);
      OneByteMore(m, p, s);
      NextGot(m, p, s, h);
      if Complete(q, FRAME_MAX) {
        assert [] + s[1..] == s[1..];
        var d := Stripped(s[1..]);
        BytewiseIsFramewise(n, [], s[1..], h);
        SentsMore(FrameReply(q), BlockReplies(d, Broken), Expected(Laid(n, d), Tail(d), h));
      } else {
        BytewiseIsFramewise(n, Kept(q), s[1..], h);
        NextLaid(m, p, s);
      }
    }
  }

  lemma NextLaid(m: seq<byte>, p: seq<byte>, s: seq<byte>)
    requires Open(p) && s != [] && !Complete(p + [s[0]], FRAME_MAX)
    ensures var q := p + [s[0]];
            var d := Stripped(Kept(q) + s[1..]);
            Laid(PutNext(m, q), d) == Laid(m, d)
  {
    var q := p + [s[0]];
    if q != [NUL] {
      LaidAgain(m, q, s[1..]);
    }
  }

  /** A stream of whole frames is answered the same whether the peer then closes or not. */
  lemma {:induction false} WholeStream(s: seq<byte>)
    requires Tail(s) == []
    ensures BlockReplies(s, Broken) == BlockReplies(s, Closed)
    decreases |s|
  {
    if s != [] {
      WholeStream(s[|Frame(s, FRAME_MAX)|..]);
    }
  }

  // ---- Where the two programs answer alike ----

  /** What is left of a frame behind the NULs at its start. */
  function Behind(f: seq<byte>): (g: seq<byte>)
    ensures |g| <= |f| && (g != [] ==> g[0] != NUL)
  {
    if f != [] && f[0] == NUL then Behind(f[1..]) else f
  }

  /** The text of a frame that starts with a NUL is empty behind these NULs as well. */
  predicate BlankBehind(f: seq<byte>) {
    Behind(f) != [] && Behind(f)[0] in {CR, LF}
  }

  /** Every whole frame that starts with a NUL ends in LF. */
  predicate NulFramesEnd(s: seq<byte>)
    decreases |s|
  {
    var f := Frame(s, FRAME_MAX);
    s == [] || ((Complete(f, FRAME_MAX) && f[0] == NUL ==> f[|f| - 1] == LF) && NulFramesEnd(s[|f|..]))
  }

  /** Every whole frame that starts with a NUL is blank behind its NULs. */
  predicate NulFramesBlank(s: seq<byte>)
    decreases |s|
  {
    var f := Frame(s, FRAME_MAX);
    s == [] || ((Complete(f, FRAME_MAX) && f[0] == NUL ==> BlankBehind(f)) && NulFramesBlank(s[|f|..]))
  }

  /** The first whole frame that starts with a NUL, if any, is blank behind its NULs. */
  predicate FirstNulBlank(s: seq<byte>)
    decreases |s|
  {
    var f := Frame(s, FRAME_MAX);
    s == [] || (Complete(f, FRAME_MAX) ==> if f[0] == NUL then BlankBehind(f) else FirstNulBlank(s[|f|..]))
  }

  /** NULs at the start of the stream are dropped. */
  lemma {:induction false} StripNuls(f: seq<byte>, r: seq<byte>)
    ensures Stripped(f + r) == Stripped(Behind(f) + r)
  {
    if f != [] && f[0] == NUL {
      assert (f + r)[1..] == f[1..] + r;
      StripNuls(f[1..], r);
    }
  }

  /** A frame ending in LF keeps that end. */
  lemma {:induction false} BehindEnds(f: seq<byte>)
    requires f != [] && f[|f| - 1] == LF && forall k :: 0 <= k < |f| - 1 ==> f[k] != LF
    ensures var g := Behind(f); g != [] && g[|g| - 1] == LF && forall k :: 0 <= k < |g| - 1 ==> g[k] != LF
  {
    if f[0] == NUL {
      BehindEnds(f[1..]);
    }
  }

  lemma {:induction false} BehindFree(f: seq<byte>)
    requires LF !in f
    ensures LF !in Behind(f)
  {
    if f != [] && f[0] == NUL {
      BehindFree(f[1..]);
    }
  }

  lemma NulReply(f: seq<byte>)
    requires f != []
    ensures FrameReply(f) == OK_SUFFIX <==> f[0] in {NUL, CR, LF}
  {
    if f[0] in {NUL, CR, LF} {
      UntilIs(f, {NUL, CR, LF}, 0);
    } else {
      UntilAtLeast(f, {NUL, CR, LF}, 1);
      assert |FrameReply(f)| > |OK_SUFFIX|;
    }
  }

  lemma SplitFrame(s: seq<byte>)
    requires s != []
    ensures var f := Frame(s, FRAME_MAX);
            && 0 < |f| <= FRAME_MAX && s == f + s[|f|..] && f[0] == s[0]
            && (forall k :: 0 <= k < |f| - 1 ==> f[k] != LF)
            && (!Complete(f, FRAME_MAX) ==> f == s && |s| < FRAME_MAX && LF !in s)
  {
    var f := Frame(s, FRAME_MAX);
    assert forall k :: 0 <= k < |f| ==> f[k] == s[k];
    assert s == f + s[|f|..];
  }

  /** An unfinished frame stays unfinished without its NULs. */
  lemma StripOpen(s: seq<byte>)
    requires |s| < FRAME_MAX && LF !in s
    ensures BlockReplies(Stripped(s), Broken) == [] && Tail(Stripped(s)) == Behind(s)
  {
    assert s + [] == s && Behind(s) + [] == Behind(s);
    StripNuls(s, []);
    BehindFree(s);
    OpenIsTail(Behind(s));
  }

  /** Where frames that start with NUL end in LF, the streams with and without those NULs are
      answered alike exactly when each such frame is blank behind its NULs. */
  lemma {:induction false} StrippedAlike(s: seq<byte>)
    requires NulFramesEnd(s)
    ensures BlockReplies(Stripped(s), Broken) == BlockReplies(s, Broken) <==> NulFramesBlank(s)
    ensures Tail(s) == [] ==> Tail(Stripped(s)) == []
    decreases |s|
  {
    if s != [] {
      hide Frame, FrameReply, Stripped, BlockReplies, Complete, Tail, Behind;
      var f := Frame(s, FRAME_MAX);
      SplitFrame(s);
      var rest := s[|f|..];
      if !Complete(f, FRAME_MAX) {
        StripOpen(s);
        OpenIsTail(s);
        assert NulFramesBlank(rest);
      } else {
        StrippedAlike(rest);
        FirstFrame(f, rest);
        var g := f;
        if f[0] == NUL {
          EndsInLF(f);
          g := Behind(f);
          StripNuls(f, rest);
          FirstFrame(g, rest);
        }
        FirstFrame(g, Stripped(rest));
        NulReply(f);
        NulReply(g);
        SameHead(FrameReply(f), FrameReply(g), BlockReplies(rest, Broken), BlockReplies(Stripped(rest), Broken));
      }
    }
  }

  lemma EndsInLF(f: seq<byte>)
    requires Complete(f, FRAME_MAX) && f[|f| - 1] == LF
    requires |f| <= FRAME_MAX && forall k :: 0 <= k < |f| - 1 ==> f[k] != LF
    ensures var g := Behind(f);
            Complete(g, FRAME_MAX) && |g| <= FRAME_MAX && g[0] != NUL && forall k :: 0 <= k < |g| - 1 ==> g[k] != LF
  {
    BehindEnds(f);
  }

  lemma SameHead(x: seq<byte>, y: seq<byte>, a: seq<seq<byte>>, b: seq<seq<byte>>)
    ensures [y] + b == [x] + a <==> x == y && a == b
  {
    if [y] + b == [x] + a {
      assert ([y] + b)[0] == ([x] + a)[0] && ([y] + b)[1..] == ([x] + a)[1..];
    }
  }

  lemma SentsSame(a: seq<seq<byte>>, b: seq<seq<byte>>)
    ensures Sents(a) == Sents(b) <==> a == b
  {
    if Sents(a) == Sents(b) {
      assert forall i :: 0 <= i < |a| ==> Sents(a)[i] == Sents(b)[i];
    }
  }

  /** What the event-driven program has sent when the stream has arrived. */
  lemma EventReplies(m: seq<byte>, s: seq<byte>)
    requires |m| == FIXED_BUFFER_SIZE
    ensures Expected(m, [], Gots(s)) == Sents(BlockReplies(Stripped(s), Broken))
    ensures Tail(Stripped(s)) == [] ==>
              Expected(m, [], Gots(s) + [CLOSING]) == Sents(BlockReplies(Stripped(s), Broken)) + [Shut]
  {
    hide Stripped, BlockReplies, Tail;
    assert [] + s == s;
    assert Gots(s) + [] == Gots(s);
    var a := Sents(BlockReplies(Stripped(s), Broken));
    BytewiseIsFramewise(m, [], s, []);
    assert a + [] == a;
    BytewiseIsFramewise(m, [], s, [CLOSING]);
    assert [CLOSING][1..] == [];
  }

  /** The exact condition. Where the frames that start with NUL end in LF, the two programs
      answer alike, at every moment and when the peer closes, if and only if each such frame
      has a CR or LF as its first byte behind the NULs. */
  lemma AnswersAlike(m: seq<byte>, s: seq<byte>)
    requires |m| == FIXED_BUFFER_SIZE && NulFramesEnd(s)
    ensures Expected(m, [], Gots(s)) == Sents(BlockReplies(s, Broken)) <==> NulFramesBlank(s)
    ensures Tail(s) == [] ==>
              (Expected(m, [], Gots(s) + [CLOSING]) == Sents(BlockReplies(s, Closed)) + [Shut] <==> NulFramesBlank(s))
  {
    hide Stripped, BlockReplies, Tail, NulFramesEnd, NulFramesBlank, Expected;
    var a, b := BlockReplies(Stripped(s), Broken), BlockReplies(s, Broken);
    EventReplies(m, s);
    StrippedAlike(s);
    SentsSame(a, b);
    if Tail(s) == [] {
      WholeStream(s);
      assert (Sents(a) + [Shut])[..|Sents(a) + [Shut]| - 1] == Sents(a);
      assert (Sents(b) + [Shut])[..|Sents(b) + [Shut]| - 1] == Sents(b);
    }
  }

  // ---- Full frames that start with NUL ----

  /** A byte more at the start never makes fewer whole frames. */
  lemma {:induction false} MoreBytesMoreFrames(c: byte, s: seq<byte>)
    requires c != LF
    ensures |BlockReplies([c] + s, Broken)| >= |BlockReplies(s, Broken)|
    decreases |s|
  {
    hide Frame, FrameReply, BlockReplies, Complete;
    if s == [] {
      OpenIsTail([]);
    } else {
      var f := Frame(s, FRAME_MAX);
      SplitFrame(s);
      var rest := s[|f|..];
      if !Complete(f, FRAME_MAX) {
        OpenIsTail(s);
      } else {
        FirstFrame(f, rest);
        LongerFrame(c, f, rest);
      }
    }
  }

  lemma LongerFrame(c: byte, f: seq<byte>, rest: seq<byte>)
    requires c != LF && Complete(f, FRAME_MAX) && |f| <= FRAME_MAX && forall k :: 0 <= k < |f| - 1 ==> f[k] != LF
    ensures |BlockReplies([c] + (f + rest), Broken)| >= 1 + |BlockReplies(rest, Broken)|
    decreases |f + rest|, 0
  {
    hide Frame, FrameReply, BlockReplies;
    if |f| < FRAME_MAX {
      assert [c] + (f + rest) == ([c] + f) + rest;
      FirstFrame([c] + f, rest);
    } else {
      var n := |f| - 1;
      var q, z := [c] + f[..n], f[n];
      assert [c] + (f + rest) == q + ([z] + rest);
      FirstFrame(q, [z] + rest);
      if z == LF {
        FirstFrame([z], rest);
      } else {
        MoreBytesMoreFrames(z, rest);
      }
    }
  }

  lemma {:induction false} NeverMoreFrames(s: seq<byte>)
    ensures |BlockReplies(Stripped(s), Broken)| <= |BlockReplies(s, Broken)|
    decreases |s|
  {
    if s != [] {
      hide Frame, FrameReply, BlockReplies, Complete;
      if s[0] == NUL {
        NeverMoreFrames(s[1..]);
        assert s == [NUL] + s[1..];
        MoreBytesMoreFrames(NUL, s[1..]);
      } else {
        var f := Frame(s, FRAME_MAX);
        SplitFrame(s);
        if Complete(f, FRAME_MAX) {
          NeverMoreFrames(s[|f|..]);
          FirstFrame(f, s[|f|..]);
          FirstFrame(f, Stripped(s[|f|..]));
        } else {
          OpenIsTail(s);
        }
      }
    }
  }

  /** The reply to a whole frame that starts with NUL is missed unless it is blank behind. */
  lemma NulFrameMissed(f: seq<byte>, rest: seq<byte>)
    requires Complete(f, FRAME_MAX) && |f| <= FRAME_MAX && f[0] == NUL && forall k :: 0 <= k < |f| - 1 ==> f[k] != LF
    requires BlockReplies(Stripped(f + rest), Broken) == BlockReplies(f + rest, Broken)
    ensures BlankBehind(f)
  {
    hide Frame, FrameReply, BlockReplies, Complete, Stripped, Behind, Tail;
    var g := Behind(f);
    var d := Stripped(g + rest);
    StripNuls(f, rest);
    FirstFrame(f, rest);
    NulReply(f);
    if g == [] {
      assert g + rest == rest;
      NeverMoreFrames(rest);
      assert false;
    } else {
      StartsWith(g, rest);
      SplitFrame(d);
      var h := Frame(d, FRAME_MAX);
      if Complete(h, FRAME_MAX) {
        FirstFrame(h, d[|h|..]);
        assert BlockReplies(d, Broken)[0] == FrameReply(h);
        NulReply(h);
      } else {
        OpenIsTail(d);
        assert false;
      }
    }
  }

  lemma StartsWith(g: seq<byte>, rest: seq<byte>)
    requires g != [] && g[0] != NUL
    ensures var d := Stripped(g + rest); d != [] && d[0] == g[0]
  {
    SplitFrame(g + rest);
  }

  /** On every stream, also with full frames that start with NUL, answering alike requires
      the first of the frames that start with NUL to be blank behind its NULs. */
  lemma {:induction false} AlikeNeeds(m: seq<byte>, s: seq<byte>)
    requires |m| == FIXED_BUFFER_SIZE && Expected(m, [], Gots(s)) == Sents(BlockReplies(s, Broken))
    ensures FirstNulBlank(s)
  {
    EventReplies(m, s);
    SentsSame(BlockReplies(Stripped(s), Broken), BlockReplies(s, Broken));
    FirstNulNeeds(s);
  }

  lemma {:induction false} FirstNulNeeds(s: seq<byte>)
    requires BlockReplies(Stripped(s), Broken) == BlockReplies(s, Broken)
    ensures FirstNulBlank(s)
    decreases |s|
  {
    hide Frame, FrameReply, BlockReplies, Complete, Stripped, BlankBehind, Tail;
    if s != [] {
      var f := Frame(s, FRAME_MAX);
      SplitFrame(s);
      var rest := s[|f|..];
      if Complete(f, FRAME_MAX) {
        if f[0] == NUL {
          NulFrameMissed(f, rest);
        } else {
          FirstFrame(f, rest);
          FirstFrame(f, Stripped(rest));
          SameHead(FrameReply(f), FrameReply(f), BlockReplies(rest, Broken), BlockReplies(Stripped(rest), Broken));
          FirstNulNeeds(rest);
        }
      }
    }
  }

  /** For a full frame that is not enough: its bytes behind the NULs run on into the next
      frame, and one reply too few is sent. */
  lemma FullNulFrame(m: seq<byte>, x: seq<byte>)
    requires |m| == FIXED_BUFFER_SIZE && |x| == FRAME_MAX - 2 && LF !in x
    ensures var s := [NUL, CR] + x + [LF];
            && FirstNulBlank(s)
            && BlockReplies(s, Closed) == [OK_SUFFIX, OK_SUFFIX]
            && Expected(m, [], Gots(s) + [CLOSING]) == [Sent(OK_SUFFIX), Shut]
  {
    hide Frame, FrameReply, BlockReplies, Stripped, Tail, Expected;
    var f, g := [NUL, CR] + x, [CR] + x + [LF];
    var s := f + [LF];
    assert [LF] + [] == [LF] && g + [] == g && f[1..] == [CR] + x && Behind(f) == [CR] + x;
    FirstFrame(f, [LF]);
    FirstFrame([LF], []);
    OpenIsTail([]);
    WholeStream(s);
    NulReply(f);
    NulReply([LF]);
    StripNuls(f, [LF]);
    FirstFrame(g, []);
    NulReply(g);
    EventReplies(m, s);
    assert Stripped(s) == g;
    assert Sents([OK_SUFFIX]) + [Shut] == [Sent(OK_SUFFIX), Shut];
  }

  /** A frame whose replies differ: the blocking loop answers an empty line, the event-driven
      one what stands behind the NUL. */
  lemma NulStartDiffers(m: seq<byte>, c: byte)
    requires |m| == FIXED_BUFFER_SIZE && c !in {NUL, CR, LF}
    ensures var s := [NUL, c, LF];
            && NulFramesEnd(s) && !NulFramesBlank(s)
            && BlockReplies(s, Closed) == [OK_SUFFIX]
            && Expected(m, [], Gots(s) + [CLOSING]) == [Sent([c] + OK_SUFFIX), Shut]
  {
    hide Frame, BlockReplies, Stripped, Tail, Expected;
    var s, g := [NUL, c, LF], [c, LF];
    assert s + [] == s && g + [] == g && s[1..] == g && Behind(s) == g;
    FirstFrame(s, []);
    OpenIsTail([]);
    WholeStream(s);
    NulReply(s);
    StripNuls(s, []);
    FirstFrame(g, []);
    UntilIs(g, {NUL, CR, LF}, 1);
    assert g[..1] == [c];
    EventReplies(m, s);
    assert Sents([[c] + OK_SUFFIX]) + [Shut] == [Sent([c] + OK_SUFFIX), Shut];
  }

  // ---- Successive connections on one descriptor ----

  /** How a connection comes to its end. */
  datatype Ending = PeerCloses | RecvFails | SendFails

  datatype Session = Session(bytes: seq<byte>, ending: Ending)

  /** The bytes received before the turns that end the connection. */
  function Body(s: Session): (u: seq<byte>) {
    if s.ending.SendFails? && s.bytes != [] && Tail(s.bytes) == [] then s.bytes[..|s.bytes| - 1] else s.bytes
  }

  /** The turns that end the connection. An end of file inside a frame has that frame answered
      and comes up once more; a send that fails is the last one. */
  function LastTurns(s: Session): (h: seq<Turn>) {
    match s.ending
    case PeerCloses => if Tail(s.bytes) == [] then [CLOSING] else [CLOSING, CLOSING]
    case RecvFails => [Turn(Failing, true)]
    case SendFails =>
      if Tail(s.bytes) != [] then [Turn(AtEnd, false)]
      else if s.bytes == [] then [CLOSING]
      else [Turn(Got(s.bytes[|s.bytes| - 1]), false)]
  }

  function Turns(s: Session): (h: seq<Turn>) {
    Gots(Body(s)) + LastTurns(s)
  }

  /** No frame starts with a NUL, and where a send fails there is one. */
  predicate Plain(s: Session) {
    NoNulStart(s.bytes) && (s.ending.SendFails? ==> s.bytes != [])
  }

  /** What is sent on such a connection when `m` was received before; at the end it is closed. */
  function Replies(m: seq<byte>, s: Session): (r: seq<seq<byte>>) {
    var r := BlockReplies(s.bytes, Broken);
    match s.ending
    case PeerCloses => if Tail(s.bytes) == [] then r else r + [FrameReply(Laid(m, s.bytes))]
    case RecvFails => r
    case SendFails => if Tail(s.bytes) != [] || r == [] then r else r[..|r| - 1]
  }

  /** What the blocking loop sends on it. */
  function LoopReplies(s: Session): (r: seq<seq<byte>>) {
    match s.ending
    case PeerCloses => BlockReplies(s.bytes, Closed)
    case RecvFails => BlockReplies(s.bytes, Broken)
    case SendFails =>
      var r := BlockReplies(s.bytes, Closed);
      if r == [] then [] else r[..|r| - 1]
  }

  /** The history of a descriptor number used by one connection after the other. */
  function History(ss: seq<Session>): (h: seq<Turn>) {
    if ss == [] then [] else Turns(ss[0]) + History(ss[1..])
  }

  function AllActs(m: seq<byte>, ss: seq<Session>): (a: seq<Act>)
    decreases |ss|
  {
    if ss == [] then []
    else Sents(Replies(m, ss[0])) + ([Shut] + AllActs(Laid(m, ss[0].bytes), ss[1..]))
  }

  function LoopActs(ss: seq<Session>): (a: seq<Act>) {
    if ss == [] then [] else Sents(LoopReplies(ss[0])) + ([Shut] + LoopActs(ss[1..]))
  }

  /** All frames received on the descriptor number, those cut off included. */
  function AllFrames(ss: seq<Session>): (fs: seq<seq<byte>>) {
    if ss == [] then [] else Frames(ss[0].bytes, FRAME_MAX) + AllFrames(ss[1..])
  }

  /** The last byte of a stream of whole frames completes the last of them. */
  lemma {:induction false} LastByte(m: seq<byte>, b: seq<byte>)
    requires b != [] && NoNulStart(b) && Tail(b) == []
    ensures var u := b[..|b| - 1];
            var q := Tail(u) + [b[|b| - 1]];
            && NoNulStart(u) && Complete(q, FRAME_MAX)
            && BlockReplies(b, Broken) == BlockReplies(u, Broken) + [FrameReply(q)]
            && Laid(m, b) == Over(Laid(m, u), q)
    decreases |b|
  {
    hide Frame, FrameReply, BlockReplies, Complete, Tail, Laid, Over, Stripped;
    var f, u := Frame(b, FRAME_MAX), b[..|b| - 1];
    SplitFrame(b);
    var rest := b[|f|..];
    WholeFirst(b);
    FirstFrame(f, rest);
    LaidMore(m, f, rest);
    if rest == [] {
      assert f + rest == f;
      LastInFrame(m, f);
    } else {
      LastByte(Over(m, f), rest);
      var v := rest[..|rest| - 1];
      assert u == f + v;
      FirstFrame(f, v);
      LaidMore(m, f, v);
      var q := Tail(u) + [b[|b| - 1]];
      assert ([FrameReply(f)] + BlockReplies(v, Broken)) + [FrameReply(q)]
          == [FrameReply(f)] + (BlockReplies(v, Broken) + [FrameReply(q)]);
    }
  }

  lemma LastInFrame(m: seq<byte>, f: seq<byte>)
    requires Complete(f, FRAME_MAX) && |f| <= FRAME_MAX && (forall k :: 0 <= k < |f| - 1 ==> f[k] != LF)
    requires f[0] != NUL
    ensures var u := f[..|f| - 1];
            && NoNulStart(u) && Tail(u) + [f[|f| - 1]] == f && BlockReplies(u, Broken) == []
            && BlockReplies(f, Broken) == [FrameReply(f)]
            && Laid(m, f) == Over(Laid(m, u), f)
  {
    hide Frame, FrameReply, BlockReplies, Tail, Laid, Stripped;
    var u := f[..|f| - 1];
    assert f + [] == f;
    FirstFrame(f, []);
    OpenIsTail(u);
    OpenIsTail([]);
    assert u != [] ==> u[|u|..] == [];
    LaidMore(m, f, []);
    LaidOpen(m, u);
    LaidOpen(Over(m, f), []);
    OverOver(m, u, f);
    OverOver(m, f, []);
  }

  /** A longer frame covers a shorter one; an empty one changes nothing. */
  lemma OverOver(m: seq<byte>, q: seq<byte>, f: seq<byte>)
    ensures |q| <= |f| ==> Over(Over(m, q), f) == Over(m, f)
    ensures f == [] ==> Over(Over(m, q), f) == Over(m, q)
  {
  }

  lemma WholeFirst(b: seq<byte>)
    requires b != [] && Tail(b) == []
    ensures Complete(Frame(b, FRAME_MAX), FRAME_MAX)
  {
    SplitFrame(b);
  }

  lemma NextTurn(m: seq<byte>, p: seq<byte>, t: Turn, h: seq<Turn>)
    requires Fits(m, p)
    ensures Fits(Put(m, p, t.r), PartialAfter(p, t.r))
    ensures Expected(m, p, [t] + h) == Acts(m, p, t) + Expected(Put(m, p, t.r), PartialAfter(p, t.r), h)
  {
    FitsOn(m, p, t.r);
    assert ([t] + h)[1..] == h;
  }

  /** The frame in the making when the last turns come. */
  lemma LastTurnsServed(m: seq<byte>, s: Session, h: seq<Turn>)
    requires |m| == FIXED_BUFFER_SIZE && Plain(s)
    ensures var u := Body(s);
            && NoNulStart(u) && Fits(Laid(m, u), Tail(u))
            && Sents(BlockReplies(u, Broken)) + Expected(Laid(m, u), Tail(u), LastTurns(s) + h)
               == Sents(Replies(m, s)) + ([Shut] + Expected(Laid(m, s.bytes), [], h))
  {
    hide Frame, FrameReply, BlockReplies, Tail, Complete, NoNulStart, Laid, Expected;
    var u, b, n := Body(s), s.bytes, Laid(m, s.bytes);
    LaidFits(m, b);
    LaidFits(m, u);
    var r, e := BlockReplies(b, Broken), Expected(n, [], h);
    var x := FrameReply(n);
    match s.ending
    case PeerCloses =>
      if Tail(b) == [] {
        NextTurn(n, [], CLOSING, h);
      } else {
        NextTurn(n, Tail(b), CLOSING, [CLOSING] + h);
        NextTurn(n, [], CLOSING, h);
        assert [CLOSING, CLOSING] + h == [CLOSING] + ([CLOSING] + h);
        assert Sents(r + [x]) == Sents(r) + [Sent(x)];
      }
    case RecvFails =>
      NextTurn(n, Tail(b), Turn(Failing, true), h);
    case SendFails =>
      if Tail(b) != [] {
        NextTurn(n, Tail(b), Turn(AtEnd, false), h);
      } else {
        LastByte(m, b);
        LastGot(Laid(m, u), Tail(u), b[|b| - 1], h);
        assert r[..|r| - 1] == BlockReplies(u, Broken);
      }
  }

  /** A last byte whose frame cannot be answered. */
  lemma LastGot(n: seq<byte>, p: seq<byte>, c: byte, h: seq<Turn>)
    requires Fits(n, p) && Complete(p + [c], FRAME_MAX)
    ensures Fits(Over(n, p + [c]), [])
    ensures Expected(n, p, [Turn(Got(c), false)] + h) == [Shut] + Expected(Over(n, p + [c]), [], h)
  {
    NextTurn(n, p, Turn(Got(c), false), h);
    assert n[|p| := c] == Over(n, p + [c]);
  }

  /** One connection: its replies, then the close, then the next one starts afresh. */
  lemma SessionServed(m: seq<byte>, s: Session, h: seq<Turn>)
    requires |m| == FIXED_BUFFER_SIZE && Plain(s)
    ensures Expected(m, [], Turns(s) + h) == Sents(Replies(m, s)) + ([Shut] + Expected(Laid(m, s.bytes), [], h))
  {
    hide BlockReplies, Tail, NoNulStart, Gots, Sents, Stripped, Plain, Body, LastTurns, Replies, Expected, Laid;
    var u := Body(s);
    LastTurnsServed(m, s, h);
    NothingStripped(u);
    assert [] + u == u;
    assert Turns(s) + h == Gots(u) + (LastTurns(s) + h);
    BytewiseIsFramewise(m, [], u, LastTurns(s) + h);
  }

  /** Each of the connections on a reused descriptor gets its own replies and is closed once;
      the last may still be open. */
  lemma {:induction false} SessionsServed(m: seq<byte>, ss: seq<Session>, s: seq<byte>)
    requires |m| == FIXED_BUFFER_SIZE && NoNulStart(s) && forall i :: 0 <= i < |ss| ==> Plain(ss[i])
    ensures Expected(m, [], History(ss) + Gots(s)) == AllActs(m, ss) + Sents(BlockReplies(s, Broken))
    decreases |ss|
  {
    hide BlockReplies, NoNulStart, Plain, Turns, Replies, Gots, Sents, Expected, Laid;
    if ss == [] {
      StillOpen(m, s);
    } else {
      var n := Laid(m, ss[0].bytes);
      var h, a := History(ss[1..]) + Gots(s), AllActs(n, ss[1..]) + Sents(BlockReplies(s, Broken));
      SessionsServed(n, ss[1..], s);
      SessionServed(m, ss[0], h);
      assert History(ss) + Gots(s) == Turns(ss[0]) + h;
      assert AllActs(m, ss) + Sents(BlockReplies(s, Broken)) == Sents(Replies(m, ss[0])) + ([Shut] + a);
    }
  }

  lemma StillOpen(m: seq<byte>, s: seq<byte>)
    requires |m| == FIXED_BUFFER_SIZE && NoNulStart(s)
    ensures Expected(m, [], [] + Gots(s)) == [] + Sents(BlockReplies(s, Broken))
  {
    hide BlockReplies, NoNulStart, Stripped, Tail;
    assert [] + Gots(s) == Gots(s);
    NothingStripped(s);
    EventReplies(m, s);
  }

  // ---- Frames cut off by an end of file ----

  /** The blocking loop answers the frame that is cut off when the peer closes as it stands. */
  lemma {:induction false} ClosedReplies(s: seq<byte>)
    ensures BlockReplies(s, Closed)
         == BlockReplies(s, Broken) + if Tail(s) == [] then [] else [FrameReply(Tail(s))]
    decreases |s|
  {
    if s != [] {
      hide FrameReply;
      ClosedReplies(s[|Frame(s, FRAME_MAX)|..]);
      SplitFrame(s);
    }
  }

  /** A frame with other bytes behind it is answered as it stands exactly when it holds a stop
      itself or the byte behind it is one. */
  lemma BytesBehind(n: seq<byte>, t: seq<byte>)
    requires t <= n && |t| < |n|
    ensures FrameReply(n) == FrameReply(t) <==> |CutLine(t)| < |t| || n[|t|] in {NUL, CR, LF}
  {
    var l := CutLine(t);
    assert forall k :: 0 <= k < |t| ==> n[k] == t[k];
    if |l| < |t| || n[|t|] in {NUL, CR, LF} {
      UntilIs(n, {NUL, CR, LF}, |l|);
    } else {
      UntilAtLeast(n, {NUL, CR, LF}, |t| + 1);
      assert |FrameReply(n)| == |CutLine(n)| + 5 && |FrameReply(t)| == |l| + 5;
    }
  }

  /** A frame that the connection leaves unfinished is answered as it stands. */
  predicate CutOffRight(m: seq<byte>, s: Session)
    requires |m| == FIXED_BUFFER_SIZE
  {
    LaidFits(m, s.bytes);
    var t := Tail(s.bytes);
    s.ending.PeerCloses? && t != [] ==> |CutLine(t)| < |t| || Laid(m, s.bytes)[|t|] in {NUL, CR, LF}
  }

  /** One connection is answered as by the blocking loop exactly when its cut-off frame is. */
  lemma CutOffAlike(m: seq<byte>, s: Session)
    requires |m| == FIXED_BUFFER_SIZE
    ensures |Replies(m, s)| == |LoopReplies(s)|
    ensures Replies(m, s) == LoopReplies(s) <==> CutOffRight(m, s)
  {
    hide BlockReplies, Tail, Laid, FrameReply;
    var t, n, r := Tail(s.bytes), Laid(m, s.bytes), BlockReplies(s.bytes, Broken);
    LaidFits(m, s.bytes);
    ClosedReplies(s.bytes);
    BytesBehind(n, t);
    if t != [] {
      assert (r + [FrameReply(t)])[|r|] == FrameReply(t) && (r + [FrameReply(n)])[|r|] == FrameReply(n);
      assert (r + [FrameReply(t)])[..|r|] == r;
    }
  }

  predicate AllRight(m: seq<byte>, ss: seq<Session>)
    requires |m| == FIXED_BUFFER_SIZE
    decreases |ss|
  {
    ss == [] || (CutOffRight(m, ss[0]) && AllRight(Laid(m, ss[0].bytes), ss[1..]))
  }

  /** The refinement, with its exact condition: all connections are served as by the blocking
      loop if and only if every frame cut off by an end of file is answered as it stands. */
  lemma {:induction false} SessionsRefineLoop(m: seq<byte>, ss: seq<Session>)
    requires |m| == FIXED_BUFFER_SIZE
    ensures AllActs(m, ss) == LoopActs(ss) <==> AllRight(m, ss)
    decreases |ss|
  {
    hide Replies, LoopReplies, CutOffRight, Laid;
    if ss != [] {
      var n := Laid(m, ss[0].bytes);
      CutOffAlike(m, ss[0]);
      SessionsRefineLoop(n, ss[1..]);
      SentsSame(Replies(m, ss[0]), LoopReplies(ss[0]));
      SameParts(Sents(Replies(m, ss[0])), Sents(LoopReplies(ss[0])), AllActs(n, ss[1..]), LoopActs(ss[1..]));
    }
  }

  lemma SameParts(a: seq<Act>, b: seq<Act>, x: seq<Act>, y: seq<Act>)
    requires |a| == |b|
    ensures a + ([Shut] + x) == b + ([Shut] + y) <==> a == b && x == y
  {
    var l, r := a + ([Shut] + x), b + ([Shut] + y);
    if l == r {
      assert l[..|a|] == a && r[..|a|] == b && l[|a| + 1..] == x && r[|a| + 1..] == y;
    }
  }

  /** Frame `i` is the last one with a byte at position `k`. */
  predicate LastReaching(fs: seq<seq<byte>>, k: nat, i: nat) {
    i < |fs| && |fs[i]| > k && forall j :: i < j < |fs| ==> |fs[j]| <= k
  }

  /** What stands behind a frame on a descriptor number used since the start: the byte there of
      the last frame that was longer, if any. */
  lemma StopBehind(fs: seq<seq<byte>>, k: nat)
    requires k < FIXED_BUFFER_SIZE
    ensures Lay(Zeros(FIXED_BUFFER_SIZE), fs)[k] in {NUL, CR, LF}
       <==> forall i: nat :: LastReaching(fs, k, i) ==> fs[i][k] in {NUL, CR, LF}
  {
    LayAt(Zeros(FIXED_BUFFER_SIZE), fs, k);
    if exists i :: 0 <= i < |fs| && |fs[i]| > k {
      var i := LongFrame(fs, k);
      assert LastReaching(fs, k, i);
    }
  }

  lemma {:induction false} LongFrame(fs: seq<seq<byte>>, k: nat) returns (i: nat)
    requires exists i :: 0 <= i < |fs| && |fs[i]| > k
    ensures LastReaching(fs, k, i)
    decreases |fs|
  {
    var n := |fs| - 1;
    if |fs[n]| > k {
      return n;
    }
    i := LongFrame(fs[..n], k);
  }

  lemma {:induction false} LaidAll(m: seq<byte>, ss: seq<Session>, s: Session)
    ensures Lay(m, AllFrames(ss + [s])) == Laid(Lay(m, AllFrames(ss)), s.bytes)
    decreases |ss|
  {
    if ss == [] {
      assert ss + [s] == [s];
      assert AllFrames([s]) == Frames(s.bytes, FRAME_MAX) + [] == Frames(s.bytes, FRAME_MAX);
    } else {
      assert (ss + [s])[1..] == ss[1..] + [s];
      LaidAll(Lay(m, Frames(ss[0].bytes, FRAME_MAX)), ss[1..], s);
      LayMore(m, Frames(ss[0].bytes, FRAME_MAX), AllFrames(ss[1..] + [s]));
      LayMore(m, Frames(ss[0].bytes, FRAME_MAX), AllFrames(ss[1..]));
    }
  }

  /** One more connection: what it is sent depends on the frames before it alone. */
  lemma {:induction false} LastActs(m: seq<byte>, ss: seq<Session>, s: Session)
    ensures AllActs(m, ss + [s]) == AllActs(m, ss) + (Sents(Replies(Lay(m, AllFrames(ss)), s)) + [Shut])
    decreases |ss|
  {
    hide Replies, Sents;
    if ss == [] {
      assert ss + [s] == [s];
      assert Sents(Replies(m, s)) + ([Shut] + []) == [] + (Sents(Replies(m, s)) + [Shut]);
    } else {
      var n := Laid(m, ss[0].bytes);
      assert (ss + [s])[1..] == ss[1..] + [s];
      LastActs(n, ss[1..], s);
      LayMore(m, Frames(ss[0].bytes, FRAME_MAX), AllFrames(ss[1..]));
      var a, b, c := Sents(Replies(m, ss[0])), AllActs(n, ss[1..]), Sents(Replies(Lay(m, AllFrames(ss)), s)) + [Shut];
      assert a + ([Shut] + (b + c)) == (a + ([Shut] + b)) + c;
    }
  }

  /** The exact condition for one more connection, on what its descriptor number received since
      the start of the server: the reply at its end of file is that of the blocking loop if and
      only if the frame cut off holds a stop, or the last longer frame has a stop at the
      position where this one was cut off, or there was none longer. */
  lemma ReplyAtEnd(ss: seq<Session>, s: Session)
    requires s.ending.PeerCloses? && Tail(s.bytes) != []
    ensures var m, t, fs := Lay(Zeros(FIXED_BUFFER_SIZE), AllFrames(ss)), Tail(s.bytes), AllFrames(ss + [s]);
            (Replies(m, s) == LoopReplies(s)
             <==> |CutLine(t)| < |t| || forall i: nat :: LastReaching(fs, |t|, i) ==> fs[i][|t|] in {NUL, CR, LF})
    ensures var z := Zeros(FIXED_BUFFER_SIZE);
            AllActs(z, ss + [s]) == AllActs(z, ss) + (Sents(Replies(Lay(z, AllFrames(ss)), s)) + [Shut])
  {
    hide Lay, Replies, LoopReplies, Tail, AllFrames, LastReaching;
    var m, t := Lay(Zeros(FIXED_BUFFER_SIZE), AllFrames(ss)), Tail(s.bytes);
    LaidFits(m, s.bytes);
    LaidAll(Zeros(FIXED_BUFFER_SIZE), ss, s);
    StopBehind(AllFrames(ss + [s]), |t|);
    CutOffAlike(m, s);
    LastActs(Zeros(FIXED_BUFFER_SIZE), ss, s);
  }

  /** A line of two bytes, then a frame of one byte cut off, on the same connection or on the
      next one of that number: the second byte of the line is sent along. */
  lemma StaleReply(a: byte, b: byte, x: byte)
    requires {a, b, x} !! {NUL, CR, LF}
    ensures var m, one, two := Zeros(FIXED_BUFFER_SIZE), Session([a, b, LF, x], PeerCloses),
                               [Session([a, b, LF], PeerCloses), Session([x], PeerCloses)];
            && Expected(m, [], Turns(one)) == [Sent([a, b] + OK_SUFFIX), Sent([x, b] + OK_SUFFIX), Shut]
            && Expected(m, [], History(two)) == [Sent([a, b] + OK_SUFFIX), Shut, Sent([x, b] + OK_SUFFIX), Shut]
            && LoopReplies(one) == [[a, b] + OK_SUFFIX, [x] + OK_SUFFIX]
  {
    hide Tail, BlockReplies, FrameReply, NoNulStart, Laid, Expected, Turns, Replies;
    var m, line, rest := Zeros(FIXED_BUFFER_SIZE), [a, b, LF], [x];
    var one, first, second := Session(line + rest, PeerCloses), Session(line, PeerCloses), Session(rest, PeerCloses);
    var two, n := [first, second], Laid(m, line);
    assert line + rest == [a, b, LF, x];
    StaleParts(a, b, x);
    ClosedReplies(line + rest);
    StaleReplies(a, b, x);
    OneServed(m, one);
    assert two[1..] == [second];
    OneServed(n, second);
    assert History(two) == Turns(first) + Turns(second) by {
      assert History([second]) == Turns(second) + [];
    }
    SessionServed(m, first, Turns(second));
    var s, t := [a, b] + OK_SUFFIX, [x, b] + OK_SUFFIX;
    assert Sents([s]) == [Sent(s)] && Sents([t]) == [Sent(t)] && Sents([s, t]) == [Sent(s), Sent(t)];
  }

  lemma StaleReplies(a: byte, b: byte, x: byte)
    requires {a, b, x} !! {NUL, CR, LF}
    ensures var m, line, rest := Zeros(FIXED_BUFFER_SIZE), [a, b, LF], [x];
            && Replies(m, Session(line + rest, PeerCloses)) == [[a, b] + OK_SUFFIX, [x, b] + OK_SUFFIX]
            && Replies(m, Session(line, PeerCloses)) == [[a, b] + OK_SUFFIX]
            && Replies(Laid(m, line), Session(rest, PeerCloses)) == [[x, b] + OK_SUFFIX]
  {
    hide Tail, BlockReplies, FrameReply, NoNulStart, Laid, Expected;
    StaleParts(a, b, x);
  }

  lemma OneServed(m: seq<byte>, s: Session)
    requires |m| == FIXED_BUFFER_SIZE && Plain(s)
    ensures Expected(m, [], Turns(s)) == Sents(Replies(m, s)) + [Shut]
  {
    hide Turns, Replies, Plain, Laid;
    assert Turns(s) + [] == Turns(s);
    SessionServed(m, s, []);
  }

  lemma StaleParts(a: byte, b: byte, x: byte)
    requires {a, b, x} !! {NUL, CR, LF}
    ensures var m, line, rest := Zeros(FIXED_BUFFER_SIZE), [a, b, LF], [x];
            && NoNulStart(line) && NoNulStart(rest) && NoNulStart(line + rest)
            && Tail(line) == [] && Tail(rest) == rest && Tail(line + rest) == rest
            && BlockReplies(line, Broken) == BlockReplies(line + rest, Broken) == [[a, b] + OK_SUFFIX]
            && BlockReplies(rest, Broken) == [] && FrameReply(rest) == rest + OK_SUFFIX
            && FrameReply(Laid(m, line + rest)) == FrameReply(Laid(Laid(m, line), rest)) == [x, b] + OK_SUFFIX
  {
    hide Frame, BlockReplies, Tail, Stripped, Laid;
    assert a !in {NUL, CR, LF} && b !in {NUL, CR, LF} && x !in {NUL, CR, LF};
    var m, line, rest := Zeros(FIXED_BUFFER_SIZE), [a, b, LF], [x];
    FirstFrame(line, rest);
    FirstFrame(line, []);
    OpenIsTail(rest);
    OpenIsTail([]);
    assert line + [] == line && rest[|rest|..] == [];
    UntilIs(line, {NUL, CR, LF}, 2);
    UntilIs(rest, {NUL, CR, LF}, 1);
    LaidMore(m, line, rest);
    LaidMore(m, line, []);
    LaidOpen(Over(m, line), rest);
    LaidOpen(Over(m, line), []);
    assert Over(Over(m, line), []) == Over(m, line);
    var n := Over(Over(m, line), rest);
    UntilIs(n, {NUL, CR, LF}, 2);
    assert n[..2] == [x, b] && line[..2] == [a, b];
  }

  /** The whole server: whatever the order of events, a descriptor whose connections send
      frames that do not start with NUL sends and closes what its history calls for, up to a
      connection that is still open. */
  method ServeClients(es: seq<Event>, ghost sessions: nat -> seq<Session>, ghost last: nat -> seq<byte>)
    returns (log: seq<Entry>)
    requires forall i :: 0 <= i < |es| ==> es[i].fd < SLOTS
    ensures forall fd: nat :: fd < SLOTS && Of(es, fd) == History(sessions(fd)) + Gots(last(fd))
                              && NoNulStart(last(fd)) && (forall s :: s in sessions(fd) ==> Plain(s)) ==>
              var m := Zeros(FIXED_BUFFER_SIZE);
              var sent := Sents(BlockReplies(last(fd), Broken));
              && ActsOn(log, fd) == AllActs(m, sessions(fd)) + sent
              && (AllRight(m, sessions(fd)) <==> ActsOn(log, fd) == LoopActs(sessions(fd)) + sent)
  {
    hide Expected, History, AllActs, Gots, NoNulStart, Plain, Of, ActsOn, LoopActs, AllRight, BlockReplies;
    var server := new Server();
    log := server.Serve(es);
    forall fd: nat | fd < SLOTS && Of(es, fd) == History(sessions(fd)) + Gots(last(fd))
                     && NoNulStart(last(fd)) && (forall s :: s in sessions(fd) ==> Plain(s))
      ensures var m := Zeros(FIXED_BUFFER_SIZE);
              var sent := Sents(BlockReplies(last(fd), Broken));
              && ActsOn(log, fd) == AllActs(m, sessions(fd)) + sent
              && (AllRight(m, sessions(fd)) <==> ActsOn(log, fd) == LoopActs(sessions(fd)) + sent)
    {
      var m := Zeros(FIXED_BUFFER_SIZE);
      SessionsServed(m, sessions(fd), last(fd));
      SessionsRefineLoop(m, sessions(fd));
      SameFront(AllActs(m, sessions(fd)), LoopActs(sessions(fd)), Sents(BlockReplies(last(fd), Broken)));
    }
  }

  lemma SameFront(a: seq<Act>, b: seq<Act>, c: seq<Act>)
    ensures a + c == b + c <==> a == b
  {
    if a + c == b + c {
      assert |a| == |b|;
      assert a == (a + c)[..|a|] && b == (b + c)[..|b|];
    }
  }
}
