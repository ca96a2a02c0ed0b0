/** The blocking line readers of chapter06/oneline.c: one frame into a fixed buffer, one line
    into a growing buffer, and the two echo loops on top of them. */
module LineFraming {
  import opened CStrings

  // ---- Frames of a stream ----

  /** The length of the first frame: up to and including the first LF, at most `max` bytes,
      and no more than there is. */
  function FrameLength(s: seq<byte>, max: nat): (n: nat)
    ensures n <= |s| && n <= max
    ensures s != [] && max > 0 ==> n > 0
    ensures forall k :: 0 <= k < n - 1 ==> s[k] != LF
    ensures n < |s| && n < max ==> n > 0 && s[n - 1] == LF
  {
    if s == [] || max == 0 then 0
    else if s[0] == LF then 1
    else 1 + FrameLength(s[1..], max - 1)
  }

  function Frame(s: seq<byte>, max: nat): (f: seq<byte>) {
    s[..FrameLength(s, max)]
  }

  /** Nothing more is wanted for the frame. */
  predicate Complete(f: seq<byte>, max: nat) {
    f != [] && (f[|f| - 1] == LF || |f| == max)
  }

  /** A clean run up to a stop is the first frame. */
  lemma {:induction false} FrameIs(s: seq<byte>, max: nat, n: nat)
    requires n <= |s| && n <= max && (n == 0 ==> s == [] || max == 0)
    requires forall k :: 0 <= k < n - 1 ==> s[k] != LF
    requires n < |s| && n < max ==> n > 0 && s[n - 1] == LF
    ensures FrameLength(s, max) == n
  {
    if n > 0 && s[0] != LF {
      FrameIs(s[1..], max - 1, n - 1);
    }
  }

  function Flatten(fs: seq<seq<byte>>): (s: seq<byte>) {
    if fs == [] then [] else fs[0] + Flatten(fs[1..])
  }

  function Frames(s: seq<byte>, max: nat): (fs: seq<seq<byte>>)
    requires max > 0
    decreases |s|
  {
    if s == [] then [] else [Frame(s, max)] + Frames(s[|Frame(s, max)|..], max)
  }

  /** `f` is a frame: not empty, not too long, a LF only at its end. */
  predicate IsFrame(f: seq<byte>, max: nat) {
    0 < |f| <= max && forall k :: 0 <= k < |f| - 1 ==> f[k] != LF
  }

  /** A division of a stream into frames of which only the last may be cut off. */
  predicate IsFraming(fs: seq<seq<byte>>, s: seq<byte>, max: nat) {
    && Flatten(fs) == s
    && (forall i :: 0 <= i < |fs| ==> IsFrame(fs[i], max))
    && (forall i :: 0 <= i < |fs| - 1 ==> Complete(fs[i], max))
  }

  lemma {:induction false} FramesAreFraming(s: seq<byte>, max: nat)
    requires max > 0
    ensures IsFraming(Frames(s, max), s, max)
    decreases |s|
  {
    if s != [] {
      hide IsFraming, FrameLength;
      var f, fs := Frame(s, max), Frames(s, max);
      FramesAreFraming(s[|f|..], max);
      assert fs[1..] == Frames(s[|f|..], max);
      FirstFrameFits(fs, s, max);
    }
  }

  lemma {:induction false} OnlyFraming(fs: seq<seq<byte>>, s: seq<byte>, max: nat)
    requires max > 0 && IsFraming(fs, s, max)
    ensures fs == Frames(s, max)
    decreases |fs|
  {
    if fs == [] {
      assert s == [];
    } else {
      NotEmpty(fs, s, max);
      hide IsFraming, FrameLength;
      FirstOfFraming(fs, s, max);
      OnlyFraming(fs[1..], s[|fs[0]|..], max);
      assert fs == [fs[0]] + fs[1..];
    }
  }

  lemma NotEmpty(fs: seq<seq<byte>>, s: seq<byte>, max: nat)
    requires fs != [] && IsFraming(fs, s, max)
    ensures s != []
  {
    assert IsFrame(fs[0], max);
    assert |s| >= |fs[0]|;
  }

  /** There is exactly one such division. */
  lemma FramingIsUnique(fs: seq<seq<byte>>, s: seq<byte>, max: nat)
    requires max > 0
    ensures IsFraming(fs, s, max) <==> fs == Frames(s, max)
  {
    FramesAreFraming(s, max);
    if IsFraming(fs, s, max) {
      OnlyFraming(fs, s, max);
    }
  }

  lemma FirstFrameFits(fs: seq<seq<byte>>, s: seq<byte>, max: nat)
    requires max > 0 && s != [] && fs != [] && fs[0] == Frame(s, max)
    requires IsFraming(fs[1..], s[|fs[0]|..], max)
    ensures IsFraming(fs, s, max)
  {
    forall i | 0 <= i < |fs| ensures IsFrame(fs[i], max) && (i < |fs| - 1 ==> Complete(fs[i], max)) {
      if i > 0 {
        assert fs[i] == fs[1..][i - 1];
      }
    }
  }

  lemma FirstOfFraming(fs: seq<seq<byte>>, s: seq<byte>, max: nat)
    requires max > 0 && s != [] && IsFraming(fs, s, max)
    ensures fs != [] && fs[0] == Frame(s, max) && IsFraming(fs[1..], s[|fs[0]|..], max)
  {
    var f := fs[0];
    assert IsFrame(f, max);
    assert s[..|f|] == f && s[|f|..] == Flatten(fs[1..]);
    if |fs| == 1 {
      assert Flatten(fs[1..]) == [];
    }
    FrameIs(s, max, |f|);
    forall i | 0 <= i < |fs[1..]|
      ensures IsFrame(fs[1..][i], max) && (i < |fs[1..]| - 1 ==> Complete(fs[1..][i], max)) {
      assert fs[1..][i] == fs[i + 1];
    }
  }

  /** The reply to a frame: what precedes its first NUL, CR or LF, and ":OK\r\n". */
  function FrameReply(f: seq<byte>): (r: seq<byte>) {
    CutLine(f) + OK_SUFFIX
  }

  /** The reply to a frame in bytes. */
  lemma FrameReplyInBytes(f: seq<byte>, n: nat)
    requires n <= |f| && (forall k :: 0 <= k < n ==> f[k] != 0 && f[k] != 10 && f[k] != 13)
    requires n < |f| ==> f[n] == 0 || f[n] == 10 || f[n] == 13
    ensures FrameReply(f) == f[..n] + [58, 79, 75, 13, 10]
  {
    CutInBytes(f, n);
  }

  // ---- The peer ----

  /** What ends a stream. */
  datatype End = Closed | Broken

  /** A socket read one byte at a time: the bytes still to come, then its end. */
  class Stream {
    var data: seq<byte>
    const end: End

    method Recv() returns (len: int, c: byte)
      modifies this
      ensures old(data) == [] ==> data == [] && c == NUL && len == if end.Closed? then 0 else -1
      ensures old(data) != [] ==> len == 1 && [c] + data == old(data)
    {
      if data == [] {
        return if end.Closed? then 0 else -1, NUL;
      }
      len, c := 1, data[0];
      data := data[1..];
    }
  }

  /** The frame at hand is all that will come and is not whole. */
  predicate CutOff(f: seq<byte>, max: nat, end: End) {
    !Complete(f, max) && end.Broken?
  }

  /** `recv_one_line_1`: the next frame of the stream and a terminator, in place. Callers pass
      a buffer of at least two bytes. */
  method RecvOneLine1(soc: Stream, buf: array<byte>, bufSize: nat) returns (rv: int)
    requires 2 <= bufSize <= buf.Length
    modifies soc, buf
    ensures var f := Frame(old(soc.data), bufSize - 1);
            && soc.data == old(soc.data)[|f|..]
            && buf[..|f|] == f && buf[|f|] == NUL
            && rv == if CutOff(f, bufSize - 1, soc.end) then -1 else |f|
    ensures forall k :: bufSize <= k < buf.Length ==> buf[k] == old(buf[k])
  {
    ghost var s := soc.data;
    var pos := 0;
    buf[0] := NUL;
    rv := 0;
    while true
      invariant 0 <= pos < bufSize - 1 && pos <= |s| && soc.data == s[pos..]
      invariant forall k :: 0 <= k < pos ==> buf[k] == s[k] && s[k] != LF
      invariant forall k :: bufSize <= k < buf.Length ==> buf[k] == old(buf[k])
      decreases bufSize - pos
    {
      var len, c := soc.Recv();
      if len == -1 {
        rv := -1;
        break;
      } else if len == 0 {
        rv := if pos > 0 then pos else 0;
        break;
      }
      buf[pos] := c;
      pos := pos + 1;
      if c == LF {
        rv := pos;
        break;
      }
      if pos == bufSize - 1 {
        rv := pos;
        break;
      }
    }
    FrameIs(s, bufSize - 1, pos);
    buf[pos] := NUL;
    assert buf[..pos] == s[..pos];
  }

  // ---- Lines of any length ----

  /** The stream up to and including its first LF, or all of it. */
  function Line(s: seq<byte>): (l: seq<byte>) {
    Frame(s, |s|)
  }

  /** Bytes without a LF in front of a stream belong to its first line. */
  lemma LineFrom(s: seq<byte>, n: nat)
    requires n <= |s| && forall k :: 0 <= k < n ==> s[k] != LF
    ensures |Line(s)| == n + |Line(s[n..])|
    ensures Line(s) == s[..n] + Line(s[n..])
  {
    var m := |Line(s[n..])|;
    forall k | 0 <= k < n + m - 1 ensures s[k] != LF {
      if k >= n {
        assert s[k] == s[n..][k - n];
      }
    }
    assert n + m < |s| ==> s[n + m - 1] == s[n..][m - 1];
    FrameIs(s, |s|, n + m);
    assert s[n..][..m] == s[n..n + m];
  }

  /** A bounded frame is the line, or the part of it that fits. */
  lemma FrameOfLine(s: seq<byte>, max: nat)
    requires max > 0
    ensures Frame(s, max) == Line(s)[..Min(max, |Line(s)|)]
    ensures Complete(Frame(s, max), max) <==> |Line(s)| >= max || (s != [] && Line(s)[|Line(s)| - 1] == LF)
  {
    FrameIs(s, max, Min(max, |Line(s)|));
  }

  const ALLOC_SIZE: nat := 1024
  const ALLOC_LIMIT: nat := 1048576

  /** The connection breaks before the line has ended. */
  predicate LineBroken(s: seq<byte>, end: End) {
    end.Broken? && (s == [] || Line(s)[|Line(s)| - 1] != LF)
  }

  /** The size of the area after `k` full chunks. */
  function AreaSize(k: nat): (size: nat) {
    ALLOC_SIZE * Min(k, 1024)
  }

  /** One more chunk asks for more room than allowed exactly when the text gets too long. */
  lemma LimitIsLength(k: nat, len: nat)
    requires k <= 1025 && 1 <= len < ALLOC_SIZE
    ensures var total := 1023 * k + len;
            if total >= AreaSize(k) then AreaSize(k) + ALLOC_SIZE > ALLOC_LIMIT <==> total >= ALLOC_LIMIT
            else total < ALLOC_LIMIT
    ensures var total := 1023 * k + len; var size := AreaSize(k) + if total >= AreaSize(k) then ALLOC_SIZE else 0;
            total < ALLOC_LIMIT ==> total < size && (len == 1023 ==> k < 1025 && size == AreaSize(k + 1))
  {
  }

  /** malloc or realloc to `size` bytes, which keeps the old contents; null when refused. */
  method Realloc(data: array?<byte>, size: nat, grants: nat -> bool) returns (r: array?<byte>)
    requires data != null ==> data.Length <= size
    ensures r == null <==> !grants(size)
    ensures r != null ==> fresh(r) && r.Length == size && (data != null ==> r[..data.Length] == data[..])
  {
    if !grants(size) {
      return null;
    }
    var n := new byte[size];
    if data != null {
      forall k | 0 <= k < data.Length {
        n[k] := data[k];
      }
      assert n[..data.Length] == data[..];
    }
    r := n;
  }

  /** The area of `recv_one_line_2`: it holds the text so far and has room for a terminator. */
  predicate AreaHolds(data: array?<byte>, size: nat, text: seq<byte>)
    reads data
  {
    if data == null then text == [] && size == 0
    else text != [] && data.Length == size && |text| < size && data[..|text|] == text && data[|text|] == NUL
  }

  /** Making room for `len` more bytes, within the limit. */
  method MakeRoom(data0: array?<byte>, size0: nat, nowLen: nat, len: nat, grants: nat -> bool, ghost text: seq<byte>)
    returns (data: array?<byte>, size: nat)
    requires AreaHolds(data0, size0, text) && nowLen == |text|
    ensures size == size0 + if nowLen + len >= size0 then ALLOC_SIZE else 0
    ensures data == null ==> data0 == null || size != size0
    ensures data == null && size != size0 ==> size > ALLOC_LIMIT || !grants(size)
    ensures size > ALLOC_LIMIT && size != size0 ==> data == null
    ensures data != null && size != size0 ==> grants(size)
    ensures data != null ==> (data == data0 || fresh(data)) && data.Length == size && data[..nowLen] == text
  {
    data, size := data0, size0;
    if nowLen + len >= size {
      size := size + ALLOC_SIZE;
      if size > ALLOC_LIMIT {
        data := null;
      } else {
        data := Realloc(data, size, grants);
        assert data != null && data0 != null ==> data[..nowLen] == data[..size0][..nowLen];
      }
    }
  }

  /** memcpy of the chunk behind the text, and the terminator. */
  method Store(data: array<byte>, nowLen: nat, buf: array<byte>, len: nat, ghost text: seq<byte>)
    requires data != buf && nowLen == |text| && nowLen + len < data.Length && len <= buf.Length
    requires data[..nowLen] == text && (text != [] || len > 0)
    modifies data
    ensures AreaHolds(data, data.Length, text + old(buf[..len]))
  {
    forall k | 0 <= k < len {
      data[nowLen + k] := buf[k];
    }
    data[nowLen + len] := NUL;
    assert data[..nowLen] == text;
    assert data[nowLen..nowLen + len] == buf[..len];
    assert data[..nowLen + len] == text + buf[..len];
  }

  /** Where the loop of `recv_one_line_2` stands between chunks: `k` whole chunks read, or the
      stream at its end. */
  predicate Between(s: seq<byte>, nowLen: nat, rest: seq<byte>, size: nat, end: End, k: nat) {
    && nowLen <= |s| && rest == s[nowLen..]
    && (forall i :: 0 <= i < nowLen ==> s[i] != LF)
    && nowLen < ALLOC_LIMIT
    && ((k <= 1025 && nowLen == 1023 * k && size == AreaSize(k)) || (rest == [] && end.Closed?))
  }

  const CHUNK: nat := ALLOC_SIZE - 1

  /** A chunk in the middle of a line. */
  lemma ChunkOfLine(s: seq<byte>, nowLen: nat, len: nat)
    requires nowLen <= |s| && forall i :: 0 <= i < nowLen ==> s[i] != LF
    requires len == FrameLength(s[nowLen..], CHUNK)
    ensures nowLen + len <= |Line(s)| && (len == 0 ==> nowLen == |s|)
    ensures s[..nowLen] + Frame(s[nowLen..], CHUNK) == s[..nowLen + len]
    ensures s[nowLen..][len..] == s[nowLen + len..]
    ensures len > 0 && s[nowLen + len - 1] == LF ==> Line(s) == s[..nowLen + len]
    ensures len == 0 || s[nowLen + len - 1] != LF ==>
              (forall i :: 0 <= i < nowLen + len ==> s[i] != LF) && (len == CHUNK || nowLen + len == |s|)
  {
    hide FrameLength, Complete;
    var rest := s[nowLen..];
    LineFrom(s, nowLen);
    FrameOfLine(rest, CHUNK);
    if len > 0 && s[nowLen + len - 1] == LF {
      assert rest[len - 1] == LF;
      FrameIs(rest, |rest|, len);
    }
  }

  /** When the stream breaks inside a chunk, it breaks inside the line. */
  lemma BreakInChunk(s: seq<byte>, nowLen: nat, end: End)
    requires nowLen <= |s| && forall i :: 0 <= i < nowLen ==> s[i] != LF
    requires CutOff(Frame(s[nowLen..], CHUNK), CHUNK, end)
    ensures LineBroken(s, end)
  {
    var rest := s[nowLen..];
    LineFrom(s, nowLen);
    FrameOfLine(rest, CHUNK);
  }

  /** At the end of a stream without a further LF the line is all of it. */
  lemma LineAtEnd(s: seq<byte>)
    requires forall i :: 0 <= i < |s| ==> s[i] != LF
    ensures Line(s) == s
  {
    LineFrom(s, |s|);
  }

  /** An area of `j` times 1024 bytes can be had. */
  predicate Grants(grants: nat -> bool, j: nat) {
    grants(1024 * j)
  }

  /** The areas a text of `n` bytes needs one after the other, up to the first with room for it
      and a terminator, can all be had. */
  ghost predicate Granted(grants: nat -> bool, n: nat) {
    n > 0 ==> forall j: nat :: 0 < j && ALLOC_SIZE * (j - 1) <= n ==> Grants(grants, j)
  }

  /** The areas up to the present size have been had. */
  ghost predicate Had(grants: nat -> bool, size: nat) {
    size % ALLOC_SIZE == 0 && forall j: nat :: 0 < j && ALLOC_SIZE * j <= size ==> Grants(grants, j)
  }

  lemma HadIsGranted(grants: nat -> bool, size: nat, n: nat)
    requires Had(grants, size) && (n > 0 ==> n < size)
    ensures Granted(grants, n)
  {
  }

  /** What a result of `recv_one_line_2` says about the stream. */
  ghost predicate LineRead(s: seq<byte>, end: End, grants: nat -> bool, rv: int, rest: seq<byte>)
  {
    if LineBroken(s, end) || |Line(s)| >= ALLOC_LIMIT || !Granted(grants, |Line(s)|) then rv == -1
    else rv == |Line(s)| && rest == s[|Line(s)|..]
  }

  /** The step after a chunk has been received. */
  method AddChunk(data0: array?<byte>, size0: nat, nowLen: nat, buf: array<byte>, len: nat, grants: nat -> bool,
                  ghost text: seq<byte>)
    returns (data: array?<byte>, size: nat)
    requires AreaHolds(data0, size0, text) && nowLen == |text| && 0 < len <= buf.Length && data0 != buf
    requires nowLen + len < size0 + ALLOC_SIZE
    modifies if data0 == null then {} else {data0}
    ensures size == size0 + if nowLen + len >= size0 then ALLOC_SIZE else 0
    ensures data == null ==> size != size0 && (size > ALLOC_LIMIT || !grants(size))
    ensures size > ALLOC_LIMIT && size != size0 ==> data == null
    ensures data != null && size != size0 ==> grants(size)
    ensures data != null ==> AreaHolds(data, size, text + old(buf[..len])) && (data == data0 || fresh(data))
  {
    data, size := MakeRoom(data0, size0, nowLen, len, grants, text);
    if data != null {
      Store(data, nowLen, buf, len, text);
    }
  }

  lemma StartBetween(s: seq<byte>, end: End)
    ensures Between(s, 0, s, 0, end, 0) && AreaHolds(null, 0, s[..0])
  {
  }

  lemma BetweenMeans(s: seq<byte>, nowLen: nat, rest: seq<byte>, size: nat, end: End, k: nat)
    requires Between(s, nowLen, rest, size, end, k)
    ensures nowLen <= |s| && rest == s[nowLen..] && nowLen < ALLOC_LIMIT
    ensures forall i :: 0 <= i < nowLen ==> s[i] != LF
  {
  }

  /** With `total` bytes of the line read: the area they need is within the limit exactly when
      they are below it, and the loop goes on there unless the line has ended. */
  predicate Grown(s: seq<byte>, total: nat, size: nat, end: End, k: nat) {
    var size' := size + if total >= size then ALLOC_SIZE else 0;
    && 0 < total <= |s| && total < size + ALLOC_SIZE
    && (total < ALLOC_LIMIT ==> size' <= ALLOC_LIMIT)
    && (total >= ALLOC_LIMIT ==> size' > ALLOC_LIMIT && size' != size)
    && (total < ALLOC_LIMIT && s[total - 1] != LF ==> Between(s, total, s[total..], size', end, k + 1))
  }

  lemma RoomBetween(s: seq<byte>, nowLen: nat, rest: seq<byte>, size: nat, end: End, k: nat, len: nat)
    requires Between(s, nowLen, rest, size, end, k)
    requires 0 < len == FrameLength(rest, CHUNK) && !CutOff(Frame(rest, CHUNK), CHUNK, end)
    ensures Grown(s, nowLen + len, size, end, k)
  {
    LimitIsLength(k, len);
    ChunkOfLine(s, nowLen, len);
  }

  lemma BrokenRead(s: seq<byte>, end: End, grants: nat -> bool, rest: seq<byte>)
    requires LineBroken(s, end)
    ensures LineRead(s, end, grants, -1, rest)
  {
  }

  lemma WholeRead(s: seq<byte>, nowLen: nat, end: End, grants: nat -> bool, size: nat, rest: seq<byte>)
    requires nowLen == |s| < ALLOC_LIMIT && forall i :: 0 <= i < nowLen ==> s[i] != LF
    requires !CutOff(Frame(s[nowLen..], CHUNK), CHUNK, end) && rest == []
    requires Had(grants, size) && (nowLen > 0 ==> nowLen < size)
    ensures Line(s) == s && LineRead(s, end, grants, nowLen, rest)
  {
    LineAtEnd(s);
    HadIsGranted(grants, size, nowLen);
  }

  lemma LineEnds(s: seq<byte>, total: nat, end: End, grants: nat -> bool, size: nat)
    requires 0 < total <= |s| && total < ALLOC_LIMIT && Line(s) == s[..total] && s[total - 1] == LF
    requires Had(grants, size) && total < size
    ensures LineRead(s, end, grants, total, s[total..])
  {
    HadIsGranted(grants, size, total);
  }

  lemma Refused(s: seq<byte>, end: End, grants: nat -> bool, size0: nat, total: nat, rest: seq<byte>)
    requires size0 <= total <= |Line(s)| && 0 < total && size0 % ALLOC_SIZE == 0
    requires size0 + ALLOC_SIZE > ALLOC_LIMIT || !grants(size0 + ALLOC_SIZE)
    requires size0 + ALLOC_SIZE > ALLOC_LIMIT ==> total >= ALLOC_LIMIT
    ensures LineRead(s, end, grants, -1, rest)
  {
    var j := size0 / ALLOC_SIZE + 1;
    assert Grants(grants, j) == grants(size0 + ALLOC_SIZE);
  }

  lemma NothingHad(grants: nat -> bool)
    ensures Had(grants, 0)
  {
  }

  lemma SizeOfHad(grants: nat -> bool, size: nat)
    requires Had(grants, size)
    ensures size % ALLOC_SIZE == 0
  {
  }

  lemma HadMore(grants: nat -> bool, size: nat)
    requires Had(grants, size) && grants(size + ALLOC_SIZE)
    ensures Had(grants, size + ALLOC_SIZE)
  {
    forall j: nat | 0 < j && ALLOC_SIZE * j <= size + ALLOC_SIZE ensures Grants(grants, j) {
      assert ALLOC_SIZE * j <= size || ALLOC_SIZE * j == size + ALLOC_SIZE;
    }
  }

  lemma HeldArea(data: array?<byte>, size: nat, text: seq<byte>)
    requires AreaHolds(data, size, text)
    ensures data == null <==> text == []
    ensures data != null ==> data.Length == size && |text| < size && data[..|text|] == text && data[|text|] == NUL
    ensures data != null ==> data[|text| - 1] == text[|text| - 1]
  {
  }

  /** The next chunk, and what it means for the line. */
  method NextChunk(soc: Stream, buf: array<byte>, nowLen: nat, grants: nat -> bool,
                   ghost s: seq<byte>, ghost size: nat, ghost k: nat)
    returns (len: int)
    requires Between(s, nowLen, soc.data, size, soc.end, k) && nowLen <= |s| && buf.Length == ALLOC_SIZE
    requires Had(grants, size) && (nowLen > 0 ==> nowLen < size)
    modifies soc, buf
    ensures -1 <= len <= CHUNK
    ensures len == -1 ==> LineRead(s, soc.end, grants, -1, soc.data)
    ensures len == 0 ==> LineRead(s, soc.end, grants, nowLen, soc.data) && s[..nowLen] == Line(s)
    ensures len > 0 ==>
              && nowLen + len <= |s| && nowLen + len <= |Line(s)| && s[..nowLen] + buf[..len] == s[..nowLen + len]
              && soc.data == s[nowLen + len..] && |soc.data| < |old(soc.data)|
              && Grown(s, nowLen + len, size, soc.end, k)
    ensures len > 0 && s[nowLen + len - 1] == LF ==> Line(s) == s[..nowLen + len]
  {
    hide FrameLength, Line, Complete, LineBroken, AreaSize, Between, CutOff, LineRead, Grown, Had;
    BetweenMeans(s, nowLen, soc.data, size, soc.end, k);
    ghost var rest := soc.data;
    len := RecvOneLine1(soc, buf, ALLOC_SIZE);
    if len == -1 {
      BreakInChunk(s, nowLen, soc.end);
      BrokenRead(s, soc.end, grants, soc.data);
      return;
    }
    ChunkOfLine(s, nowLen, len);
    if len == 0 {
      WholeRead(s, nowLen, soc.end, grants, size, soc.data);
    } else {
      RoomBetween(s, nowLen, rest, size, soc.end, k, len);
    }
  }

  /** The chunk added to the area, or the reason why the line is given up. */
  method TakeChunk(data0: array?<byte>, size0: nat, nowLen: nat, buf: array<byte>, len: nat, grants: nat -> bool,
                   ghost s: seq<byte>, ghost soc: Stream, ghost k: nat)
    returns (data: array?<byte>, size: nat)
    requires nowLen <= |s| && AreaHolds(data0, size0, s[..nowLen]) && 0 < len <= buf.Length && data0 != buf
    requires nowLen + len <= |s| && nowLen + len <= |Line(s)| && s[..nowLen] + buf[..len] == s[..nowLen + len]
    requires Grown(s, nowLen + len, size0, soc.end, k) && Had(grants, size0)
    requires size0 <= ALLOC_LIMIT
    modifies if data0 == null then {} else {data0}
    ensures size == size0 + if nowLen + len >= size0 then ALLOC_SIZE else 0
    ensures data == null ==> LineRead(s, soc.end, grants, -1, soc.data)
    ensures data != null ==>
              && AreaHolds(data, size, s[..nowLen + len]) && (data == data0 || fresh(data))
              && Had(grants, size) && nowLen + len < size <= ALLOC_LIMIT && nowLen + len < ALLOC_LIMIT
  {
    hide Line, LineBroken, AreaSize, Between, LineRead, AreaHolds, Had, Grants;
    data, size := AddChunk(data0, size0, nowLen, buf, len, grants, s[..nowLen]);
    SizeOfHad(grants, size0);
    if data == null {
      Refused(s, soc.end, grants, size0, nowLen + len, soc.data);
    } else if size != size0 {
      HadMore(grants, size0);
    }
  }

  /** `recv_one_line_2`: the whole next line in an area of its own, terminated. It succeeds
      exactly when the line ends before the stream breaks, has at most 1048575 bytes, and none of
      the areas it needs is refused: 1024, 2048, ... bytes up to the first with room for it. */
  method RecvOneLine2(soc: Stream, grants: nat -> bool) returns (rv: int, data: array?<byte>)
    modifies soc
    ensures LineRead(old(soc.data), soc.end, grants, rv, soc.data)
    ensures rv < 1048576 && (|Line(old(soc.data))| >= 1048576 ==> rv == -1)
    ensures data == null <==> rv <= 0
    ensures data != null ==> fresh(data) && rv < data.Length <= ALLOC_LIMIT && data[rv] == NUL
                             && data[..rv] == Line(old(soc.data))
  {
    hide Line, LineBroken, AreaSize, Between, LineRead, AreaHolds, Frame, Had, Grants, FrameReply, CutOff;
    ghost var s := soc.data;
    var buf := new byte[ALLOC_SIZE];
    data := null;
    var size: nat, nowLen: nat := 0, 0;
    ghost var k: nat := 0;
    StartBetween(s, soc.end);
    NothingHad(grants);
    while true
      invariant Between(s, nowLen, soc.data, size, soc.end, k) && nowLen <= |s|
      invariant AreaHolds(data, size, s[..nowLen]) && fresh(buf)
      invariant (data != null ==> fresh(data) && data != buf) && size <= ALLOC_LIMIT
      invariant Had(grants, size) && (nowLen > 0 ==> nowLen < size)
      decreases |soc.data|
    {
      var len := NextChunk(soc, buf, nowLen, grants, s, size, k);
      if len == -1 {
        return -1, null;
      }
      if len == 0 {
        HeldArea(data, size, s[..nowLen]);
        return nowLen, data;
      }
      data, size := TakeChunk(data, size, nowLen, buf, len, grants, s, soc, k);
      if data == null {
        return -1, null;
      }
      nowLen := nowLen + len;
      HeldArea(data, size, s[..nowLen]);
      if data[nowLen - 1] == LF {
        LineEnds(s, nowLen, soc.end, grants, size);
        return nowLen, data;
      }
      k := k + 1;
    }
  }

  // ---- The echo loops ----

  const FIXED_BUFFER_SIZE: nat := 20
  const FRAME_MAX: nat := FIXED_BUFFER_SIZE - 1

  /** The replies of the fixed-buffer loop: one for each frame, the last one included when the
      peer closes in the middle of it. */
  function BlockReplies(s: seq<byte>, end: End): (r: seq<seq<byte>>)
    decreases |s|
  {
    if s == [] then []
    else
      var f := Frame(s, FRAME_MAX);
      if CutOff(f, FRAME_MAX, end) then [] else [FrameReply(f)] + BlockReplies(s[|f|..], end)
  }

  /** When the peer closes properly every frame is answered, in order. */
  lemma {:induction false} EveryFrameAnswered(s: seq<byte>)
    ensures |BlockReplies(s, Closed)| == |Frames(s, 19)|
    ensures forall i :: 0 <= i < |Frames(s, 19)| ==> BlockReplies(s, Closed)[i] == FrameReply(Frames(s, 19)[i])
    decreases |s|
  {
    if s != [] {
      EveryFrameAnswered(s[|Frame(s, FRAME_MAX)|..]);
    }
  }

  /** The replies of the growing-buffer loop: one for each line below the limit. */
  function LineReplies(s: seq<byte>, end: End): (r: seq<seq<byte>>)
    decreases |s|
  {
    if s == [] || |Line(s)| >= ALLOC_LIMIT || LineBroken(s, end) then []
    else [FrameReply(Line(s))] + LineReplies(s[|Line(s)|..], end)
  }

  /** What was handed to send when the loop ended: replies in order, up to the first failure. */
  predicate SentUntilFailure(sent: seq<seq<byte>>, replies: seq<seq<byte>>, sends: nat -> bool) {
    && sent <= replies
    && (forall k :: 0 <= k < |sent| - 1 ==> sends(k))
    && (sent == replies || (sent != [] && !sends(|sent| - 1)))
  }

  /** Cutting the line end off a received frame and printing "%s:OK\r\n". */
  method Respond(buf: array<byte>, n: nat) returns (reply: seq<byte>)
    requires n < buf.Length && buf[n] == NUL
    modifies buf
    ensures reply == FrameReply(old(buf[..n]))
  {
    TerminatedLine(buf[..], n);
    ghost var f := CutLine(buf[..]);
    assert buf[..][..n] == buf[..n];
    var ptr := StrPBrk(buf);
    if ptr != -1 {
      CutInPlace(buf[..], ptr);
      ghost var b := buf[..];
      buf[ptr] := NUL;
      assert buf[..] == b[ptr := NUL];
      assert NUL in buf[..] by { assert buf[..][ptr] == NUL; }
    }
    var len := StrLen(buf);
    assert buf[..len] == CStr(buf[..]) == f;
    reply := buf[..len] + OK_SUFFIX;
  }

  lemma AddReply(sent: seq<seq<byte>>, x: seq<byte>, rest: seq<seq<byte>>)
    ensures sent + ([x] + rest) == (sent + [x]) + rest
  {
  }

  lemma NoMore(end: End)
    ensures BlockReplies([], end) == [] && LineReplies([], end) == []
  {
  }

  lemma NextFrame(s: seq<byte>, end: End)
    ensures var f := Frame(s, FRAME_MAX);
            && (f == [] <==> s == []) && |f| <= FRAME_MAX && |f| <= |s|
            && (CutOff(f, FRAME_MAX, end) ==> BlockReplies(s, end) == [])
            && (!CutOff(f, FRAME_MAX, end) && f != [] ==>
                  BlockReplies(s, end) == [FrameReply(f)] + BlockReplies(s[|f|..], end))
  {
  }

  /** `send_recv_loop_1`. */
  method SendRecvLoop1(soc: Stream, sends: nat -> bool) returns (sent: seq<seq<byte>>)
    modifies soc
    ensures SentUntilFailure(sent, BlockReplies(old(soc.data), soc.end), sends)
  {
    hide Frame, BlockReplies, CutOff, FrameReply;
    ghost var all := BlockReplies(soc.data, soc.end);
    var buf := new byte[FIXED_BUFFER_SIZE];
    sent := [];
    while true
      invariant fresh(buf) && sent + BlockReplies(soc.data, soc.end) == all
      invariant forall k :: 0 <= k < |sent| ==> sends(k)
      decreases |soc.data|
    {
      NextFrame(soc.data, soc.end);
      NoMore(soc.end);
      ghost var rest := soc.data;
      var len := RecvOneLine1(soc, buf, FIXED_BUFFER_SIZE);
      if len == -1 {
        break;
      }
      if len == 0 {
        break;
      }
      var reply := Respond(buf, len);
      AddReply(sent, reply, BlockReplies(soc.data, soc.end));
      sent := sent + [reply];
      if !sends(|sent| - 1) {
        break;
      }
    }
  }

  /** When the peer closes properly every line is answered, in order, as long as none of them
      is too long. */
  lemma {:induction false} EveryLineAnswered(s: seq<byte>)
    requires forall f :: f in Frames(s, 1048576) ==> |f| < 1048576
    ensures |LineReplies(s, Closed)| == |Frames(s, 1048576)|
    ensures forall i :: 0 <= i < |Frames(s, 1048576)| ==>
              LineReplies(s, Closed)[i] == FrameReply(Frames(s, 1048576)[i])
    decreases |s|
  {
    if s != [] {
      hide FrameLength, FrameReply;
      var f := Frame(s, 1048576);
      var fs := Frames(s, 1048576);
      assert fs[0] == f && fs[0] in fs && fs[1..] == Frames(s[|f|..], 1048576);
      FrameOfLine(s, 1048576);
      assert Line(s) == f;
      EveryLineAnswered(s[|f|..]);
    }
  }

  lemma NextLine(s: seq<byte>, end: End, grants: nat -> bool, rv: int, rest: seq<byte>)
    requires LineRead(s, end, grants, rv, rest)
    ensures rv == 0 ==> LineReplies(s, end) == []
    ensures rv > 0 ==> LineReplies(s, end) == [FrameReply(Line(s))] + LineReplies(rest, end) && |rest| < |s|
    ensures rv == -1 && (forall n: nat :: grants(n)) ==> LineReplies(s, end) == []
    ensures rv == -1 || rv >= 0
  {
  }

  /** What the loop sends from its `k`-th round on: it ends where the stream does, at a line
      that breaks off or is too long, where an area for the line or for its reply is refused, or
      behind a failed send. */
  ghost function LoopSends(s: seq<byte>, end: End, grants: nat -> nat -> bool, sends: nat -> bool, k: nat)
    : (r: seq<seq<byte>>)
    decreases |s|
  {
    if s == [] || LineBroken(s, end) || |Line(s)| >= 1048576 || !Granted(grants(k), |Line(s)|)
       || !grants(k)(|FrameReply(Line(s))| + 1)
    then []
    else
      [FrameReply(Line(s))] + if sends(k) then LoopSends(s[|Line(s)|..], end, grants, sends, k + 1) else []
  }

  lemma LoopStep(s: seq<byte>, end: End, grants: nat -> nat -> bool, sends: nat -> bool, k: nat, rv: int,
                 rest: seq<byte>)
    requires LineRead(s, end, grants(k), rv, rest)
    ensures rv <= 0 ==> LoopSends(s, end, grants, sends, k) == []
    ensures rv > 0 ==>
              var x := FrameReply(Line(s));
              LoopSends(s, end, grants, sends, k)
              == if !grants(k)(|x| + 1) then []
                 else [x] + if sends(k) then LoopSends(rest, end, grants, sends, k + 1) else []
  {
    hide FrameReply;
  }

  /** `send_recv_loop_2`. `grants(i)` says which allocations succeed in round `i`. */
  method SendRecvLoop2(soc: Stream, grants: nat -> nat -> bool, sends: nat -> bool) returns (sent: seq<seq<byte>>)
    modifies soc
    ensures sent == LoopSends(old(soc.data), soc.end, grants, sends, 0)
    ensures sent <= LineReplies(old(soc.data), soc.end)
    ensures (forall i: nat, n: nat :: grants(i)(n)) ==>
              SentUntilFailure(sent, LineReplies(old(soc.data), soc.end), sends)
  {
    hide Line, LineReplies, LineRead, FrameReply, LoopSends;
    ghost var s, all := soc.data, LineReplies(soc.data, soc.end);
    sent := [];
    assert [] + LoopSends(s, soc.end, grants, sends, 0) == LoopSends(s, soc.end, grants, sends, 0);
    while true
      invariant sent + LineReplies(soc.data, soc.end) == all
      invariant sent + LoopSends(soc.data, soc.end, grants, sends, |sent|) == LoopSends(s, soc.end, grants, sends, 0)
      invariant forall k :: 0 <= k < |sent| ==> sends(k)
      decreases |soc.data|
    {
      ghost var rest := soc.data;
      var len, buf := RecvOneLine2(soc, grants(|sent|));
      NextLine(rest, soc.end, grants(|sent|), len, soc.data);
      LoopStep(rest, soc.end, grants, sends, |sent|, len, soc.data);
      if len == -1 {
        break;
      }
      if len == 0 {
        break;
      }
      assert buf[..len] == Line(rest);
      var reply := Respond(buf, len);
      // The second area: strlen(buf) + strlen(":OK\r\n") + 1 bytes.
      if !grants(|sent|)(|reply| + 1) {
        break;
      }
      AddReply(sent, reply, LineReplies(soc.data, soc.end));
      AddReply(sent, reply, LoopSends(soc.data, soc.end, grants, sends, |sent| + 1));
      AddReply(sent, reply, []);
      sent := sent + [reply];
      if !sends(|sent| - 1) {
        break;
      }
    }
  }
}
