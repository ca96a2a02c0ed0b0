/** The request reader of httpd/httpd2.c: lines cut up in place, strings and header nodes on the
    heap, a list that grows at its head, and the walk that frees it. */
module HttpReader {
  import opened CStrings
  import opened LineFraming
  import opened HttpSpec

  /** The stdio stream of a connection. */
  class File {
    var data: seq<byte>

    /** fgets: at most size - 1 bytes, up to a LF. */
    method Fgets(buf: array<byte>, size: nat) returns (ok: bool)
      requires 2 <= size <= buf.Length
      modifies this, buf
      ensures var f := Frame(old(data), size - 1);
              && (ok <==> f != []) && data == old(data)[|f|..]
              && (ok ==> buf[..|f|] == f && buf[|f|] == NUL)
    {
      var n := FrameLength(data, size - 1);
      if n == 0 {
        return false;
      }
      forall k | 0 <= k < n {
        buf[k] := data[k];
      }
      buf[n] := NUL;
      assert buf[..n] == data[..n];
      data := data[n..];
      ok := true;
    }

    /** fread of one item of `size` bytes. */
    method Fread(buf: array<byte>, size: nat) returns (items: nat)
      requires 0 < size == buf.Length
      modifies this, buf
      ensures items == if |old(data)| >= size then 1 else 0
      ensures items == 1 ==> buf[..] == old(data)[..size] && data == old(data)[size..]
    {
      if |data| < size {
        data := [];
        return 0;
      }
      forall k | 0 <= k < size {
        buf[k] := data[k];
      }
      assert buf[..] == data[..size];
      data := data[size..];
      items := 1;
    }
  }

  /** The blocks handed out by xmalloc and not yet freed. */
  class Memory {
    var live: set<object>

    method Track(block: object)
      requires block !in live
      modifies this
      ensures live == old(live) + {block}
    {
      live := live + {block};
    }

    /** free: only what is live, so nothing is freed twice. */
    method Free(block: object)
      requires block in live
      modifies this
      ensures live == old(live) - {block}
    {
      live := live - {block};
    }
  }

  // ---- Strings in place ----

  /** The C string from an index on. */
  function StringAt(b: seq<byte>, i: nat): (s: seq<byte>)
    requires i <= |b|
  {
    CStr(b[i..])
  }

  /** strchr: the first occurrence in the C string, or -1. */
  method StrChr(buf: array<byte>, from: nat, b: byte) returns (i: int)
    requires from <= buf.Length && NUL in buf[from..] && b != NUL
    ensures var l := StringAt(buf[..], from); var m := Before(l, b);
            i == if |m| == |l| then -1 else from + |m|
    ensures from + |StringAt(buf[..], from)| < buf.Length
  {
    ghost var s := buf[..][from..];
    assert s == buf[from..];
    Terminated(s);
    ghost var l := CStr(s);
    i := from;
    while buf[i] != b
      invariant from <= i <= from + |l|
      invariant forall k :: 0 <= k < i - from ==> l[k] != b
      decreases from + |l| - i
    {
      assert s[i - from] == buf[i];
      if buf[i] == NUL {
        UntilIs(l, {b}, |l|);
        return -1;
      }
      assert i - from < |l| ==> l[i - from] == buf[i];
      i := i + 1;
    }
    assert s[i - from] == b;
    UntilIs(l, {b}, i - from);
  }

  /** Ending the string at the byte found leaves what precedes it, and what follows it. */
  lemma SplitAt(s: seq<byte>, from: nat, m: nat)
    requires from + m < |s| && m < |StringAt(s, from)|
    ensures var t := s[from + m := NUL];
            && StringAt(t, from) == StringAt(s, from)[..m]
            && StringAt(t, from + m + 1) == StringAt(s, from)[m + 1..]
            && (NUL in s[from..] ==> NUL in t[from..] && NUL in t[from + m + 1..])
  {
    hide Until;
    var t, l := s[from + m := NUL], StringAt(s, from);
    assert forall k :: 0 <= k < |l| ==> l[k] == s[from + k] && l[k] != NUL;
    UntilIs(t[from..], {NUL}, m);
    assert t[from..][..m] == l[..m];
    assert t[from..][m] == NUL;
    UntilIs(t[from + m + 1..], {NUL}, |l| - m - 1);
    assert t[from + m + 1..][..|l| - m - 1] == l[m + 1..];
    if NUL in s[from..] {
      Terminated(s[from..]);
      assert t[from + m + 1..][|l| - m - 1] == s[from..][|l|];
    }
  }

  /** The C string of a text that holds a NUL. */
  lemma StringEnds(l: seq<byte>)
    requires NUL in l
    ensures var n := |CStr(l)|; n < |l| && l[n] == NUL && CStr(l) == l[..n] && forall k :: 0 <= k < n ==> l[k] != NUL
  {
    Terminated(l);
  }

  lemma StringIs(a: seq<byte>, n: nat)
    requires n < |a| && a[n] == NUL && forall k :: 0 <= k < n ==> a[k] != NUL
    ensures CStr(a) == a[..n]
  {
    UntilIs(a, {NUL}, n);
  }

  /** xmalloc of strlen + 1 bytes and strcpy into it. */
  method CopyString(buf: array<byte>, from: nat, n: nat, mem: Memory) returns (s: array<byte>)
    requires from <= buf.Length && NUL in buf[from..] && n == |StringAt(buf[..], from)|
    modifies mem
    ensures fresh(s) && s.Length == n + 1 && CStr(s[..]) == StringAt(buf[..], from) && s[n] == NUL
    ensures mem.live == old(mem.live) + {s}
  {
    hide CStr;
    ghost var l := buf[..][from..];
    assert l == buf[from..];
    StringEnds(l);
    s := new byte[n + 1];
    mem.Track(s);
    var i := 0;
    while buf[from + i] != NUL
      invariant 0 <= i <= n && mem.live == old(mem.live) + {s}
      invariant forall k :: 0 <= k < i ==> s[k] == l[k]
      decreases n - i
    {
      assert l[i] == buf[from + i];
      s[i] := buf[from + i];
      i := i + 1;
    }
    assert l[i] == NUL && i == n;
    s[i] := NUL;
    StringIs(s[..], n);
    assert s[..][..n] == l[..n];
  }

  /** `upcase`, in place. */
  method Upcase(str: array<byte>)
    requires NUL in str[..]
    modifies str
    ensures CStr(str[..]) == Up(old(CStr(str[..])))
  {
    hide CStr;
    ghost var s := str[..];
    StringEnds(s);
    ghost var l := CStr(s);
    var p := 0;
    while str[p] != NUL
      invariant 0 <= p <= |l|
      invariant forall k :: 0 <= k < p ==> str[k] == UpByte(l[k]) != NUL
      invariant forall k :: p <= k < str.Length ==> str[k] == s[k]
      decreases |l| - p
    {
      str[p] := UpByte(str[p]);
      p := p + 1;
    }
    assert p == |l|;
    StringIs(str[..], p);
    assert str[..][..p] == Up(l);
  }

  // ---- The request line ----

  /** The C string from `p` on, for the library functions that only read it. */
  method Rest(buf: array<byte>, p: nat) returns (s: seq<byte>)
    requires p <= buf.Length && NUL in buf[p..]
    ensures s == StringAt(buf[..], p)
  {
    ghost var l := buf[..][p..];
    assert l == buf[p..];
    Terminated(l);
    var i := p;
    while buf[i] != NUL
      invariant p <= i <= p + |CStr(l)|
      decreases p + |CStr(l)| - i
    {
      assert l[i - p] == buf[i];
      i := i + 1;
    }
    assert l[i - p] == NUL;
    UntilIs(l, {NUL}, i - p);
    s := buf[p..i];
  }

  /** strchr for a separator, the NUL put there, and the string in front of it copied. */
  method CutAndCopy(buf: array<byte>, from: nat, b: byte, mem: Memory) returns (s: array?<byte>, p: nat)
    requires from <= buf.Length && NUL in buf[from..] && b != NUL
    modifies buf, mem
    ensures var l := old(StringAt(buf[..], from)); var m := Before(l, b);
            if |m| == |l| then s == null && mem.live == old(mem.live)
            else
              && s != null && fresh(s) && NUL in s[..] && CStr(s[..]) == m
              && mem.live == old(mem.live) + {s}
              && p <= buf.Length && NUL in buf[p..] && StringAt(buf[..], p) == l[|m| + 1..]
  {
    hide Until, CStr, StringAt;
    ghost var was := buf[..];
    assert was[from..] == buf[from..];
    p := 0;
    var i := StrChr(buf, from, b);
    if i == -1 {
      return null, 0;
    }
    SplitAt(was, from, i - from);
    buf[i] := NUL;
    assert buf[..] == was[i := NUL];
    assert buf[..][from..] == buf[from..] && buf[..][i + 1..] == buf[i + 1..];
    var c := CopyString(buf, from, i - from, mem);
    assert NUL in c[..] by { assert c[..][i - from] == NUL; }
    s, p := c, i + 1;
  }

  /** fgets into a line buffer: the C string found there. */
  method ReadLine(in_: File, buf: array<byte>) returns (ok: bool)
    requires buf.Length == LINE_BUF_SIZE
    modifies in_, buf
    ensures var f := Frame(old(in_.data), LINE_MAX);
            && (ok <==> f != []) && in_.data == old(in_.data)[|f|..]
            && (ok ==> StringAt(buf[..], 0) == CStr(f) && NUL in buf[0..] && buf[0] == f[0])
  {
    ghost var f := Frame(in_.data, LINE_MAX);
    ok := in_.Fgets(buf, LINE_BUF_SIZE);
    if ok {
      assert buf[..][0..] == buf[..] == buf[0..];
      assert buf[..][..|f|] == f && buf[..][|f|] == NUL;
      LineString(buf[..], f);
    }
  }

  lemma LineString(b: seq<byte>, f: seq<byte>)
    requires |f| < |b| && b[..|f|] == f && b[|f|] == NUL
    ensures CStr(b) == CStr(f) && NUL in b && (f != [] ==> b[0] == f[0])
  {
    var l := CStr(f);
    assert forall k :: 0 <= k < |f| ==> b[k] == f[k];
    UntilIs(b, {NUL}, |l|);
  }

  /** struct HTTPHeaderField. */
  class HeaderField {
    const name: array<byte>
    const value: array<byte>
    var next: HeaderField?

    constructor (name: array<byte>, value: array<byte>)
      ensures this.name == name && this.value == value
    {
      this.name, this.value, next := name, value, null;
    }
  }

  /** struct HTTPRequest. */
  class RequestBlock {
    var minor: int
    var method_: array?<byte>
    var path: array?<byte>
    var header: HeaderField?
    var body: array?<byte>
    var length: int
    ghost var list: seq<HeaderField>

    constructor ()
      ensures method_ == null && path == null && header == null && body == null && list == []
    {
      minor, method_, path, header, body, length, list := 0, null, null, null, null, 0, [];
    }
  }

  /** `read_request_line`. */
  method ReadRequestLine(req: RequestBlock, in_: File, mem: Memory) returns (r: Result<()>)
    modifies req, in_, mem
    ensures req.header == old(req.header) && req.body == old(req.body) && req.list == old(req.list)
    ensures var f := Frame(old(in_.data), LINE_MAX);
            && in_.data == old(in_.data)[|f|..]
            && (f == [] ==> r == Err(NoRequestLine))
            && (f != [] ==>
                  match RequestLine(CStr(f))
                  case Err(e) => r == Err(e)
                  case Ok(v) =>
                    && r.Ok? && req.minor == v.minor
                    && req.method_ != null && fresh(req.method_) && CStr(req.method_[..]) == v.method_
                    && req.path != null && fresh(req.path) && CStr(req.path[..]) == v.path
                    && mem.live == old(mem.live) + {req.method_, req.path} && req.method_ != req.path)
  {
    hide CStr, StringAt, Before, FrameLength, Atol;
    ghost var line := CStr(Frame(in_.data, LINE_MAX));
    var buf := new byte[LINE_BUF_SIZE];
    var ok := ReadLine(in_, buf);
    if !ok {
      return Err(NoRequestLine);
    }
    var m, p := CutAndCopy(buf, 0, SPACE, mem);
    if m == null {
      return Err(BadLine1);
    }
    Upcase(m);
    req.method_ := m;
    var path, q := CutAndCopy(buf, p, SPACE, mem);
    if path == null {
      return Err(BadLine2);
    }
    req.path := path;
    var v := Rest(buf, q);
    if |v| < 7 || Up(v[..7]) != VERSION {
      return Err(BadLine3);
    }
    req.minor := Atol(v[7..]);
    r := Ok(());
  }

  /** strcmp(buf, "\r\n") == 0. */
  lemma CrLfString(s: seq<byte>)
    requires NUL in s
    ensures CStr(s) == CRLF <==> |s| >= 3 && s[0] == CR && s[1] == LF && s[2] == NUL
  {
    if |s| >= 3 && s[0] == CR && s[1] == LF && s[2] == NUL {
      UntilIs(s, {NUL}, 2);
    }
    if CStr(s) == CRLF {
      Terminated(s);
      assert s[0] == CStr(s)[0] && s[1] == CStr(s)[1];
    }
  }

  /** The test for the line that ends the header. */
  method IsEmptyLine(buf: array<byte>, ghost f: seq<byte>) returns (b: bool)
    requires f != [] && NUL in buf[0..] && StringAt(buf[..], 0) == CStr(f) && buf[0] == f[0] && buf.Length >= 3
    ensures b <==> Blank(f)
  {
    hide CStr;
    assert buf[..][0..] == buf[..] == buf[0..];
    CrLfString(buf[..]);
    b := buf[0] == LF || (buf[0] == CR && buf[1] == LF && buf[2] == NUL);
  }

  /** `read_header_field`: null at the empty line. */
  method ReadHeaderField(in_: File, mem: Memory) returns (r: Result<HeaderField?>)
    modifies in_, mem
    ensures var f := Frame(old(in_.data), LINE_MAX);
            && in_.data == old(in_.data)[|f|..]
            && (f == [] ==> r == Err(NoHeader))
            && (f != [] && Blank(f) ==> r == Ok(null) && mem.live == old(mem.live))
            && (f != [] && !Blank(f) ==>
                  match HeaderLine(CStr(f))
                  case Err(e) => r == Err(e)
                  case Ok(v) =>
                    && r.Ok? && r.value != null && IsNode(r.value, v)
                    && fresh(r.value) && fresh(r.value.name) && fresh(r.value.value)
                    && mem.live == old(mem.live) + {r.value, r.value.name, r.value.value})
  {
    hide CStr, StringAt, Before, FrameLength, SkipBlank, Blank;
    ghost var f := Frame(in_.data, LINE_MAX);
    var buf := new byte[LINE_BUF_SIZE];
    var ok := ReadLine(in_, buf);
    if !ok {
      return Err(NoHeader);
    }
    var blank := IsEmptyLine(buf, f);
    if blank {
      return Ok(null);
    }
    var name, p := CutAndCopy(buf, 0, COLON, mem);
    if name == null {
      return Err(BadHeader);
    }
    var value := CopyValue(buf, p, mem);
    var h := new HeaderField(name, value);
    mem.Track(h);
    r := Ok(h);
  }

  predicate IsNode(h: HeaderField, v: Field)
    reads h.name, h.value
  {
    CStr(h.name[..]) == v.name && CStr(h.value[..]) == v.value && h.name != h.value
  }

  /** The value behind the colon, without the blanks in front of it. */
  method CopyValue(buf: array<byte>, p0: nat, mem: Memory) returns (value: array<byte>)
    requires p0 <= buf.Length && NUL in buf[p0..]
    modifies mem
    ensures fresh(value) && CStr(value[..]) == SkipBlank(StringAt(buf[..], p0))
    ensures mem.live == old(mem.live) + {value}
  {
    hide StringAt, SkipBlank;
    ghost var b := buf[..];
    ghost var l := StringAt(b, p0);
    var p := p0;
    assert b[p0..] == buf[p0..];
    while buf[p] == SPACE || buf[p] == TAB
      invariant p0 <= p < buf.Length && NUL in b[p..] && mem.live == old(mem.live)
      invariant SkipBlank(StringAt(b, p)) == SkipBlank(l)
      decreases buf.Length - p
    {
      SkipStep(b, p);
      p := p + 1;
    }
    SkipEnd(b, p);
    assert b[p..] == buf[p..];
    var rest := Rest(buf, p);
    value := CopyString(buf, p, |rest|, mem);
  }

  lemma SkipStep(b: seq<byte>, p: nat)
    requires p < |b| && b[p] in {SPACE, TAB} && NUL in b[p..]
    ensures StringAt(b, p) == [b[p]] + StringAt(b, p + 1)
    ensures SkipBlank(StringAt(b, p)) == SkipBlank(StringAt(b, p + 1))
    ensures NUL in b[p + 1..] && p + 1 < |b|
  {
    assert b[p..][1..] == b[p + 1..];
    assert b[p..] == [b[p]] + b[p + 1..];
    assert StringAt(b, p)[1..] == StringAt(b, p + 1);
  }

  lemma SkipEnd(b: seq<byte>, p: nat)
    requires p < |b| && b[p] !in {SPACE, TAB}
    ensures SkipBlank(StringAt(b, p)) == StringAt(b, p)
  {
    assert StringAt(b, p) != [] ==> StringAt(b, p)[0] == b[p];
  }

  // ---- The list of header fields ----

  /** `list` is what `next` leads through from `h`. */
  predicate Chain(h: HeaderField?, list: seq<HeaderField>)
    reads set x | x in list
    decreases |list|
  {
    if list == [] then h == null else h == list[0] && Chain(list[0].next, list[1..])
  }

  /** The fields as the list shows them. */
  function FieldsOf(list: seq<HeaderField>): (fields: seq<Field>)
    reads set x | x in list :: x.name
    reads set x | x in list :: x.value
    decreases |list|
  {
    if list == [] then []
    else [Field(CStr(list[0].name[..]), CStr(list[0].value[..]))] + FieldsOf(list[1..])
  }

  /** The heap blocks of a list: nodes, names and values. */
  function BlocksOf(list: seq<HeaderField>): (blocks: set<object>) {
    if list == [] then {} else {list[0], list[0].name, list[0].value} + BlocksOf(list[1..])
  }

  /** All of them are different blocks. */
  predicate Separate(list: seq<HeaderField>) {
    list == [] || (
      && list[0].name != list[0].value
      && {list[0], list[0].name, list[0].value} !! BlocksOf(list[1..])
      && Separate(list[1..]))
  }

  lemma {:induction false} NodesInBlocks(list: seq<HeaderField>)
    ensures forall x :: x in list ==> x in BlocksOf(list)
    decreases |list|
  {
    if list != [] {
      NodesInBlocks(list[1..]);
      assert list == [list[0]] + list[1..];
    }
  }

  /** Putting a node in front. */
  lemma ListMore(h: HeaderField, list: seq<HeaderField>)
    requires Chain(h.next, list) && Separate(list) && h.name != h.value
    requires {h, h.name, h.value} !! BlocksOf(list)
    ensures Chain(h, [h] + list) && Separate([h] + list)
    ensures BlocksOf([h] + list) == {h, h.name, h.value} + BlocksOf(list)
    ensures FieldsOf([h] + list) == [Field(CStr(h.name[..]), CStr(h.value[..]))] + FieldsOf(list)
  {
    assert ([h] + list)[1..] == list;
  }

  /** What a read request owns. */
  ghost function Blocks(req: RequestBlock): (blocks: set<object>)
    reads req
  {
    {req} + BlocksOf(req.list)
    + (if req.method_ == null then {} else {req.method_})
    + (if req.path == null then {} else {req.path})
    + (if req.body == null then {} else {req.body})
  }

  /** The request block as a value. */
  ghost predicate Represents(req: RequestBlock, v: Request)
    reads req, req.method_, req.path, req.body
    reads set x | x in req.list
    reads set x | x in req.list :: x.name
    reads set x | x in req.list :: x.value
  {
    && Chain(req.header, req.list) && Separate(req.list) && FieldsOf(req.list) == v.fields
    && req.minor == v.minor && req.length == v.length
    && req.method_ != null && CStr(req.method_[..]) == v.method_
    && req.path != null && CStr(req.path[..]) == v.path
    && (if v.length == 0 then req.body == null && v.body == [] else req.body != null && req.body[..] == v.body)
  }

  /** A well-formed list in new blocks, which are all that has been added to `live0`. */
  ghost predicate Listed(req: RequestBlock, mem: Memory, live0: set<object>)
    reads req, mem
    reads set x | x in req.list
  {
    && Chain(req.header, req.list) && Separate(req.list)
    && BlocksOf(req.list) !! live0 && mem.live == live0 + BlocksOf(req.list)
    && forall x :: x in req.list ==> x in BlocksOf(req.list)
  }

  /** h->next = req->header; req->header = h. */
  method PutInFront(req: RequestBlock, h: HeaderField, mem: Memory, ghost live0: set<object>, ghost v: Field)
    requires IsNode(h, v) && Chain(req.header, req.list) && Separate(req.list)
    requires BlocksOf(req.list) !! live0 && {h, h.name, h.value} !! live0 + BlocksOf(req.list) && h !in req.list
    requires mem.live == live0 + BlocksOf(req.list) + {h, h.name, h.value}
    modifies req`header, req`list, h`next
    ensures Listed(req, mem, live0)
    ensures BlocksOf(req.list) == {h, h.name, h.value} + old(BlocksOf(req.list))
    ensures FieldsOf(req.list) == [v] + old(FieldsOf(req.list))
  {
    hide FieldsOf, BlocksOf;
    h.next := req.header;
    req.header := h;
    ListMore(h, req.list);
    req.list := [h] + req.list;
    NodesInBlocks(req.list);
  }

  /** One more line of the header part. */
  lemma HeadersOnce(s: seq<byte>, fields: seq<Field>)
    ensures var f := Frame(s, LINE_MAX); var line := HeaderLine(CStr(f));
            && |s[|f|..]| == |s| - |f|
            && (f == [] ==> Headers(s, fields) == Err(NoHeader))
            && (f != [] && Blank(f) ==> Headers(s, fields) == Ok(Lines(fields, s[|f|..])))
            && (f != [] && !Blank(f) && line.Err? ==> Headers(s, fields) == Err(line.error))
            && (f != [] && !Blank(f) && line.Ok? ==> Headers(s, fields) == Headers(s[|f|..], [line.value] + fields))
  {
  }

  /** One turn of the loop of `read_request` over header fields. */
  method OneHeader(req: RequestBlock, in_: File, mem: Memory, ghost live0: set<object>) returns (r: Result<bool>)
    requires Listed(req, mem, live0)
    modifies req`header, req`list, in_, mem
    ensures r.Err? ==> Headers(old(in_.data), old(FieldsOf(req.list))) == Err(r.error)
    ensures r == Ok(false) ==>
              && Headers(old(in_.data), old(FieldsOf(req.list))) == Ok(Lines(FieldsOf(req.list), in_.data))
              && req.list == old(req.list) && Listed(req, mem, live0)
    ensures r == Ok(true) ==>
              && Headers(old(in_.data), old(FieldsOf(req.list))) == Headers(in_.data, FieldsOf(req.list))
              && Listed(req, mem, live0) && |in_.data| < |old(in_.data)|
              && fresh(BlocksOf(req.list) - old(BlocksOf(req.list)))
  {
    hide Headers, HeaderLine, Blank, FieldsOf, BlocksOf, Separate, Chain, FrameLength, CStr;
    ghost var s, fields, list := in_.data, FieldsOf(req.list), req.list;
    HeadersOnce(s, fields);
    ghost var f := Frame(s, LINE_MAX);
    var h := ReadHeaderField(in_, mem);
    assert FieldsOf(req.list) == fields;
    if h.Err? {
      return Err(h.error);
    }
    if h.value == null {
      return Ok(false);
    }
    PutInFront(req, h.value, mem, live0, HeaderLine(CStr(f)).value);
    r := Ok(true);
  }

  /** The header part of `read_request`. */
  method ReadHeaders(req: RequestBlock, in_: File, mem: Memory) returns (r: Result<()>)
    requires req.header == null && req.list == []
    modifies req`header, req`list, in_, mem
    ensures var want := Headers(old(in_.data), []);
            && (want.Err? ==> r == Err(want.error))
            && (want.Ok? ==>
                  && r.Ok? && in_.data == want.value.rest && FieldsOf(req.list) == want.value.fields
                  && Listed(req, mem, old(mem.live)) && fresh(BlocksOf(req.list)))
  {
    ghost var all := Headers(in_.data, []);
    EmptyList(req, mem);
    hide Headers, FieldsOf, BlocksOf, Separate, Chain, Listed;
    while true
      invariant Listed(req, mem, old(mem.live)) && fresh(BlocksOf(req.list))
      invariant Headers(in_.data, FieldsOf(req.list)) == all
      decreases |in_.data|
    {
      var more := OneHeader(req, in_, mem, old(mem.live));
      if more.Err? {
        return Err(more.error);
      }
      if !more.value {
        return Ok(());
      }
    }
  }

  lemma EmptyList(req: RequestBlock, mem: Memory)
    requires req.header == null && req.list == []
    ensures Listed(req, mem, mem.live) && FieldsOf(req.list) == [] && BlocksOf(req.list) == {}
  {
    assert mem.live + {} == mem.live;
  }

  /** `lookup_header_field_value`, for a name given in upper case. */
  method LookupValue(header: HeaderField?, name: seq<byte>, ghost list: seq<HeaderField>) returns (value: array?<byte>)
    requires Chain(header, list)
    ensures var want := Lookup(FieldsOf(list), name);
            if want.Err? then value == null else value != null && CStr(value[..]) == want.value
  {
    var h := header;
    ghost var rest := list;
    while h != null
      invariant Chain(h, rest) && Lookup(FieldsOf(rest), name) == Lookup(FieldsOf(list), name)
      decreases |rest|
    {
      assert FieldsOf(rest)[1..] == FieldsOf(rest[1..]);
      // strcasecmp(h->name, name) == 0
      if Up(CStr(h.name[..])) == name {
        return h.value;
      }
      h := h.next;
      rest := rest[1..];
    }
    value := null;
  }

  /** `content_length`. */
  method ReadContentLength(req: RequestBlock) returns (r: Result<nat>)
    requires Chain(req.header, req.list)
    ensures r == ContentLength(FieldsOf(req.list))
  {
    hide CStr, Atol, Lookup, FieldsOf;
    var val := LookupValue(req.header, CONTENT_LENGTH, req.list);
    if val == null {
      return Ok(0);
    }
    var len := Atol(CStr(val[..]));
    if len < 0 {
      return Err(NegativeLength);
    }
    r := Ok(len);
  }

  /** The four blocks of a request besides its list: different from each other and from it. */
  ghost predicate Apart(req: RequestBlock)
    reads req
  {
    && Separate(req.list)
    && req.method_ != null && req.path != null && req.method_ != req.path
    && req.body != req.method_ && req.body != req.path
    && req !in BlocksOf(req.list) && req.method_ !in BlocksOf(req.list) && req.path !in BlocksOf(req.list)
    && (req.body != null ==> req.body !in BlocksOf(req.list))
  }

  /** The walk of `free_request` over the header list: each node, name and value once. */
  method FreeList(header: HeaderField?, mem: Memory, ghost list: seq<HeaderField>, ghost kept: set<object>)
    requires Chain(header, list) && Separate(list) && BlocksOf(list) !! kept && mem.live == kept + BlocksOf(list)
    modifies mem
    ensures mem.live == kept
  {
    hide BlocksOf;
    var head := header;
    ghost var rest := list;
    EmptyBlocks();
    while head != null
      invariant Chain(head, rest) && Separate(rest) && BlocksOf(rest) !! kept && mem.live == kept + BlocksOf(rest)
      decreases |rest|
    {
      FirstBlocks(rest);
      var h := head;
      head := head.next;
      mem.Free(h.name);
      mem.Free(h.value);
      mem.Free(h);
      TakeThree(kept, BlocksOf(rest[1..]), h.name, h.value, h);
      rest := rest[1..];
    }
    assert kept + {} == kept;
  }

  lemma EmptyBlocks()
    ensures BlocksOf([]) == {}
  {
  }

  lemma FirstBlocks(list: seq<HeaderField>)
    requires list != [] && Separate(list)
    ensures BlocksOf(list) == {list[0], list[0].name, list[0].value} + BlocksOf(list[1..])
    ensures {list[0], list[0].name, list[0].value} !! BlocksOf(list[1..]) && list[0].name != list[0].value
  {
  }

  lemma TakeThree(kept: set<object>, rest: set<object>, a: object, b: object, c: object)
    requires {a, b, c} !! kept + rest
    ensures kept + ({c, a, b} + rest) - {a} - {b} - {c} == kept + rest
  {
  }

  /** `free_request`. */
  method FreeRequest(req: RequestBlock, mem: Memory, ghost kept: set<object>)
    requires Chain(req.header, req.list) && Apart(req)
    requires Blocks(req) !! kept && mem.live == kept + Blocks(req)
    modifies mem
    ensures mem.live == kept
  {
    hide BlocksOf;
    ghost var rest: set<object> := {req, req.method_, req.path} + if req.body == null then {} else {req.body};
    assert Blocks(req) == BlocksOf(req.list) + rest;
    assert BlocksOf(req.list) !! rest;
    assert mem.live == (kept + rest) + BlocksOf(req.list);
    FreeList(req.header, mem, req.list, kept + rest);
    assert mem.live == kept + rest;
    mem.Free(req.method_);
    mem.Free(req.path);
    if req.body != null {
      mem.Free(req.body);
    }
    mem.Free(req);
  }

  /** The body of `read_request`. */
  method ReadBody(req: RequestBlock, length: nat, in_: File, mem: Memory) returns (r: Result<()>)
    modifies req`length, req`body, in_, mem
    ensures var s := old(in_.data);
            && (length == 0 ==> r == Ok(()) && req.body == null && in_.data == s && mem.live == old(mem.live))
            && (length > MAX_REQUEST_BODY_LENGTH ==> r == Err(BodyTooLong))
            && (0 < length <= MAX_REQUEST_BODY_LENGTH && |s| < length ==> r == Err(ShortBody))
            && (0 < length <= MAX_REQUEST_BODY_LENGTH && |s| >= length ==>
                  && r == Ok(()) && req.body != null && fresh(req.body) && req.body[..] == s[..length]
                  && in_.data == s[length..] && mem.live == old(mem.live) + {req.body})
    ensures req.length == length
  {
    req.length := length;
    r := Ok(());
    if length != 0 {
      if length > MAX_REQUEST_BODY_LENGTH {
        return Err(BodyTooLong);
      }
      var body := new byte[length];
      mem.Track(body);
      req.body := body;
      var items := in_.Fread(body, length);
      if items < 1 {
        return Err(ShortBody);
      }
    } else {
      req.body := null;
    }
  }

  /** `read_request` is in three parts: the line, the fields, the body. */
  lemma ReadInParts(s: seq<byte>)
    ensures var f := Frame(s, LINE_MAX); var line := RequestLine(CStr(f)); var lines := Headers(s[|f|..], []);
            && (f == [] ==> Read(s) == Err(NoRequestLine))
            && (f != [] && line.Err? ==> Read(s) == Err(line.error))
            && (f != [] && line.Ok? && lines.Err? ==> Read(s) == Err(lines.error))
            && (f != [] && line.Ok? && lines.Ok? ==>
                  var n := ContentLength(lines.value.fields);
                  && (n.Err? ==> Read(s) == Err(n.error))
                  && (n.Ok? ==>
                      Read(s) == WithBody(line.value.(fields := lines.value.fields), n.value, lines.value.rest)))
  {
  }

  /** The request line says nothing about fields and body. */
  lemma BareLine(line: seq<byte>)
    requires RequestLine(line).Ok?
    ensures var v := RequestLine(line).value; v.fields == [] && v.length == 0 && v.body == []
  {
  }

  /** What a request that has been read looks like in memory. */
  ghost predicate Owned(req: RequestBlock, mem: Memory, live0: set<object>)
    reads req, mem
    reads set x | x in req.list
  {
    && Chain(req.header, req.list) && Apart(req)
    && Blocks(req) !! live0 && mem.live == live0 + Blocks(req)
  }

  /** The request line and the header fields. */
  method ReadHead(req: RequestBlock, in_: File, mem: Memory, ghost live0: set<object>) returns (r: Result<()>)
    requires req.header == null && req.body == null && req.list == [] && req.method_ == null && req.path == null
    requires req !in live0 && mem.live == live0 + {req}
    modifies req, in_, mem
    ensures var f := Frame(old(in_.data), LINE_MAX);
            var line := RequestLine(CStr(f));
            var lines := Headers(old(in_.data)[|f|..], []);
            && (f == [] ==> r == Err(NoRequestLine))
            && (f != [] && line.Err? ==> r == Err(line.error))
            && (f != [] && line.Ok? && lines.Err? ==> r == Err(lines.error))
            && (f != [] && line.Ok? && lines.Ok? ==>
                  && r.Ok? && in_.data == lines.value.rest && FieldsOf(req.list) == lines.value.fields
                  && req.minor == line.value.minor && req.body == null
                  && req.method_ != null && CStr(req.method_[..]) == line.value.method_
                  && req.path != null && CStr(req.path[..]) == line.value.path
                  && Owned(req, mem, live0))
  {
    hide RequestLine, Headers, CStr, FieldsOf, BlocksOf, Chain, FrameLength, Separate;
    ghost var f := Frame(in_.data, LINE_MAX);
    var line := ReadRequestLine(req, in_, mem);
    if line.Err? {
      return Err(line.error);
    }
    req.header := null;
    ghost var live1 := mem.live;
    assert live1 == live0 + {req} + {req.method_, req.path};
    r := ReadHeaders(req, in_, mem);
    if r.Ok? {
      assert Blocks(req) == {req} + BlocksOf(req.list) + {req.method_} + {req.path} + {};
      assert req in live1 && req.method_ in live1 && req.path in live1;
    }
  }

  /** A body in a block of its own leaves the rest of the request as it is. */
  lemma BodyOwned(req: RequestBlock, live0: set<object>, live1: set<object>, before: set<object>)
    requires Chain(req.header, req.list) && Separate(req.list)
    requires req.method_ != null && req.path != null && req.method_ != req.path
    requires req !in BlocksOf(req.list) && req.method_ !in BlocksOf(req.list) && req.path !in BlocksOf(req.list)
    requires before == {req} + BlocksOf(req.list) + {req.method_} + {req.path}
    requires before !! live0 && live1 == live0 + before
    requires req.body != null ==> req.body !in live1
    ensures Apart(req) && Blocks(req) !! live0
    ensures live1 + (if req.body == null then {} else {req.body}) == live0 + Blocks(req)
  {
  }

  /** `read_request`: the whole request in new blocks, and not a byte read beyond it. */
  method ReadRequest(in_: File, mem: Memory) returns (r: Result<RequestBlock>)
    modifies in_, mem
    ensures var want := Read(old(in_.data));
            && (want.Err? ==> r == Err(want.error))
            && (want.Ok? ==>
                  && r.Ok? && fresh(r.value) && in_.data == want.value.rest
                  && Represents(r.value, want.value.request)
                  && Owned(r.value, mem, old(mem.live)))
  {
    hide RequestLine, Headers, CStr, FieldsOf, BlocksOf, Chain, FrameLength, Frame, Separate, Read, ContentLength;
    ghost var s, live0 := in_.data, mem.live;
    ReadInParts(s);
    ghost var f := Frame(s, LINE_MAX);
    if RequestLine(CStr(f)).Ok? {
      BareLine(CStr(f));
    }
    var req := new RequestBlock();
    mem.Track(req);
    var head := ReadHead(req, in_, mem, live0);
    if head.Err? {
      return Err(head.error);
    }
    ghost var live1, before := mem.live, Blocks(req);
    assert before == {req} + BlocksOf(req.list) + {req.method_} + {req.path} + {};
    var length := ReadContentLength(req);
    if length.Err? {
      return Err(length.error);
    }
    var body := ReadBody(req, length.value, in_, mem);
    if body.Err? {
      return Err(body.error);
    }
    BodyOwned(req, live0, live1, before);
    r := Ok(req);
  }

  /** `service`, without the response: every block of the request is freed exactly once. */
  method Service(in_: File, mem: Memory) returns (r: Result<()>)
    modifies in_, mem
    ensures var want := Read(old(in_.data));
            && (want.Err? ==> r == Err(want.error))
            && (want.Ok? ==> r.Ok? && in_.data == want.value.rest && mem.live == old(mem.live))
  {
    ghost var live0 := mem.live;
    var req := ReadRequest(in_, mem);
    if req.Err? {
      return Err(req.error);
    }
    FreeRequest(req.value, mem, live0);
    r := Ok(());
  }
}
