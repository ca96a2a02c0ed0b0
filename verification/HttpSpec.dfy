/** What the request reader of httpd/httpd2.c makes of a stream, and the round trip from a
    printed request. */
module HttpSpec {
  import opened CStrings
  import opened Decimal
  import LineFraming

  const LINE_BUF_SIZE: nat := 4096
  const LINE_MAX: nat := LINE_BUF_SIZE - 1
  const MAX_REQUEST_BODY_LENGTH: int := 1048576

  const COLON: byte := 58
  const CRLF: seq<byte> := [CR, LF]

  /** "HTTP/1." and "CONTENT-LENGTH". */
  const VERSION: seq<byte> := [72, 84, 84, 80, 47, 49, 46]
  const CONTENT_LENGTH: seq<byte> := [67, 79, 78, 84, 69, 78, 84, 45, 76, 69, 78, 71, 84, 72]

  datatype Error =
    | NoRequestLine | BadLine1 | BadLine2 | BadLine3
    | NoHeader | BadHeader
    | NegativeLength | BodyTooLong | ShortBody

  datatype Result<T> = Ok(value: T) | Err(error: Error)

  datatype Field = Field(name: seq<byte>, value: seq<byte>)

  datatype Request = Request(minor: int, method_: seq<byte>, path: seq<byte>,
                             fields: seq<Field>, length: nat, body: seq<byte>)

  // ---- Characters and numbers ----

  /** toupper in the C locale. */
  function UpByte(b: byte): (r: byte) {
    if 97 <= b <= 122 then b - 32 else b
  }

  function Up(s: seq<byte>): (r: seq<byte>)
    ensures |r| == |s| && forall k :: 0 <= k < |s| ==> r[k] == UpByte(s[k])
  {
    seq(|s|, k requires 0 <= k < |s| => UpByte(s[k]))
  }

  predicate IsSpace(b: byte) {
    b == SPACE || 9 <= b <= 13
  }

  function SkipSpace(s: seq<byte>): (r: seq<byte>) {
    if s != [] && IsSpace(s[0]) then SkipSpace(s[1..]) else s
  }

  /** strspn(s, " \t") skipped. */
  function SkipBlank(s: seq<byte>): (r: seq<byte>)
    ensures |r| <= |s| && r == s[|s| - |r|..]
  {
    if s != [] && s[0] in {SPACE, TAB} then SkipBlank(s[1..]) else s
  }

  function DigitRun(s: seq<byte>): (r: seq<byte>)
    ensures r <= s && AllDigits(r)
  {
    if s != [] && IsDigit(s[0]) then [s[0]] + DigitRun(s[1..]) else []
  }

  /** atoi and atol, on values that fit. */
  function Atol(s: seq<byte>): (v: int) {
    var t := SkipSpace(s);
    if t != [] && t[0] == MINUS then -(Value(DigitRun(t[1..])) as int)
    else if t != [] && t[0] == 43 then Value(DigitRun(t[1..]))
    else Value(DigitRun(t))
  }

  // ---- Lines ----

  function Before(s: seq<byte>, b: byte): (r: seq<byte>)
    ensures r <= s && (|r| < |s| ==> s[|r|] == b)
  {
    Until(s, {b})
  }

  function RequestLine(line: seq<byte>): (r: Result<Request>) {
    var m := Before(line, SPACE);
    if |m| == |line| then Err(BadLine1)
    else
      var rest := line[|m| + 1..];
      var path := Before(rest, SPACE);
      if |path| == |rest| then Err(BadLine2)
      else
        var v := rest[|path| + 1..];
        if |v| < 7 || Up(v[..7]) != VERSION then Err(BadLine3)
        else Ok(Request(Atol(v[7..]), Up(m), path, [], 0, []))
  }

  /** The empty line, as the reader tests for it. */
  predicate Blank(frame: seq<byte>) {
    frame != [] && (frame[0] == LF || CStr(frame) == CRLF)
  }

  function HeaderLine(line: seq<byte>): (r: Result<Field>) {
    var name := Before(line, COLON);
    if |name| == |line| then Err(BadHeader)
    else Ok(Field(name, SkipBlank(line[|name| + 1..])))
  }

  datatype Lines = Lines(fields: seq<Field>, rest: seq<byte>)

  /** Header fields up to the empty line, each put in front of those read before it. */
  function Headers(s: seq<byte>, fields: seq<Field>): (r: Result<Lines>)
    decreases |s|
  {
    var f := LineFraming.Frame(s, LINE_MAX);
    if f == [] then Err(NoHeader)
    else if Blank(f) then Ok(Lines(fields, s[|f|..]))
    else
      match HeaderLine(CStr(f))
      case Err(e) => Err(e)
      case Ok(h) => Headers(s[|f|..], [h] + fields)
  }

  /** The value of the first field of that name, whatever its case. */
  function Lookup(fields: seq<Field>, name: seq<byte>): (v: Result<seq<byte>>) {
    if fields == [] then Err(NoHeader)
    else if Up(fields[0].name) == name then Ok(fields[0].value)
    else Lookup(fields[1..], name)
  }

  function ContentLength(fields: seq<Field>): (r: Result<nat>) {
    match Lookup(fields, CONTENT_LENGTH)
    case Err(_) => Ok(0)
    case Ok(v) => if Atol(v) < 0 then Err(NegativeLength) else Ok(Atol(v))
  }

  datatype Reading = Reading(request: Request, rest: seq<byte>)

  function WithBody(req: Request, length: nat, s: seq<byte>): (r: Result<Reading>) {
    if length > MAX_REQUEST_BODY_LENGTH then Err(BodyTooLong)
    else if |s| < length then Err(ShortBody)
    else Ok(Reading(req.(length := length, body := s[..length]), s[length..]))
  }

  /** `read_request`: the request at the start of a stream, and what is left unread. */
  function Read(s: seq<byte>): (r: Result<Reading>) {
    var f := LineFraming.Frame(s, LINE_MAX);
    if f == [] then Err(NoRequestLine)
    else
      match RequestLine(CStr(f))
      case Err(e) => Err(e)
      case Ok(req) =>
        match Headers(s[|f|..], [])
        case Err(e) => Err(e)
        case Ok(l) =>
          match ContentLength(l.fields)
          case Err(e) => Err(e)
          case Ok(n) => WithBody(req.(fields := l.fields), n, l.rest)
  }

  // ---- Printed requests ----

  function PrintLine(method_: seq<byte>, path: seq<byte>, minor: int): (s: seq<byte>) {
    method_ + [SPACE] + path + [SPACE] + VERSION + Decimal.Decimal(minor) + CRLF
  }

  function PrintField(h: Field): (s: seq<byte>) {
    h.name + [COLON, SPACE] + h.value + CRLF
  }

  function PrintFields(hs: seq<Field>): (s: seq<byte>) {
    if hs == [] then [] else PrintField(hs[0]) + PrintFields(hs[1..])
  }

  predicate Clean(s: seq<byte>, stops: set<byte>) {
    forall k :: 0 <= k < |s| ==> s[k] !in stops
  }

  /** A field that can be printed: a colon ends its name, its value does not start with a
      blank, and the line fits the buffer. */
  predicate PrintableField(h: Field) {
    && Clean(h.name, {NUL, LF, COLON}) && Clean(h.value, {NUL, LF})
    && (h.value != [] ==> h.value[0] !in {SPACE, TAB})
    && |PrintField(h)| <= LINE_MAX
  }

  predicate PrintableLine(method_: seq<byte>, path: seq<byte>, minor: int) {
    && Clean(method_, {NUL, LF, SPACE}) && Clean(path, {NUL, LF, SPACE})
    && |PrintLine(method_, path, minor)| <= LINE_MAX
  }

  /** What is stored for a field: its value keeps the line ending. */
  function Kept(h: Field): (r: Field) {
    h.(value := h.value + CRLF)
  }

  /** The fields as they are stored, last one first. */
  function Reversed(hs: seq<Field>): (r: seq<Field>) {
    if hs == [] then [] else Reversed(hs[1..]) + [Kept(hs[0])]
  }

  /** A line without NUL that ends in its only LF is the first frame of what it starts. */
  lemma LineIsFrame(line: seq<byte>, rest: seq<byte>)
    requires 0 < |line| <= LINE_MAX && line[|line| - 1] == LF
    requires forall k :: 0 <= k < |line| - 1 ==> line[k] !in {NUL, LF}
    ensures LineFraming.Frame(line + rest, LINE_MAX) == line && CStr(line) == line
    ensures (line + rest)[|line|..] == rest
  {
    LineFraming.FrameIs(line + rest, LINE_MAX, |line|);
    UntilIs(line, {NUL}, |line|);
  }

  /** Splitting at the first occurrence of a byte. */
  lemma BeforeIs(a: seq<byte>, b: byte, rest: seq<byte>)
    requires Clean(a, {b})
    ensures Before(a + [b] + rest, b) == a && (a + [b] + rest)[|a| + 1..] == rest
  {
    UntilIs(a + [b] + rest, {b}, |a|);
  }

  lemma SkipOne(v: seq<byte>)
    requires v != [] && v[0] !in {SPACE, TAB}
    ensures SkipBlank([SPACE] + v) == v
  {
    assert ([SPACE] + v)[1..] == v;
  }

  lemma FieldShape(h: Field)
    requires PrintableField(h)
    ensures var line, v := PrintField(h), h.value + CRLF;
            && line == h.name + [COLON] + ([SPACE] + v)
            && v != [] && v[0] !in {SPACE, TAB}
            && 0 < |line| && line[|line| - 1] == LF && line[|h.name|] == COLON
            && forall k :: 0 <= k < |line| - 1 ==> line[k] !in {NUL, LF}
  {
    var v := h.value + CRLF;
    assert h.name + [COLON, SPACE] + h.value + CRLF == h.name + [COLON] + ([SPACE] + v);
  }

  lemma FieldLine(h: Field)
    requires PrintableField(h)
    ensures HeaderLine(PrintField(h)) == Ok(Kept(h))
    ensures var line := PrintField(h);
            0 < |line| && line[|line| - 1] == LF && !Blank(line)
            && forall k :: 0 <= k < |line| - 1 ==> line[k] !in {NUL, LF}
  {
    FieldShape(h);
    var line, v := PrintField(h), h.value + CRLF;
    FieldNotBlank(line, |h.name|);
    BeforeIs(h.name, COLON, [SPACE] + v);
    SkipOne(v);
  }

  lemma FieldNotBlank(line: seq<byte>, n: nat)
    requires n + 1 < |line| && line[n] == COLON && line[|line| - 1] == LF
    requires forall k :: 0 <= k < |line| - 1 ==> line[k] !in {NUL, LF}
    ensures !Blank(line)
  {
    UntilIs(line, {NUL}, |line|);
    assert CRLF[0] != COLON && CRLF[1] != COLON;
  }

  lemma FieldsStep(h: Field, hs: seq<Field>, before: seq<Field>, tail: seq<byte>)
    ensures var more := PrintFields(hs) + tail; PrintFields([h] + hs) + tail == PrintField(h) + more
    ensures Reversed(hs) + ([Kept(h)] + before) == Reversed([h] + hs) + before
  {
    hide PrintField;
    var w := [h] + hs;
    assert w[1..] == hs;
  }

  lemma NoFields(before: seq<Field>, tail: seq<byte>)
    ensures PrintFields([]) + tail == tail && Reversed([]) + before == before
  {
  }

  /** One more header line. */
  lemma HeadersStep(h: Field, more: seq<byte>, before: seq<Field>)
    requires PrintableField(h)
    ensures Headers(PrintField(h) + more, before) == Headers(more, [Kept(h)] + before)
  {
    hide PrintField, PrintableField, HeaderLine, Blank, LineFraming.FrameLength;
    var line := PrintField(h);
    FieldLine(h);
    FieldFits(h);
    LineIsFrame(line, more);
  }

  lemma {:induction false} FieldsRead(hs: seq<Field>, before: seq<Field>, rest: seq<byte>)
    requires forall h :: h in hs ==> PrintableField(h)
    ensures Headers(PrintFields(hs) + (CRLF + rest), before) == Ok(Lines(Reversed(hs) + before, rest))
    decreases |hs|
  {
    if hs == [] {
      BlankLine(rest);
      NoFields(before, CRLF + rest);
    } else {
      hide PrintableField, Headers, PrintFields, Reversed;
      HeadersStep(hs[0], PrintFields(hs[1..]) + (CRLF + rest), before);
      FieldsRead(hs[1..], [Kept(hs[0])] + before, rest);
      FieldsStep(hs[0], hs[1..], before, CRLF + rest);
      assert hs == [hs[0]] + hs[1..];
    }
  }

  lemma FieldFits(h: Field)
    requires PrintableField(h)
    ensures |PrintField(h)| <= LINE_MAX
  {
  }

  lemma BlankLine(rest: seq<byte>)
    ensures LineFraming.Frame(CRLF + rest, LINE_MAX) == CRLF && Blank(CRLF) && (CRLF + rest)[2..] == rest
  {
    LineIsFrame(CRLF, rest);
  }

  // ---- The request line ----

  /** A number printed in front of a line ending is read back. */
  lemma NumberRead(n: int)
    ensures Atol(Decimal.Decimal(n) + CRLF) == n
  {
    var d := Digits(if n < 0 then -n else n);
    RunIs(d, CRLF);
    ValueOfDigits(if n < 0 then -n else n);
    if n < 0 {
      assert Decimal.Decimal(n) + CRLF == [MINUS] + (d + CRLF);
      assert ([MINUS] + (d + CRLF))[1..] == d + CRLF;
    }
  }

  lemma {:induction false} RunIs(d: seq<byte>, rest: seq<byte>)
    requires AllDigits(d) && rest != [] && !IsDigit(rest[0])
    ensures DigitRun(d + rest) == d
    decreases |d|
  {
    if d == [] {
      assert d + rest == rest;
    } else {
      assert (d + rest)[1..] == d[1..] + rest;
      RunIs(d[1..], rest);
    }
  }

  lemma LineShape(method_: seq<byte>, path: seq<byte>, minor: int)
    requires PrintableLine(method_, path, minor)
    ensures var line, tail := PrintLine(method_, path, minor), VERSION + (Decimal.Decimal(minor) + CRLF);
            && line == method_ + [SPACE] + (path + [SPACE] + tail)
            && 0 < |line| <= LINE_MAX && line[|line| - 1] == LF
            && forall k :: 0 <= k < |line| - 1 ==> line[k] !in {NUL, LF}
  {
    var line, tail := PrintLine(method_, path, minor), VERSION + (Decimal.Decimal(minor) + CRLF);
    var head, number := method_ + [SPACE] + path + [SPACE], Decimal.Decimal(minor);
    assert line == head + (VERSION + (number + CRLF));
    CleanNumber(minor);
    forall k | 0 <= k < |line| - 1 ensures line[k] !in {NUL, LF} {
      if k < |head| {
        assert line[k] == head[k];
      } else if k < |head| + 7 {
        assert line[k] == VERSION[k - |head|];
      } else if k < |head| + 7 + |number| {
        assert line[k] == number[k - |head| - 7];
      }
    }
  }

  lemma CleanNumber(n: int)
    ensures Clean(Decimal.Decimal(n), {NUL, LF})
  {
  }

  lemma VersionSame()
    ensures Up(VERSION) == VERSION
  {
  }

  lemma RequestLineRead(method_: seq<byte>, path: seq<byte>, minor: int)
    requires PrintableLine(method_, path, minor)
    ensures RequestLine(PrintLine(method_, path, minor)) == Ok(Request(minor, Up(method_), path, [], 0, []))
  {
    hide Decimal.Decimal, PrintLine, Atol, Until;
    var v := VERSION + (Decimal.Decimal(minor) + CRLF);
    LineShape(method_, path, minor);
    BeforeIs(method_, SPACE, path + [SPACE] + v);
    BeforeIs(path, SPACE, v);
    VersionSame();
    assert v[..7] == VERSION && v[7..] == Decimal.Decimal(minor) + CRLF;
    NumberRead(minor);
  }

  // ---- Content-Length ----

  predicate Announces(h: Field) {
    Up(h.name) == CONTENT_LENGTH
  }

  lemma {:induction false} ReversedAppend(a: seq<Field>, b: seq<Field>)
    ensures Reversed(a + b) == Reversed(b) + Reversed(a)
    decreases |a|
  {
    if a == [] {
      assert a + b == b && Reversed(b) + [] == Reversed(b);
    } else {
      assert (a + b)[1..] == a[1..] + b;
      ReversedAppend(a[1..], b);
      assert (Reversed(b) + Reversed(a[1..])) + [Kept(a[0])] == Reversed(b) + Reversed(a);
    }
  }

  lemma {:induction false} LookupSkips(a: seq<Field>, b: seq<Field>)
    requires forall h :: h in a ==> !Announces(h)
    ensures Lookup(a + b, CONTENT_LENGTH) == Lookup(b, CONTENT_LENGTH)
    decreases |a|
  {
    if a == [] {
      assert a + b == b;
    } else {
      assert (a + b)[1..] == a[1..] + b && a[0] in a;
      LookupSkips(a[1..], b);
    }
  }

  lemma {:induction false} ReversedNames(hs: seq<Field>)
    requires forall h :: h in hs ==> !Announces(h)
    ensures forall h :: h in Reversed(hs) ==> !Announces(h)
    decreases |hs|
  {
    if hs != [] {
      assert hs[0] in hs;
      ReversedNames(hs[1..]);
    }
  }

  /** The last Content-Length field that arrived decides, whatever its case and whatever
      earlier ones said; without one the length is 0. */
  lemma LastLengthDecides(a: seq<Field>, h: Field, b: seq<Field>, n: int)
    requires Announces(h) && h.value == Decimal.Decimal(n) && forall x :: x in b ==> !Announces(x)
    ensures ContentLength(Reversed(a + ([h] + b))) == if n < 0 then Err(NegativeLength) else Ok(n)
    ensures ContentLength(Reversed(b)) == Ok(0)
  {
    hide Atol, Announces, Decimal.Decimal;
    ReversedAppend(a, [h] + b);
    ReversedAppend([h], b);
    ReversedNames(b);
    assert Reversed([h]) == [Kept(h)] by { assert Reversed([h][1..]) == []; }
    var tail := [Kept(h)] + Reversed(a);
    assert Reversed(a + ([h] + b)) == Reversed(b) + tail;
    LookupSkips(Reversed(b), tail);
    LookupSkips(Reversed(b), []);
    assert Reversed(b) + [] == Reversed(b);
    KeptAnnounces(h);
    NumberRead(n);
  }

  lemma KeptAnnounces(h: Field)
    requires Announces(h)
    ensures Up(Kept(h).name) == CONTENT_LENGTH
  {
  }

  /** A printed request is read back: upper-cased method, path, version, the fields in reverse
      order with their line endings, exactly the announced bytes of body, and not a byte more
      of the stream. */
  lemma RequestReadsBack(method_: seq<byte>, path: seq<byte>, minor: int, hs: seq<Field>,
                         body: seq<byte>, rest: seq<byte>)
    requires PrintableLine(method_, path, minor) && forall h :: h in hs ==> PrintableField(h)
    requires ContentLength(Reversed(hs)) == Ok(|body|) && |body| <= MAX_REQUEST_BODY_LENGTH
    ensures Read(PrintLine(method_, path, minor) + (PrintFields(hs) + (CRLF + (body + rest))))
         == Ok(Reading(Request(minor, Up(method_), path, Reversed(hs), |body|, body), rest))
  {
    hide PrintLine, PrintFields, Headers, RequestLine, LineFraming.FrameLength, Until, ContentLength, Reversed;
    hide PrintableField, PrintableLine;
    var line, more := PrintLine(method_, path, minor), PrintFields(hs) + (CRLF + (body + rest));
    LineShape(method_, path, minor);
    LineIsFrame(line, more);
    RequestLineRead(method_, path, minor);
    FieldsRead(hs, [], body + rest);
    assert Reversed(hs) + [] == Reversed(hs);
    assert (body + rest)[..|body|] == body && (body + rest)[|body|..] == rest;
  }
}
