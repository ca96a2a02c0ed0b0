/** What the request reader of httpd/httpd2.c accepts and refuses, in bytes: letters and their
    case, separators, numbers, line endings, and the errors. */
module HttpMeaning {
  import opened CStrings
  import opened HttpSpec
  import Decimal
  import LineFraming

  // ---- Letters ----

  /** Small letters are 32 less in the result, which has none; every other byte stays. */
  lemma UpInBytes(s: seq<byte>)
    ensures |Up(s)| == |s|
    ensures forall k :: 0 <= k < |s| ==> !(97 <= Up(s)[k] <= 122)
    ensures forall k :: 0 <= k < |s| && !(97 <= s[k] <= 122) ==> Up(s)[k] == s[k]
    ensures forall k :: 0 <= k < |s| && 97 <= s[k] <= 122 ==> Up(s)[k] == s[k] - 32
  {
  }

  /** Two names are the same to the reader exactly when they agree byte by byte, or differ in a
      letter that one has small and the other large. */
  lemma SameName(a: seq<byte>, b: seq<byte>)
    ensures Up(a) == Up(b) <==>
              && |a| == |b|
              && forall k :: 0 <= k < |a| ==>
                   a[k] == b[k] || (97 <= a[k] <= 122 && b[k] == a[k] - 32) || (97 <= b[k] <= 122 && a[k] == b[k] - 32)
  {
    if |a| == |b| {
      forall k | 0 <= k < |a|
        ensures Up(a)[k] == Up(b)[k] <==>
                  a[k] == b[k] || (97 <= a[k] <= 122 && b[k] == a[k] - 32) || (97 <= b[k] <= 122 && a[k] == b[k] - 32)
      {
        assert Up(a)[k] == UpByte(a[k]) && Up(b)[k] == UpByte(b[k]);
      }
    } else {
      assert |Up(a)| != |Up(b)|;
    }
  }

  /** "content-length". */
  const SMALL_LENGTH: seq<byte> := [99, 111, 110, 116, 101, 110, 116, 45, 108, 101, 110, 103, 116, 104]

  /** Exactly the spellings of "content-length" with each letter small or large announce a
      length. */
  lemma AnnouncesInBytes(h: Field)
    ensures Announces(h) <==>
              && |h.name| == 14
              && forall k :: 0 <= k < 14 ==>
                   h.name[k] == SMALL_LENGTH[k] || (SMALL_LENGTH[k] != 45 && h.name[k] == SMALL_LENGTH[k] - 32)
  {
    assert Up(SMALL_LENGTH) == CONTENT_LENGTH;
    SameName(h.name, SMALL_LENGTH);
    assert forall k :: 0 <= k < 14 ==> SMALL_LENGTH[k] == 45 || 97 <= SMALL_LENGTH[k] <= 122;
  }

  /** "Content-Length", as clients usually send it. */
  lemma UsualSpelling(v: seq<byte>)
    ensures Announces(Field([67, 111, 110, 116, 101, 110, 116, 45, 76, 101, 110, 103, 116, 104], v))
    ensures Announces(Field(SMALL_LENGTH, v))
  {
    AnnouncesInBytes(Field([67, 111, 110, 116, 101, 110, 116, 45, 76, 101, 110, 103, 116, 104], v));
    AnnouncesInBytes(Field(SMALL_LENGTH, v));
  }

  /** The field looked up is the first one of that name, whatever its case. */
  lemma {:induction false} LookupIsFirst(a: seq<Field>, h: Field, b: seq<Field>, name: seq<byte>)
    requires Up(h.name) == Up(name) && forall x :: x in a ==> Up(x.name) != Up(name)
    ensures Lookup(a + ([h] + b), Up(name)) == Ok(h.value)
    ensures Lookup(a, Up(name)).Err?
    decreases |a|
  {
    if a == [] {
      assert a + ([h] + b) == [h] + b;
    } else {
      assert (a + ([h] + b))[1..] == a[1..] + ([h] + b) && a[0] in a;
      LookupIsFirst(a[1..], h, b, name);
    }
  }

  // ---- Numbers ----

  /** White space, a sign, digits, and whatever follows them: the number is that of the digits. */
  lemma NumberInBytes(w: seq<byte>, sign: seq<byte>, d: seq<byte>, rest: seq<byte>)
    requires forall k :: 0 <= k < |w| ==> w[k] in {9, 10, 11, 12, 13, 32}
    requires sign in {[], [43], [45]} && Decimal.AllDigits(d) && (rest != [] ==> !(48 <= rest[0] <= 57))
    requires sign == [] && d == [] && rest != [] ==> rest[0] !in {9, 10, 11, 12, 13, 32, 43, 45}
    ensures Atol(w + (sign + (d + rest))) == if sign == [45] then -(Decimal.Value(d) as int) else Decimal.Value(d)
  {
    var t := sign + (d + rest);
    Digits(d, rest);
    if sign == [] {
      assert t == d + rest;
    } else {
      assert t[0] == sign[0] && t[1..] == d + rest;
    }
    Spaces(w, t);
  }

  lemma {:induction false} Spaces(w: seq<byte>, t: seq<byte>)
    requires forall k :: 0 <= k < |w| ==> w[k] in {9, 10, 11, 12, 13, 32}
    requires t != [] ==> t[0] !in {9, 10, 11, 12, 13, 32}
    ensures SkipSpace(w + t) == t
    decreases |w|
  {
    if w == [] {
      assert w + t == t;
    } else {
      assert (w + t)[1..] == w[1..] + t;
      Spaces(w[1..], t);
    }
  }

  lemma {:induction false} Digits(d: seq<byte>, rest: seq<byte>)
    requires Decimal.AllDigits(d) && (rest != [] ==> !(48 <= rest[0] <= 57))
    ensures DigitRun(d + rest) == d
    decreases |d|
  {
    if d == [] {
      assert d + rest == rest;
    } else {
      assert (d + rest)[1..] == d[1..] + rest;
      Digits(d[1..], rest);
    }
  }

  // ---- Lines ----

  /** fgets delivers at most 4095 bytes, up to and including the first LF. */
  lemma LineInBytes(s: seq<byte>)
    ensures var f := LineFraming.Frame(s, LINE_MAX);
            && f <= s && |f| <= 4095 && (f == [] <==> s == [])
            && (forall k :: 0 <= k < |f| - 1 ==> f[k] != 10)
            && (f == s || |f| == 4095 || f[|f| - 1] == 10)
  {
  }

  lemma NoSeparator(s: seq<byte>, b: byte)
    requires b !in s
    ensures Before(s, b) == s
  {
    UntilIs(s, {b}, |s|);
  }

  /** A request line is split at its first two blanks; what follows must start with "HTTP/1."
      in any case of its letters. Each of the three errors has its own cause. */
  lemma RequestLineInBytes(m: seq<byte>, path: seq<byte>, v: seq<byte>)
    requires 32 !in m && 32 !in path
    ensures RequestLine(m) == Err(BadLine1)
    ensures RequestLine(m + [32] + path) == Err(BadLine2)
    ensures RequestLine(m + [32] + (path + [32] + v))
         == if |v| >= 7 && v[0] in {72, 104} && v[1] in {84, 116} && v[2] in {84, 116} && v[3] in {80, 112}
               && v[4] == 47 && v[5] == 49 && v[6] == 46
            then Ok(Request(Atol(v[7..]), Up(m), path, [], 0, []))
            else Err(BadLine3)
  {
    NoSeparator(m, 32);
    BeforeIs(m, 32, path);
    NoSeparator(path, 32);
    BeforeIs(m, 32, path + [32] + v);
    BeforeIs(path, 32, v);
    if |v| >= 7 {
      VersionInBytes(v[..7]);
    }
  }

  lemma VersionInBytes(v: seq<byte>)
    requires |v| == 7
    ensures Up(v) == VERSION <==>
              && v[0] in {72, 104} && v[1] in {84, 116} && v[2] in {84, 116} && v[3] in {80, 112}
              && v[4] == 47 && v[5] == 49 && v[6] == 46
  {
    var u := Up(v);
    assert u == [u[0], u[1], u[2], u[3], u[4], u[5], u[6]];
  }

  /** A header line is split at its first colon, and all blanks and tabs behind the colon are
      dropped. */
  lemma HeaderLineInBytes(name: seq<byte>, blanks: seq<byte>, value: seq<byte>)
    requires 58 !in name && (forall k :: 0 <= k < |blanks| ==> blanks[k] in {9, 32})
    requires value != [] ==> value[0] !in {9, 32}
    ensures HeaderLine(name) == Err(BadHeader)
    ensures HeaderLine(name + [58] + (blanks + value)) == Ok(Field(name, value))
  {
    NoSeparator(name, 58);
    BeforeIs(name, 58, blanks + value);
    Blanks(blanks, value);
  }

  lemma {:induction false} Blanks(w: seq<byte>, t: seq<byte>)
    requires (forall k :: 0 <= k < |w| ==> w[k] in {9, 32}) && (t != [] ==> t[0] !in {9, 32})
    ensures SkipBlank(w + t) == t
    decreases |w|
  {
    if w == [] {
      assert w + t == t;
    } else {
      assert (w + t)[1..] == w[1..] + t;
      Blanks(w[1..], t);
    }
  }

  /** The empty line that ends the header is LF or CR LF, and nothing else is. */
  lemma EmptyLineInBytes(f: seq<byte>)
    requires f != [] && forall k :: 0 <= k < |f| - 1 ==> f[k] != 10
    ensures Blank(f) <==> f == [10] || f == [13, 10]
  {
    if CStr(f) == CRLF {
      assert f[0] == 13 && f[1] == 10;
    }
    if f == [13, 10] {
      UntilIs(f, {NUL}, 2);
    }
  }

  // ---- Whole requests that fail ----

  /** A header that is not ended, and each of the ways a body can be refused. */
  lemma RequestFails(method_: seq<byte>, path: seq<byte>, minor: int, hs: seq<Field>, tail: seq<byte>)
    requires PrintableLine(method_, path, minor) && forall h :: h in hs ==> PrintableField(h)
    ensures Read([]) == Err(NoRequestLine)
    ensures Read(PrintLine(method_, path, minor) + PrintFields(hs)) == Err(NoHeader)
    ensures var n := ContentLength(Reversed(hs));
            var r := Read(PrintLine(method_, path, minor) + (PrintFields(hs) + (CRLF + tail)));
            && (n.Err? ==> r == Err(NegativeLength))
            && (n.Ok? && n.value > 1048576 ==> r == Err(BodyTooLong))
            && (n.Ok? && |tail| < n.value <= 1048576 ==> r == Err(ShortBody))
            && (n.Ok? && n.value <= 1048576 && n.value <= |tail| ==>
                  r == Ok(Reading(Request(minor, Up(method_), path, Reversed(hs), n.value, tail[..n.value]),
                                  tail[n.value..])))
  {
    hide PrintLine, PrintFields, Headers, RequestLine, LineFraming.FrameLength, Until, Reversed;
    hide PrintableField, PrintableLine, Lookup, Atol;
    var line, more := PrintLine(method_, path, minor), PrintFields(hs) + (CRLF + tail);
    LineShape(method_, path, minor);
    LineIsFrame(line, more);
    LineIsFrame(line, PrintFields(hs));
    RequestLineRead(method_, path, minor);
    FieldsRead(hs, [], tail);
    HeaderNotEnded(hs, []);
    assert Reversed(hs) + [] == Reversed(hs);
  }

  lemma {:induction false} HeaderNotEnded(hs: seq<Field>, before: seq<Field>)
    requires forall h :: h in hs ==> PrintableField(h)
    ensures Headers(PrintFields(hs), before) == Err(NoHeader)
    decreases |hs|
  {
    if hs != [] {
      hide PrintableField, Reversed, PrintField;
      HeadersStep(hs[0], PrintFields(hs[1..]), before);
      HeaderNotEnded(hs[1..], [Kept(hs[0])] + before);
    }
  }
}
