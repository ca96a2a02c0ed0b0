/** The one-shot echo of chapter05/server2.c (`send_recv`) and the client that checks it
    (chapter05/testclient.c, `send_recv_loop`). */
module Echo {
  import opened CStrings
  import Decimal

  /** sizeof(buf) in server and client. */
  const BUFSZ: nat := 512
  const SEND_COUNT: nat := 50

  /** The reply to a message: its first line, ":OK\r\n" behind it, cut to the buffer. */
  function Reply(msg: seq<byte>): (r: seq<byte>)
    ensures |r| <= BUFSZ - 1 && NUL !in r
  {
    var s := CutLine(msg) + OK_SUFFIX;
    s[..Min(|s|, BUFSZ - 1)]
  }

  /** The reply in bytes: the message up to its first NUL, LF or CR, then ":OK" CR LF, all
      together at most 511 bytes. */
  lemma ReplyInBytes(msg: seq<byte>, n: nat)
    requires n <= |msg| && (forall k :: 0 <= k < n ==> msg[k] != 0 && msg[k] != 10 && msg[k] != 13)
    requires n < |msg| ==> msg[n] == 0 || msg[n] == 10 || msg[n] == 13
    ensures var whole := msg[..n] + [58, 79, 75, 13, 10];
            Reply(msg) == if |whole| <= 511 then whole else whole[..511]
  {
    CutInBytes(msg, n);
  }

  /** Terminating a received message hides whatever the buffer held before. */
  lemma TerminatedCut(buf: seq<byte>, len: nat)
    requires len < |buf|
    ensures CutLine(buf[len := NUL]) == CutLine(buf[..len])
  {
    TerminatedLine(buf[len := NUL], len);
    assert buf[len := NUL][..len] == buf[..len];
  }

  /** A terminated, cut buffer of 512 bytes becomes the reply when the suffix is appended. */
  lemma ReplyOfCut(msg: seq<byte>, buf: seq<byte>)
    requires |buf| == BUFSZ && |msg| < BUFSZ && CStr(buf) == CutLine(msg)
    ensures CStr(LCat(buf, OK_SUFFIX)) == Reply(msg)
    ensures NUL in LCat(buf, OK_SUFFIX)
  {
    LCatString(buf, OK_SUFFIX);
    Terminated(LCat(buf, OK_SUFFIX));
  }

  const SUFFIX_Z: seq<byte> := OK_SUFFIX + [NUL]

  lemma SuffixIsString()
    ensures NUL in SUFFIX_Z && CStr(SUFFIX_Z) == OK_SUFFIX
  {
    assert SUFFIX_Z[5] == NUL;
    UntilIs(SUFFIX_Z, {NUL}, 5);
  }

  /** The in-place steps between recv and send: terminate, cut at the line end, append. */
  method MakeReply(buf: array<byte>, len: nat) returns (n: nat)
    requires buf.Length == BUFSZ && len < BUFSZ
    modifies buf
    ensures n < BUFSZ && buf[..n] == Reply(old(buf[..len]))
    ensures CStr(buf[..]) == buf[..n]
  {
    ghost var msg := buf[..len];
    ghost var was := buf[..];
    buf[len] := NUL;
    assert buf[..] == was[len := NUL];
    TerminatedCut(was, len);
    assert buf[..][len] == NUL;
    var ptr := StrPBrk(buf);
    if ptr != -1 {
      CutInPlace(buf[..], ptr);
      ghost var b := buf[..];
      buf[ptr] := NUL;
      assert buf[..] == b[ptr := NUL];
    }
    assert CStr(buf[..]) == CutLine(msg);
    ReplyOfCut(msg, buf[..]);
    SuffixIsString();
    assert NUL in buf[..] by { Terminated(buf[..]); }
    assert buf[..BUFSZ] == buf[..];
    var _ := StrLCat(buf, SUFFIX_Z, BUFSZ);
    assert buf[..BUFSZ] == buf[..];
    n := StrLen(buf);
    assert CStr(buf[..]) == buf[..][..n] == buf[..n];
  }

  /** What recv returned: -1, 0, or some bytes. */
  datatype Received = Error | Eof | Data(msg: seq<byte>)

  /** `send_recv` of server2.c; `sent` is what it passed to send. */
  method SendRecv(input: Received, sendOk: bool) returns (ret: int, sent: seq<byte>)
    requires input.Data? ==> 1 <= |input.msg| <= BUFSZ - 1
    ensures input.Data? ==> sent == Reply(input.msg)
    ensures !input.Data? ==> sent == []
    ensures ret == if input.Data? && sendOk then 0 else -1
  {
    if !input.Data? {
      return -1, [];
    }
    var buf := new byte[BUFSZ];
    var len := |input.msg|;
    forall k | 0 <= k < len { buf[k] := input.msg[k]; }
    assert buf[..len] == input.msg;
    var n := MakeReply(buf, len);
    sent := buf[..n];
    ret := if sendOk then 0 else -1;
  }

  /** The check the client makes after a round: the string it computes from its own request
      against the bytes it received. */
  method ReplyMatches(request: seq<byte>, rbuf: seq<byte>) returns (same: bool)
    requires |request| < BUFSZ && NUL !in request && |rbuf| < BUFSZ
    ensures same <==> CStr(rbuf) == Reply(request)
  {
    var buf := new byte[BUFSZ];
    var len := |request|;
    forall k | 0 <= k < len { buf[k] := request[k]; }
    assert buf[..len] == request;
    var n := MakeReply(buf, len);
    same := StrCmp(buf[..n + 1], rbuf + [NUL]);
    UntilIs(buf[..n + 1], {NUL}, n);
    TerminatedCStr(rbuf);
  }

  lemma TerminatedCStr(s: seq<byte>)
    ensures CStr(s + [NUL]) == CStr(s) && NUL in s + [NUL]
  {
    UntilIs(s + [NUL], {NUL}, |CStr(s)|);
    assert (s + [NUL])[|s|] == NUL;
  }

  /** strcmp(a, b) == 0. */
  method StrCmp(a: seq<byte>, b: seq<byte>) returns (same: bool)
    requires NUL in a && NUL in b
    ensures same <==> CStr(a) == CStr(b)
  {
    ghost var x, y := CStr(a), CStr(b);
    Terminated(a); Terminated(b);
    var i := 0;
    while a[i] == b[i] && a[i] != NUL
      invariant 0 <= i <= |x| && i <= |y|
      invariant x[..i] == y[..i]
      decreases |x| - i
    {
      assert x[..i + 1] == x[..i] + [a[i]] && y[..i + 1] == y[..i] + [b[i]];
      i := i + 1;
    }
    same := a[i] == b[i];
  }

  /** The request of round `count`: "%d:%d\n". */
  function Request(id: int, count: nat): (r: seq<byte>)
    ensures NUL !in r
  {
    Decimal.Decimal(id) + [58] + Decimal.Decimal(count) + [LF]
  }

  /** A request in bytes: the identifier, a colon, the round, LF. */
  lemma RequestInBytes(id: int, count: nat)
    ensures var r, n := Request(id, count), |Decimal.Decimal(id)|;
            && r[..n] == Decimal.Decimal(id) && r[n] == 58 && 58 !in Decimal.Decimal(id)
            && r[n + 1..|r| - 1] == Decimal.Decimal(count) && r[|r| - 1] == 10
  {
    Decimal.DecimalInBytes(id);
  }

  lemma RequestFits(id: int, count: nat)
    requires -Decimal.INT_MAX - 1 <= id <= Decimal.INT_MAX && count <= Decimal.INT_MAX
    ensures 3 <= |Request(id, count)| <= 24
  {
    Decimal.IntLength(id);
    Decimal.IntLength(count);
  }

  /** `send_recv_loop` of the client against `send_recv` of the server, every request and
      every reply delivered whole: the client finds no mismatch in any round. */
  method ClientAgainstServer(id: int) returns (rv: int, rounds: nat)
    requires -Decimal.INT_MAX - 1 <= id <= Decimal.INT_MAX
    ensures rv == 0 && rounds == 51
  {
    rv := 0;
    rounds := 0;
    while true
      invariant rv == 0 && rounds <= SEND_COUNT
      decreases SEND_COUNT - rounds
    {
      rounds := rounds + 1;
      RequestFits(id, rounds);
      var ret, sent := SendRecv(Data(Request(id, rounds)), true);
      var same := ReplyMatches(Request(id, rounds), sent);
      UntilIs(sent, {NUL}, |sent|);
      if !same {
        rv := -1;
        break;
      }
      if rounds > SEND_COUNT {
        break;
      }
    }
  }

  /** When only a part of a one-line request has arrived, the reply is the expected one
      exactly when nothing but the line end is missing. */
  lemma PartialRequest(line: seq<byte>, k: nat)
    requires |line| + |OK_SUFFIX| <= BUFSZ - 1 && CutLine(line) == line
    requires k <= |line|
    ensures Reply((line + [LF])[..k]) == Reply(line + [LF]) <==> k == |line|
  {
    var m := line + [LF];
    forall i | 0 <= i < |line| ensures m[i] !in {NUL, CR, LF} {
      assert m[i] == CutLine(line)[i];
    }
    UntilIs(m, {NUL, CR, LF}, |line|);
    UntilIs(m[..k], {NUL, CR, LF}, k);
    assert m[..|line|] == line;
    assert |Reply(m[..k])| == k + 5;
  }
}
