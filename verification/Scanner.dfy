/** `yylex` of chpater12/lex.yy.c over its refillable buffer: partial tokens are moved to the
    front, the buffer grows, more input is read in pieces of any size, the automaton is
    replayed, and an end of file is held back while text is pending. */
module Scanner {
  import opened CStrings
  import Decimal
  import ScannerSpec
  import opened ScannerTables
  import opened ScannerAutomaton

  // ---- What scanning a text means, with the whole text at hand ----

  /** A lexeme: the rule that matched (0 at the end of the text) and its text. */
  datatype Lexeme = Lexeme(rule: nat, text: seq<byte>)

  datatype Lexed = Lexed(lexeme: Lexeme, rest: seq<byte>, echo: seq<byte>)

  /** The next lexeme that has an action returning a token; blanks and newlines are skipped,
      characters without a rule are copied to the output. */
  function Lex(text: seq<byte>): (r: Lexed)
    ensures |r.rest| <= |text| && (text != [] && r.lexeme.rule != 0 ==> |r.rest| < |text|)
    ensures r.lexeme.rule <= 9
    ensures r.lexeme.rule == 0 ==> r.rest == [] && r.lexeme.text == []
    decreases |text|
  {
    if text == [] then Lexed(Lexeme(0, []), [], [])
    else
      MunchIsToken(text);
      var n, r := Munch(text), Rule(text);
      if r <= 9 then Lexed(Lexeme(r, text[..n]), text[n..], [])
      else
        var l := Lex(text[n..]);
        l.(echo := (if r == 12 then text[..n] else []) + l.echo)
  }

  /** The action of the scanner at the start of `text`. */
  function ActOf(text: seq<byte>): (act: nat) {
    if text == [] then EOF_ACTION else Rule(text)
  }

  function TextOf(text: seq<byte>): (w: seq<byte>) {
    text[..Munch(text)]
  }

  function RestOf(text: seq<byte>): (w: seq<byte>) {
    text[Munch(text)..]
  }

  /** What the scanner copies out at the start of `text`. */
  function EchoOf(text: seq<byte>): (w: seq<byte>) {
    if ActOf(text) == 12 then TextOf(text) else []
  }

  /** One lexeme further: it is the one looked for, or the search goes on behind it. `out` is
      what has been echoed before. */
  lemma LexStep(text: seq<byte>, out: seq<byte>)
    ensures var act := ActOf(text); var l := Lex(text);
            && 1 <= act
            && (act == EOF_ACTION ==> text == [] && l == Lexed(Lexeme(0, []), [], []))
            && (act <= 9 ==> l == Lexed(Lexeme(act, TextOf(text)), RestOf(text), []))
            && (act > 9 && act != EOF_ACTION ==>
                  var k := Lex(RestOf(text));
                  && l.lexeme == k.lexeme && l.rest == k.rest && |RestOf(text)| < |text|
                  && out + l.echo == (out + EchoOf(text)) + k.echo)
  {
    if text != [] {
      MunchIsToken(text);
      if Rule(text) > 9 {
        var k := Lex(RestOf(text));
        assert Lex(text).echo == EchoOf(text) + k.echo;
        assert out + (EchoOf(text) + k.echo) == (out + EchoOf(text)) + k.echo;
      }
    }
  }

  lemma {:induction false} LexDigits(text: seq<byte>)
    ensures Lex(text).lexeme.rule == 3 ==> Decimal.AllDigits(Lex(text).lexeme.text)
    decreases |text|
  {
    if text != [] {
      MunchIsToken(text);
      if Rule(text) > 9 {
        LexDigits(text[Munch(text)..]);
      }
    }
  }

  /** All lexemes of a text, in order. */
  function Lexemes(text: seq<byte>): (r: seq<Lexeme>)
    decreases |text|
  {
    var l := Lex(text);
    if text == [] || l.lexeme.rule == 0 then [] else [l.lexeme] + Lexemes(l.rest)
  }

  // ---- The outside world ----

  /** yyin: what is still to be read. A read returns any non-empty piece that fits, and nothing
      only at the end of the file. */
  class Input {
    var data: seq<byte>

    method Read(max: nat) returns (chunk: seq<byte>)
      requires max > 0
      modifies this
      ensures chunk + data == old(data) && |chunk| <= max
      ensures chunk == [] <==> old(data) == []
    {
      if data == [] {
        return [];
      }
      var n :| 1 <= n <= |data| && n <= max;
      chunk := data[..n];
      data := data[n..];
    }
  }

  /** The strings handed out by strdup and not yet freed. */
  class Heap {
    var strings: map<nat, seq<byte>>
    var next: nat

    ghost predicate Valid()
      reads this
    {
      forall id :: id in strings ==> id < next
    }

    method Strdup(s: seq<byte>) returns (id: nat)
      requires Valid()
      modifies this
      ensures Valid()
      ensures id !in old(strings) && strings == old(strings)[id := s]
    {
      id := next;
      strings := strings[id := s];
      next := next + 1;
    }

    /** free: the block must be live, so nothing is freed twice. */
    method Free(id: nat)
      requires Valid() && id in strings
      modifies this
      ensures Valid() && strings == old(strings) - {id}
    {
      strings := strings - {id};
    }
  }

  /** yylval. */
  datatype SemValue = Undefined | Number(n: nat) | Pointer(id: nat)

  const T_HOSTNM: nat := 258
  const T_PORTNM: nat := 259
  const T_STRING: nat := 260
  const T_NUM: nat := 261

  /** The token code an accepted rule returns, 0 at the end of the file. */
  function Code(rule: nat): (tok: nat)
    requires rule <= 9
  {
    match rule
    case 0 => 0
    case 1 => T_HOSTNM
    case 2 => T_PORTNM
    case 3 => T_NUM
    case 4 => T_STRING
    case _ => 257 + rule
  }

  /** What a returned lexeme leaves in yylval and on the heap: the value of a number, a fresh
      copy of a string, otherwise nothing. */
  predicate Delivers(x: Lexeme, lval: SemValue, lval0: SemValue,
                     strings0: map<nat, seq<byte>>, strings: map<nat, seq<byte>>) {
    if x.rule == 3 then Decimal.AllDigits(x.text) && lval == Number(Decimal.Value(x.text)) && strings == strings0
    else if x.rule == 4 then
      lval.Pointer? && lval.id !in strings0 && strings == strings0[lval.id := x.text]
    else lval == lval0 && strings == strings0
  }

  /** The token codes of a text, up to its end. */
  function Codes(text: seq<byte>): (r: seq<nat>)
    decreases |text|
  {
    var l := Lex(text);
    if text == [] || l.lexeme.rule == 0 then [] else [Code(l.lexeme.rule)] + Codes(l.rest)
  }

  /** They are the codes of its lexemes, one for each, none of them 0. */
  lemma {:induction false} CodesOfLexemes(text: seq<byte>)
    ensures |Codes(text)| == |Lexemes(text)|
    ensures forall i :: 0 <= i < |Codes(text)| ==>
              1 <= Lexemes(text)[i].rule <= 9 && Codes(text)[i] == Code(Lexemes(text)[i].rule) != 0
    decreases |text|
  {
    var l := Lex(text);
    if text != [] && l.lexeme.rule != 0 {
      CodesOfLexemes(l.rest);
    }
  }

  lemma CodesStep(text: seq<byte>, toks: seq<nat>)
    ensures var l := Lex(text);
            && (l.lexeme.rule == 0 ==> Codes(text) == [])
            && (l.lexeme.rule != 0 ==>
                  && toks + Codes(text) == (toks + [Code(l.lexeme.rule)]) + Codes(l.rest)
                  && Code(l.lexeme.rule) != 0 && |l.rest| < |text|)
  {
  }

  datatype Status = New | Normal | EofPending

  datatype BufferAction = ContinueScan | EndOfFile | LastMatch

  const EOF_ACTION: nat := 14
  const READ_BUF_SIZE: nat := 8192
  const BUF_SIZE: nat := 16384

  // ---- Reasoning about a run through the buffer ----

  /** `n` bytes of `t` are the next lexeme whatever follows `t`: the scan stopped before the
      end, or in a state no character leaves. */
  predicate Stops(t: seq<byte>, n: nat) {
    && n <= |t| && Shape(t[..n]) != JAM
    && ((n < |t| && Shape(t[..n + 1]) == JAM) || YyBase(Shape(t[..n])) == JAM_BASE)
  }

  lemma FinalStates(s: nat, c: nat)
    requires IsState(s) && s < 30 && YyBase(s) == JAM_BASE && 1 <= c <= LAST_CLASS
    ensures Delta(s, c) == JAM
    ensures s in {4, 6, 7, 10, 11, 14, 15, JAM}
  {
  }

  lemma StopsFixesMunch(t: seq<byte>, n: nat, more: seq<byte>)
    requires Stops(t, n)
    ensures Munch(t + more) == n
  {
    var u := t + more;
    assert u[..n] == t[..n];
    if n < |u| {
      assert u[..n + 1] == u[..n] + [u[n]];
      if n < |t| && Shape(t[..n + 1]) == JAM {
        assert u[..n + 1] == t[..n + 1];
      } else {
        ShapeStep(u[..n], u[n]);
        FinalStates(Shape(u[..n]), Class(u[n]));
      }
    }
    MunchIs(u, n);
  }

  /** A live, non-empty text accepts a rule. */
  lemma LiveAccepts(w: seq<byte>)
    requires w != [] && Shape(w) != JAM
    ensures 1 <= YyAccept(Shape(w)) <= ScannerSpec.RULES
  {
    AcceptMeans(w);
  }

  /** A run over b[bp..n] has reached `cp`: either in the live state of the bytes so far, or
      just behind an end-of-buffer character met in such a state. */
  predicate InRun(b: seq<byte>, bp: nat, cp: nat, n: nat, state: nat) {
    && n + 1 < |b| && bp <= cp <= n + 1
    && if state == 3 then bp < cp && b[cp - 1] == NUL && Shape(b[bp..cp - 1]) != JAM
       else cp <= n && state == Shape(b[bp..cp]) != JAM
  }

  /** The scan of b[bp..n] is over: at `cp` with the rule of the lexeme, or just behind an
      end-of-buffer character. */
  predicate Done(b: seq<byte>, bp: nat, n: nat, cp: nat, act: nat) {
    && n + 1 < |b| && bp < cp <= n + 1
    && if act == END_OF_BUFFER then b[cp - 1] == NUL && Shape(b[bp..cp - 1]) != JAM
       else cp <= n && Stops(b[bp..n], cp - bp) && act == YyAccept(Shape(b[bp..cp])) && 1 <= act <= ScannerSpec.RULES
  }

  /** Reading one text byte from a live state: on to the next state, or the lexeme is known. */
  lemma ByteStep(b: seq<byte>, bp: nat, cp: nat, n: nat)
    requires n + 1 < |b| && bp <= cp < n && Shape(b[bp..cp]) != JAM
    ensures var t := Delta(Shape(b[bp..cp]), Class(b[cp]));
            && t == Shape(b[bp..cp + 1])
            && (t != JAM ==> InRun(b, bp, cp + 1, n, t))
            && (t != JAM && YyBase(t) == JAM_BASE ==> Done(b, bp, n, cp + 1, YyAccept(t)))
            && (t == JAM ==> bp < cp && Done(b, bp, n, cp, YyAccept(Shape(b[bp..cp]))))
  {
    var v, w := b[bp..cp], b[bp..cp + 1];
    assert w == v + [b[cp]];
    ShapeStep(v, b[cp]);
    assert b[bp..n][..cp + 1 - bp] == w;
    assert b[bp..n][..cp - bp] == v;
    if Shape(w) != JAM {
      LiveAccepts(w);
    }
    if v != [] {
      LiveAccepts(v);
    }
  }

  /** One more transition of a run. */
  lemma RunStep(b: seq<byte>, bp: nat, cp: nat, n: nat, state: nat)
    requires InRun(b, bp, cp, n, state) && b[n] == NUL
    ensures IsState(state) && state < 30
    ensures var t := Delta(state, YyEc(b[cp]));
            && (YyBase(t) != JAM_BASE ==> InRun(b, bp, cp + 1, n, t))
            && (YyBase(t) == JAM_BASE && YyAccept(t) != 0 ==> Done(b, bp, n, cp + 1, YyAccept(t)))
            && (YyBase(t) == JAM_BASE && YyAccept(t) == 0 ==>
                  YyAccept(state) != 0 && Done(b, bp, n, cp, YyAccept(state)))
  {
    if state != 3 && b[cp] != NUL {
      ByteStep(b, bp, cp, n);
    }
  }

  /** One pass through the body of the match loop: the state after reading b[cp]. */
  method Advance(b: array<byte>, ghost bp: nat, cp: nat, ghost n: nat, state: nat) returns (t: nat)
    requires InRun(b[..], bp, cp, n, state) && b[n] == NUL
    ensures t < 30
    ensures YyBase(t) != JAM_BASE ==> InRun(b[..], bp, cp + 1, n, t)
    ensures YyBase(t) == JAM_BASE && YyAccept(t) != 0 ==> Done(b[..], bp, n, cp + 1, YyAccept(t))
    ensures YyBase(t) == JAM_BASE && YyAccept(t) == 0 ==>
              YyAccept(state) != 0 && Done(b[..], bp, n, cp, YyAccept(state))
  {
    RunStep(b[..], bp, cp, n, state);
    var yyc := YyEc(b[cp]);
    WalkIsDelta(state, yyc);
    t := Transition(state, yyc);
  }

  /** A scan that is over has found the next lexeme of the text it works on. */
  lemma DoneFindsToken(b: seq<byte>, bp: nat, n: nat, cp: nat, act: nat, more: seq<byte>)
    requires Done(b, bp, n, cp, act) && act != END_OF_BUFFER
    ensures Munch(b[bp..n] + more) == cp - bp && act == Rule(b[bp..n] + more)
  {
    StopsFixesMunch(b[bp..n], cp - bp, more);
    assert (b[bp..n] + more)[..cp - bp] == b[bp..cp];
  }

  /** The rule of a lexeme whose length is known. */
  lemma RuleOfLive(b: seq<byte>, bp: nat, n: nat, cp: nat, more: seq<byte>)
    requires bp < cp <= n <= |b| && Shape(b[bp..cp]) != JAM && Munch(b[bp..n] + more) == cp - bp
    ensures Rule(b[bp..n] + more) == YyAccept(Shape(b[bp..cp]))
    ensures 1 <= YyAccept(Shape(b[bp..cp])) <= ScannerSpec.RULES
  {
    assert (b[bp..n] + more)[..cp - bp] == b[bp..cp];
    LiveAccepts(b[bp..cp]);
  }

  /** yytext and what remains behind it, with the held character put back. */
  lemma SplitText(b: seq<byte>, hold: byte, bp: nat, cp: nat, n: nat, more: seq<byte>)
    requires bp <= cp <= n < |b|
    ensures var text := b[cp := hold][bp..n] + more;
            text[..cp - bp] == b[bp..cp] && text[cp - bp..] == b[cp := hold][cp..n] + more
  {
  }

  /** A NUL in the text either extends the lexeme or ends it. */
  lemma NulEndsOrGoesOn(b: seq<byte>, bp: nat, e: nat, n: nat, more: seq<byte>)
    requires bp <= e < n <= |b| && b[e] == NUL && Shape(b[bp..e]) != JAM
    ensures b[bp..e + 1] == b[bp..e] + [NUL]
    ensures Shape(b[bp..e] + [NUL]) == JAM ==> bp < e && Munch(b[bp..n] + more) == e - bp
  {
    var w := b[bp..e];
    assert b[bp..e + 1] == w + [NUL];
    FirstStep(NUL);
    if w == [] {
      assert w + [NUL] == [NUL];
    }
    if Shape(w + [NUL]) == JAM {
      assert b[bp..n][..|w|] == w && b[bp..n][..|w| + 1] == w + [NUL];
      StopsFixesMunch(b[bp..n], |w|, more);
    }
  }

  /** How a scan goes on after the end of the buffer. */
  datatype Next = Match(bp: nat, cp: nat, state: nat) | Find(bp: nat, cp: nat, state: nat) | AtEof

  class Lexer {
    var buf: array<byte>         // yy_ch_buf
    var bufSize: nat             // yy_buf_size
    var nChars: nat              // yy_n_chars
    var bufNChars: nat           // yy_current_buffer->yy_n_chars
    var cBufP: nat               // yy_c_buf_p
    var textP: nat               // yytext_ptr
    var hold: byte               // yy_hold_char
    var status: Status
    var lastState: nat           // yy_last_accepting_state
    var lastPos: nat             // yy_last_accepting_cpos
    var lval: SemValue              // yylval
    var echoed: seq<byte>        // what ECHO wrote
    const input: Input
    const heap: Heap

    /** The buffer between tokens and during a scan: two end-of-buffer characters behind the
        text, and nothing left to read once the end of file is pending. */
    ghost predicate Plain(b: seq<byte>)
      reads `bufSize, `nChars, `bufNChars, `status, input
    {
      && |b| == bufSize + 2 && 1 <= bufSize && nChars <= bufSize
      && b[nChars] == NUL && b[nChars + 1] == NUL
      && (status.New? ==> nChars == 0 && bufNChars == 0)
      && (status.EofPending? ==> input.data == [])
    }

    /** The buffer with the character hidden by the terminator of yytext put back. */
    ghost function Restored(): (b: seq<byte>)
      reads `buf, `cBufP, `hold, buf
    {
      if cBufP < buf.Length then buf[..][cBufP := hold] else buf[..]
    }

    ghost predicate Valid()
      reads `buf, `bufSize, `nChars, `bufNChars, `cBufP, `textP, `hold, `status, `lastState
      reads buf, input, heap
    {
      && cBufP <= nChars && textP <= cBufP && lastState < 30
      && Plain(Restored())
      && heap.Valid()
    }

    /** All text not yet scanned: the rest of the buffer and the unread input. */
    ghost function Text(): (t: seq<byte>)
      reads `buf, `bufSize, `nChars, `bufNChars, `cBufP, `textP, `hold, `status, `lastState
      reads buf, input, heap
      requires Valid()
    {
      Restored()[cBufP..nChars] + input.data
    }

    constructor (input: Input, heap: Heap)
      requires heap.Valid()
      ensures Valid() && fresh(buf) && this.input == input && this.heap == heap
      ensures Text() == input.data && echoed == []
    {
      this.input, this.heap := input, heap;
      buf := new byte[BUF_SIZE + 2](_ => NUL);
      bufSize, nChars, bufNChars, cBufP, textP, hold := BUF_SIZE, 0, 0, 0, 0, NUL;
      status, lastState, lastPos, lval, echoed := New, 0, 0, Undefined, [];
    }

    /** `yy_find_action`: the rule of the state, or of the last accepting one. */
    method FindAction(cp0: nat, s0: nat) returns (cp: nat, act: nat)
      requires s0 < 30 && lastState < 30
      ensures if YyAccept(s0) != 0 then cp == cp0 && act == YyAccept(s0)
              else cp == lastPos && act == YyAccept(lastState)
    {
      cp, act := cp0, YyAccept(s0);
      if act == 0 {
        cp := lastPos;
        act := YyAccept(lastState);
      }
    }

    /** The body of the match loop. When it leaves the loop, the action is known. */
    method MatchStep(bp: nat, cp: nat, state: nat) returns (t: nat)
      requires Plain(buf[..]) && InRun(buf[..], bp, cp, nChars, state) && state < 30 && lastState < 30
      modifies this`lastState, this`lastPos
      ensures t < 30 && lastState < 30
      ensures YyBase(t) != JAM_BASE ==> InRun(buf[..], bp, cp + 1, nChars, t)
      ensures YyBase(t) == JAM_BASE ==>
                if YyAccept(t) != 0 then Done(buf[..], bp, nChars, cp + 1, YyAccept(t))
                else Done(buf[..], bp, nChars, lastPos, YyAccept(lastState)) && lastPos == cp && lastState == state
    {
      if YyAccept(state) != 0 {
        lastState := state;
        lastPos := cp;
      }
      t := Advance(buf, bp, cp, nChars, state);
    }

    /** The match loop: from the live state of buf[bp..cp0], run until the automaton leaves
        every path, then find the action. */
    method MatchAndFind(bp: nat, cp0: nat, s0: nat) returns (cp: nat, act: nat)
      requires Plain(buf[..]) && InRun(buf[..], bp, cp0, nChars, s0) && s0 != 3 && lastState < 30
      modifies this`lastState, this`lastPos
      ensures Done(buf[..], bp, nChars, cp, act) && lastState < 30
      ensures act == END_OF_BUFFER ==> cp0 < cp
    {
      var state: nat := s0;
      cp := cp0;
      while true
        invariant InRun(buf[..], bp, cp, nChars, state) && state < 30 && lastState < 30
        invariant cp0 <= cp && (state == 3 ==> cp0 < cp)
        decreases nChars + 2 - cp
      {
        state := MatchStep(bp, cp, state);
        cp := cp + 1;
        if YyBase(state) == JAM_BASE {
          break;
        }
      }
      cp, act := FindAction(cp, state);
    }

    /** `yy_get_previous_state`: the state reached by replaying yytext up to yy_c_buf_p. */
    method GetPreviousState() returns (s: nat)
      requires textP <= cBufP <= buf.Length && lastState < 30
      modifies this`lastState, this`lastPos
      ensures s == Shape(buf[textP..cBufP]) && lastState < 30
    {
      s := 1;
      var cp := textP;
      while cp < cBufP
        invariant textP <= cp <= cBufP && s == Shape(buf[textP..cp]) && lastState < 30
      {
        var yyc := if buf[cp] != NUL then YyEc(buf[cp]) else 1;
        if YyAccept(s) != 0 {
          lastState := s;
          lastPos := cp;
        }
        assert buf[textP..cp + 1] == buf[textP..cp] + [buf[cp]];
        ShapeStep(buf[textP..cp], buf[cp]);
        WalkIsDelta(s, yyc);
        s := Transition(s, yyc);
        cp := cp + 1;
      }
    }

    /** `yy_try_NUL_trans`: the transition on a NUL that really is text, 0 when it jams. */
    method TryNulTrans(s: nat, ghost w: seq<byte>) returns (t: nat)
      requires s == Shape(w) && lastState < 30
      modifies this`lastState, this`lastPos
      ensures lastState < 30
      ensures t == if Shape(w + [NUL]) == JAM then 0 else Shape(w + [NUL])
    {
      if YyAccept(s) != 0 {
        lastState := s;
        lastPos := cBufP;
      }
      ShapeStep(w, NUL);
      WalkIsDelta(s, 1);
      t := Transition(s, 1);
      if t == JAM {
        t := 0;
      }
    }

    /** `yyrestart`, as far as it is used here: the flushed buffer of a new input. */
    method Restart()
      requires buf.Length == bufSize + 2
      modifies this`nChars, this`bufNChars, this`textP, this`cBufP, this`hold, this`status, buf
      ensures nChars == bufNChars == textP == cBufP == 0 && status.New?
      ensures buf[0] == NUL && buf[1] == NUL && hold == NUL
    {
      bufNChars := 0;
      buf[0] := NUL;
      buf[1] := NUL;
      status := New;
      nChars := bufNChars;
      textP := 0;
      cBufP := 0;
      hold := buf[cBufP];
    }

    /** Doubling the buffer until there is room to read behind `moved` kept characters. */
    method Grow(moved: nat)
      requires buf.Length == bufSize + 2 && 1 <= bufSize && moved <= bufSize
      modifies this`buf, this`bufSize
      ensures buf.Length == bufSize + 2 && moved + 1 < bufSize + 1 && old(bufSize) <= bufSize
      ensures buf == old(buf) || fresh(buf)
      ensures bufSize - moved - 1 > 0
      ensures buf[..moved] == old(buf[..moved])
    {
      ghost var kept := buf[..moved];
      while bufSize - moved - 1 <= 0
        invariant buf.Length == bufSize + 2 && 1 <= bufSize && moved <= bufSize && old(bufSize) <= bufSize
        invariant buf == old(buf) || fresh(buf)
        invariant buf[..moved] == kept
        decreases moved + 2 - bufSize
      {
        var bigger := new byte[bufSize * 2 + 2];
        forall k | 0 <= k < bufSize + 2 {
          bigger[k] := buf[k];
        }
        bufSize := bufSize * 2;
        buf := bigger;
      }
    }

    /** Copying the matched text to the start of the buffer, first byte first. */
    method MoveToFront(moved: nat)
      requires textP + moved < buf.Length
      modifies buf
      ensures buf[..moved] == old(buf[textP..textP + moved])
    {
      ghost var m := buf[textP..textP + moved];
      var i := 0;
      while i < moved
        invariant 0 <= i <= moved
        invariant forall k :: 0 <= k < i ==> buf[k] == m[k]
        invariant forall k :: i <= k < moved ==> buf[textP + k] == m[k]
      {
        buf[i] := buf[textP + i];
        i := i + 1;
      }
      assert buf[..moved] == m;
    }

    /** Reading behind the kept characters, growing the buffer first when it is full. */
    method ReadMore(moved: nat)
      requires buf.Length == bufSize + 2 && 1 <= bufSize && moved <= bufSize
      modifies this`buf, this`bufSize, this`nChars, this`bufNChars, buf, input
      ensures buf == old(buf) || fresh(buf)
      ensures buf.Length == bufSize + 2 && 1 <= bufSize && moved + nChars < bufSize
      ensures buf[..moved] == old(buf[..moved]) && bufNChars == nChars
      ensures buf[moved..moved + nChars] + input.data == old(input.data)
      ensures nChars == 0 <==> old(input.data) == []
    {
      ghost var kept := buf[..moved];
      Grow(moved);
      var toRead := Min(bufSize - moved - 1, READ_BUF_SIZE);
      var piece := input.Read(toRead);
      forall k | 0 <= k < |piece| {
        buf[moved + k] := piece[k];
      }
      nChars := |piece|;
      bufNChars := nChars;
      assert buf[moved..moved + nChars] == piece;
      assert buf[..moved] == kept;
    }

    /** `yy_get_next_buffer`, called just behind the end-of-buffer character: the matched text
        moves to the front and more input, if there is any, follows it. */
    method GetNextBuffer() returns (action: BufferAction)
      requires Plain(buf[..]) && textP <= nChars && cBufP == nChars + 1 && !status.New?
      modifies this, buf, input
      ensures buf == old(buf) || fresh(buf)
      ensures lval == old(lval) && echoed == old(echoed) && lastState == old(lastState)
      ensures Plain(buf[..]) && textP == 0
      ensures old(nChars - textP) <= nChars && buf[..old(nChars - textP)] == old(buf[textP..nChars])
      ensures buf[..nChars] + input.data == old(buf[textP..nChars]) + old(input.data)
      ensures action.ContinueScan? ==> |input.data| < old(|input.data|)
      ensures action.LastMatch? ==> old(textP < nChars) && input.data == old(input.data) == []
      ensures action.EndOfFile? ==> nChars == 0 && cBufP == 0 && hold == NUL && input.data == old(input.data) == []
    {
      var moved := cBufP - textP - 1;
      ghost var m := buf[textP..nChars];
      MoveToFront(moved);
      Refill(moved);
      assert buf[..moved] == m;
      action := AfterRefill(moved);
    }

    /** What the read brought decides how the scan goes on. */
    method AfterRefill(moved: nat) returns (action: BufferAction)
      requires buf.Length == bufSize + 2 && 1 <= bufSize && moved + nChars <= bufSize && bufNChars == nChars
      requires !status.New? && (nChars == 0 ==> input.data == []) && (status.EofPending? ==> input.data == [])
      modifies this`nChars, this`bufNChars, this`textP, this`cBufP, this`hold, this`status, buf
      ensures Plain(buf[..]) && textP == 0 && nChars == moved + old(nChars)
      ensures buf[..nChars] == old(buf[..moved + nChars])
      ensures action.ContinueScan? <==> old(nChars) > 0
      ensures action.LastMatch? <==> old(nChars) == 0 && moved > 0
      ensures action.EndOfFile? ==> nChars == 0 && cBufP == 0 && hold == NUL
    {
      if nChars == 0 {
        if moved == 0 {
          action := EndOfFile;
          Restart();
        } else {
          action := LastMatch;
          status := EofPending;
        }
      } else {
        action := ContinueScan;
      }
      EndText(moved);
    }

    /** Nothing is read while an end of file is pending. */
    method Refill(moved: nat)
      requires buf.Length == bufSize + 2 && 1 <= bufSize && moved <= bufSize
      requires status.EofPending? ==> input.data == []
      modifies this`buf, this`bufSize, this`nChars, this`bufNChars, buf, input
      ensures buf == old(buf) || fresh(buf)
      ensures buf.Length == bufSize + 2 && 1 <= bufSize && moved + nChars <= bufSize
      ensures buf[..moved] == old(buf[..moved]) && bufNChars == nChars
      ensures buf[moved..moved + nChars] + input.data == old(input.data)
      ensures nChars == 0 <==> old(input.data) == []
    {
      if status.EofPending? {
        bufNChars, nChars := 0, 0;
      } else {
        ReadMore(moved);
      }
    }

    /** Counting the kept characters in and marking the end of the text. */
    method EndText(moved: nat)
      requires buf.Length == bufSize + 2 && moved + nChars <= bufSize
      modifies this`nChars, this`textP, buf
      ensures nChars == moved + old(nChars) && textP == 0
      ensures buf[nChars] == NUL && buf[nChars + 1] == NUL
      ensures buf[..nChars] == old(buf[..moved + nChars])
    {
      ghost var text := buf[..moved + nChars];
      nChars := nChars + moved;
      buf[nChars] := NUL;
      buf[nChars + 1] := NUL;
      textP := 0;
      assert buf[..nChars] == text;
    }

    /** YY_DO_BEFORE_ACTION: yytext ends at `cp`, the character there is held back. */
    method BeforeAction(bp: nat, cp: nat)
      requires cp < buf.Length
      modifies this`textP, this`hold, this`cBufP, buf
      ensures textP == bp && cBufP == cp && hold == old(buf[cp])
      ensures buf[..] == old(buf[..])[cp := NUL]
    {
      textP := bp;
      hold := buf[cp];
      buf[cp] := NUL;
      cBufP := cp;
    }

    /** The scan of `text` can go on at `nx`. */
    ghost predicate GoesOn(nx: Next, text: seq<byte>)
      reads this, buf, input
      requires !nx.AtEof?
    {
      && nx.bp <= nx.cp <= nChars < buf.Length
      && buf[nx.bp..nChars] + input.data == text
      && nx.state == Shape(buf[nx.bp..nx.cp]) != JAM
      && (nx.Find? ==> nx.bp < nx.cp && Munch(text) == nx.cp - nx.bp)
    }

    /** The action for an end-of-buffer character that turns out to be text. */
    method RealNul(matched: nat) returns (nx: Next)
      requires Plain(buf[..]) && textP + matched < nChars && lastState < 30
      requires buf[textP + matched] == NUL && Shape(buf[textP..textP + matched]) != JAM
      modifies this`cBufP, this`lastState, this`lastPos
      ensures lastState < 30 && !nx.AtEof? && GoesOn(nx, buf[textP..nChars] + input.data)
      ensures nx.cp == textP + matched + if nx.Match? then 1 else 0
    {
      cBufP := textP + matched;
      NulEndsOrGoesOn(buf[..], textP, cBufP, nChars, input.data);
      var state := GetPreviousState();
      var next := TryNulTrans(state, buf[textP..cBufP]);
      if next != 0 {
        cBufP := cBufP + 1;
        nx := Match(textP, cBufP, next);
      } else {
        nx := Find(textP, cBufP, state);
      }
    }

    /** The action for the end of the buffer proper. */
    method RefillAndGoOn(matched: nat) returns (nx: Next)
      requires Plain(buf[..]) && !status.New? && lastState < 30
      requires textP + matched == nChars && cBufP == nChars + 1
      requires Shape(buf[textP..nChars]) != JAM
      modifies this, buf, input
      ensures buf == old(buf) || fresh(buf)
      ensures lval == old(lval) && echoed == old(echoed) && lastState < 30
      ensures Plain(buf[..])
      ensures !nx.AtEof? ==> GoesOn(nx, old(buf[textP..nChars] + input.data))
      ensures nx.Match? ==> |input.data| < old(|input.data|)
      ensures nx.Find? ==> input.data == old(input.data) && nx.cp == nChars
      ensures nx.AtEof? ==>
                && old(buf[textP..nChars] + input.data) == [] == input.data
                && nChars == 0 && cBufP == 0 && textP == 0 && hold == NUL
    {
      ghost var w, text := buf[textP..nChars], buf[textP..nChars] + input.data;
      var action := GetNextBuffer();
      match action
      case EndOfFile =>
        cBufP := textP;
        nx := AtEof;
      case ContinueScan =>
        cBufP := textP + matched;
        var state := GetPreviousState();
        assert buf[textP..cBufP] == w;
        assert buf[textP..nChars] == buf[..nChars];
        nx := Match(textP, cBufP, state);
      case LastMatch =>
        cBufP := nChars;
        var state := GetPreviousState();
        assert buf[textP..cBufP] == buf[..nChars] == text == w;
        assert text[..|w|] == w;
        MunchIs(text, |w|);
        nx := Find(textP, cBufP, state);
    }

    /** YY_DO_BEFORE_ACTION, and its effect on the buffer undone, as the end-of-buffer action
        starts. */
    method Undo(bp: nat, cp: nat)
      requires cp < buf.Length
      modifies this`textP, this`hold, this`cBufP, buf
      ensures textP == bp && cBufP == cp && buf[..] == old(buf[..])
    {
      BeforeAction(bp, cp);
      buf[cp] := hold;
    }

    /** The action at the end-of-buffer character just behind which `cp` stands. */
    method EndOfBuffer(cp: nat) returns (nx: Next)
      requires Plain(buf[..]) && lastState < 30
      requires textP < cp == cBufP <= nChars + 1 && buf[cp - 1] == NUL && Shape(buf[textP..cp - 1]) != JAM
      modifies this, buf, input
      ensures buf == old(buf) || fresh(buf)
      ensures lval == old(lval) && echoed == old(echoed) && lastState < 30
      ensures Plain(buf[..])
      ensures !nx.AtEof? ==> GoesOn(nx, old(buf[textP..nChars] + input.data))
      ensures nx.Match? ==>
                |input.data| < old(|input.data|)
                || (input.data == old(input.data) && nChars - nx.cp < old(nChars) - (cp - 1))
      ensures nx.Find? ==> input.data == old(input.data) && nChars - nx.cp <= old(nChars) - (cp - 1)
      ensures nx.AtEof? ==>
                && old(buf[textP..nChars] + input.data) == [] == input.data
                && nChars == 0 && cBufP == 0 && textP == 0 && hold == NUL
    {
      var matched := cp - textP - 1;
      if status.New? {
        nChars := bufNChars;
        status := Normal;
      }
      if cBufP <= nChars {
        nx := RealNul(matched);
      } else {
        nx := RefillAndGoOn(matched);
      }
    }

    /** From a point where the scan goes on to its action. */
    method RunToAction(nx: Next, ghost text: seq<byte>) returns (cp: nat, act: nat)
      requires Plain(buf[..]) && lastState < 30 && !nx.AtEof? && GoesOn(nx, text)
      modifies this`lastState, this`lastPos
      ensures lastState < 30 && nx.bp < cp <= nChars + 1
      ensures act == END_OF_BUFFER ==>
                nx.Match? && nx.cp < cp && buf[cp - 1] == NUL && Shape(buf[nx.bp..cp - 1]) != JAM
      ensures act != END_OF_BUFFER ==>
                cp <= nChars && Munch(text) == cp - nx.bp && act == Rule(text) && act <= ScannerSpec.RULES
    {
      if nx.Match? {
        cp, act := MatchAndFind(nx.bp, nx.cp, nx.state);
        if act != END_OF_BUFFER {
          DoneFindsToken(buf[..], nx.bp, nChars, cp, act, input.data);
        }
      } else {
        RuleOfLive(buf[..], nx.bp, nChars, nx.cp, input.data);
        cp, act := FindAction(nx.cp, nx.state);
      }
    }

    /** The next lexeme of `text`, or its end, has been found and yytext set up. */
    ghost predicate Found(act: nat, text: seq<byte>)
      reads this, buf, input
    {
      && textP <= cBufP <= nChars && Plain(Restored())
      && Restored()[textP..nChars] + input.data == text
      && if act == EOF_ACTION then text == [] == input.data && nChars == 0
         else act <= ScannerSpec.RULES && Munch(text) == cBufP - textP > 0 && act == Rule(text)
    }

    /** YY_DO_BEFORE_ACTION for an accepted rule. */
    method SetText(bp: nat, cp: nat, ghost act: nat, ghost text: seq<byte>)
      requires Plain(buf[..]) && bp < cp <= nChars && buf[bp..nChars] + input.data == text
      requires act <= ScannerSpec.RULES && Munch(text) == cp - bp && act == Rule(text)
      modifies this`textP, this`hold, this`cBufP, buf
      ensures Found(act, text)
    {
      ghost var b := buf[..];
      BeforeAction(bp, cp);
      assert Restored() == b;
    }

    /** One pass from matching to the action, with the action when it is not the end of the
        buffer. */
    method OneRound(at: Next, ghost text: seq<byte>) returns (nx: Next, act: nat)
      requires Plain(buf[..]) && !at.AtEof? && GoesOn(at, text) && lastState < 30
      modifies this, buf, input
      ensures buf == old(buf) || fresh(buf)
      ensures lval == old(lval) && echoed == old(echoed) && lastState < 30
      ensures act != END_OF_BUFFER ==> Found(act, text)
      ensures act == END_OF_BUFFER ==> !nx.AtEof? && Plain(buf[..]) && GoesOn(nx, text)
      ensures act == END_OF_BUFFER ==>
                |input.data| < old(|input.data|)
                || (|input.data| == old(|input.data|) &&
                      (nChars - nx.cp < old(nChars) - at.cp
                       || (nChars - nx.cp == old(nChars) - at.cp && nx.Find? && at.Match?)))
    {
      var cp;
      cp, act := RunToAction(at, text);
      nx := at;
      if act == END_OF_BUFFER {
        Undo(at.bp, cp);
        nx := EndOfBuffer(cp);
        if nx.AtEof? {
          act := EOF_ACTION;
          assert Restored() == buf[..];
        }
      } else {
        SetText(at.bp, cp, act, text);
      }
    }

    /** The scan loop, refills included, up to an action other than the end of the buffer. */
    method RunFrom(start: Next, ghost text: seq<byte>) returns (act: nat)
      requires Plain(buf[..]) && !start.AtEof? && GoesOn(start, text) && lastState < 30
      modifies this, buf, input
      ensures buf == old(buf) || fresh(buf)
      ensures lval == old(lval) && echoed == old(echoed) && lastState < 30
      ensures Found(act, text)
    {
      var nx := start;
      while true
        invariant buf == old(buf) || fresh(buf)
        invariant lval == old(lval) && echoed == old(echoed) && lastState < 30
        invariant Plain(buf[..]) && !nx.AtEof? && GoesOn(nx, text)
        decreases |input.data|, nChars - nx.cp, nx.Match?
      {
        nx, act := OneRound(nx, text);
        if act != END_OF_BUFFER {
          return;
        }
      }
    }

    /** One run of the scanner from yy_c_buf_p to the next action: an accepted rule with yytext
        set up, or the end of the input. */
    method ScanRun() returns (act: nat)
      requires Valid()
      modifies this, buf, input
      ensures buf == old(buf) || fresh(buf)
      ensures Valid() && lval == old(lval) && echoed == old(echoed)
      ensures act == EOF_ACTION <==> old(Text()) == []
      ensures act == EOF_ACTION ==> Text() == []
      ensures act != EOF_ACTION ==>
                && act == Rule(old(Text())) && Text() == old(Text())[Munch(old(Text()))..]
                && buf[textP..cBufP] == old(Text())[..Munch(old(Text()))]
    {
      ghost var text := Text();
      buf[cBufP] := hold;
      assert buf[..] == old(Restored());
      assert buf[cBufP..cBufP] == [];
      act := RunFrom(Match(cBufP, cBufP, 1), text);
      SplitText(buf[..], hold, textP, cBufP, nChars, input.data);
    }

    /** One scan, with the ECHO of the default rule. */
    method ScanAndEcho() returns (act: nat)
      requires Valid()
      modifies this, buf, input
      ensures buf == old(buf) || fresh(buf)
      ensures Valid() && lval == old(lval)
      ensures act == ActOf(old(Text())) && Text() == RestOf(old(Text()))
      ensures buf[textP..cBufP] == TextOf(old(Text())) || act == EOF_ACTION
      ensures echoed == old(echoed) + EchoOf(old(Text()))
    {
      act := ScanRun();
      if act == 12 {
        echoed := echoed + buf[textP..cBufP];
      }
    }

    /** The lexeme wanted is still ahead, with `total` echoed once it is reached. */
    ghost predicate Skipping(goal: Lexed, total: seq<byte>)
      reads this, buf, input, heap
    {
      && Valid() && Lex(Text()).lexeme == goal.lexeme && Lex(Text()).rest == goal.rest
      && echoed + Lex(Text()).echo == total
    }

    method SkipOne(ghost goal: Lexed, ghost total: seq<byte>) returns (act: nat)
      requires Skipping(goal, total)
      modifies this, buf, input
      ensures (buf == old(buf) || fresh(buf)) && lval == old(lval)
      ensures 1 <= act && Valid()
      ensures act == EOF_ACTION ==> goal.lexeme.rule == 0
      ensures act <= 9 ==> act == goal.lexeme.rule && buf[textP..cBufP] == goal.lexeme.text
      ensures act == EOF_ACTION || act <= 9 ==> Text() == goal.rest && echoed == total
      ensures act != EOF_ACTION && act > 9 ==> Skipping(goal, total) && |Text()| < old(|Text()|)
    {
      LexStep(Text(), echoed);
      act := ScanAndEcho();
    }

    /** The rules without a return: blanks, newlines and ECHO go round the loop of `yylex`. */
    method SkipToToken() returns (act: nat)
      requires Valid()
      modifies this, buf, input
      ensures (buf == old(buf) || fresh(buf)) && lval == old(lval)
      ensures Valid() && Text() == Lex(old(Text())).rest
      ensures echoed == old(echoed) + Lex(old(Text())).echo
      ensures act == EOF_ACTION ==> Lex(old(Text())).lexeme.rule == 0
      ensures act != EOF_ACTION ==> 1 <= act == Lex(old(Text())).lexeme.rule
      ensures act != EOF_ACTION ==> buf[textP..cBufP] == Lex(old(Text())).lexeme.text
    {
      ghost var goal := Lex(Text());
      ghost var total := echoed + goal.echo;
      while true
        invariant (buf == old(buf) || fresh(buf)) && lval == old(lval)
        invariant Skipping(goal, total)
        decreases |Text()|
      {
        act := SkipOne(goal, total);
        if act == EOF_ACTION || act <= 9 {
          return;
        }
      }
    }

    /** `yylex`: however the input is cut into reads, the token returned, the text left behind
        and the echoed characters are those of scanning the whole remaining text at once. */
    method Yylex() returns (tok: nat)
      requires Valid()
      modifies this, buf, input, heap
      ensures buf == old(buf) || fresh(buf)
      ensures Valid() && Text() == Lex(old(Text())).rest
      ensures tok == Code(Lex(old(Text())).lexeme.rule)
      ensures echoed == old(echoed) + Lex(old(Text())).echo
      ensures Delivers(Lex(old(Text())).lexeme, lval, old(lval), old(heap.strings), heap.strings)
    {
      hide Lex, Decimal.AllDigits, Decimal.Value;
      LexDigits(Text());
      var act := SkipToToken();
      if act == EOF_ACTION {
        return 0;
      }
      if act == 3 {
        var n := Decimal.Atoi(buf[textP..cBufP]);
        lval := Number(n);
      } else if act == 4 {
        var id := heap.Strdup(buf[textP..cBufP]);
        lval := Pointer(id);
      }
      tok := Code(act);
    }

    /** Calling `yylex` to the end of the file: the tokens are those of the whole text, however
        the input is cut into reads. */
    method Tokens() returns (toks: seq<nat>)
      requires Valid()
      modifies this, buf, input, heap
      ensures buf == old(buf) || fresh(buf)
      ensures Valid() && Text() == [] && toks == Codes(old(Text()))
    {
      hide Lex, Codes, Code, Delivers;
      ghost var all := Codes(Text());
      toks := [];
      while true
        invariant buf == old(buf) || fresh(buf)
        invariant Valid() && toks + Codes(Text()) == all
        decreases |Text()|
      {
        CodesStep(Text(), toks);
        EndCode(Text());
        var tok := Yylex();
        if tok == 0 {
          return;
        }
        toks := toks + [tok];
      }
    }
  }

  lemma EndCode(text: seq<byte>)
    ensures var l := Lex(text); Code(l.lexeme.rule) == 0 <==> l.lexeme.rule == 0
    ensures Lex(text).lexeme.rule == 0 ==> Lex(text).rest == []
  {
  }
}
