/** `yyparse` of chpater12/parser.tab.c: the table-driven parser over its two stacks, with the
    semantic actions of parser.y. */
module Parser {
  import opened CStrings
  import Decimal
  import opened Scanner
  import opened ParserSpec
  import opened ParserTables
  import opened ParserRun

  const YYINITDEPTH: nat := 200
  const YYEMPTY: int := -2
  const YYEOF: int := 0

  /** One more lexeme of a text. */
  lemma LexemesStep(text: seq<byte>)
    ensures var l := Lex(text);
            Lexemes(text) == if l.lexeme.rule == 0 then [] else [l.lexeme] + Lexemes(l.rest)
    ensures Lex(text).lexeme.rule == 0 ==> Lex(text).rest == []
  {
  }

  lemma {:induction false} LexemesScanned(text: seq<byte>)
    ensures Scanned(Lexemes(text))
    decreases |text|
  {
    var l := Lex(text);
    if text != [] && l.lexeme.rule != 0 {
      LexDigits(text);
      LexemesScanned(l.rest);
      assert Lexemes(text) == [l.lexeme] + Lexemes(l.rest);
    }
  }

  /** The lexemes still to be shifted. */
  function Pending(look: Look, text: seq<byte>): (w: seq<Lexeme>) {
    match look
    case NoToken => Lexemes(text)
    case EndToken => []
    case Token(x) => [x] + Lexemes(text)
  }

  /** yychar holds the look-ahead. */
  predicate Holds(yychar: int, look: Look) {
    match look
    case NoToken => yychar == YYEMPTY
    case EndToken => yychar == YYEOF
    case Token(x) => 1 <= x.rule <= 9 && yychar == Code(x.rule) as int
  }

  /** The translated code of a lexeme is its grammar symbol. */
  lemma TranslateCode(x: Lexeme)
    requires 1 <= x.rule <= 9
    ensures Code(x.rule) > 0 && YyTranslate(Code(x.rule)) == Kind(x) <= 11
  {
  }

  lemma PendingScanned(look: Look, text: seq<byte>)
    requires look.Token? ==> Scanned([look.x])
    ensures Scanned(Pending(look, text))
  {
    LexemesScanned(text);
    if look.Token? {
      assert [look.x][0] == look.x;
    }
  }

  /** Reading a token does not change the lexemes ahead. */
  lemma ReadPending(text: seq<byte>, look: Look)
    requires look == if Lex(text).lexeme.rule == 0 then EndToken else Token(Lex(text).lexeme)
    ensures Pending(look, Lex(text).rest) == Lexemes(text)
    ensures look.EndToken? ==> Lex(text).rest == []
    ensures look.Token? ==> Scanned([look.x])
  {
    LexemesStep(text);
    LexDigits(text);
  }

  // ---- The state stack ----

  /** A state stack that is a path of the automaton, with the statement on it. */
  ghost predicate StackIs(some: bool, state: nat, cur: seq<Lexeme>, states: seq<int>) {
    Reachable(some, state) && Matches(cur, state) && Scanned(cur) && states == Stack(some, state)
  }

  lemma StackMeans(some: bool, state: nat, cur: seq<Lexeme>, states: seq<int>)
    requires StackIs(some, state, cur, states)
    ensures Reachable(some, state) && Matches(cur, state) && Scanned(cur) && states == Stack(some, state)
    ensures 1 <= |states| <= 10 && states[|states| - 1] == state
    ensures forall i :: 0 <= i < |states| ==> 0 <= states[i] <= LAST_STATE
  {
    StackDepth(some, state);
  }

  lemma ShiftStack(some: bool, state: nat, cur: seq<Lexeme>, states: seq<int>, x: Lexeme)
    requires StackIs(some, state, cur, states) && Scanned([x]) && Kind(x) <= 11 && Decide(state, Kind(x)).Shift?
    ensures var s := Decide(state, Kind(x)).state; var next := states + [s];
            1 <= |states| < |next| <= 10 && StackIs(some, s, CurAfter(s, cur, x), next)
  {
    var s := Decide(state, Kind(x)).state;
    ShiftMoves(some, state, Kind(x));
    ShiftKeepsMatch(some, state, cur, x);
    StackDepth(some, s);
  }

  lemma ShiftKeepsMatch(some: bool, state: nat, cur: seq<Lexeme>, x: Lexeme)
    requires Reachable(some, state) && Matches(cur, state) && Scanned(cur) && Scanned([x])
    requires Decide(state, Kind(x)).Shift?
    ensures var s := Decide(state, Kind(x)).state; Matches(CurAfter(s, cur, x), s) && Scanned(CurAfter(s, cur, x))
  {
    assert [x][0] == x;
    ShiftMatches(some, state, cur, x);
    ScannedMore(cur, x, []);
    if Decide(state, Kind(x)).state !in {1, 3, 13} {
      MatchesMore(cur, state, Decide(state, Kind(x)).state, x);
    }
  }

  lemma ReduceStack(some: bool, state: nat, cur: seq<Lexeme>, states: seq<int>, rule: nat)
    requires StackIs(some, state, cur, states) && Default(state) == Reduce(rule)
    ensures 2 <= rule <= 9 && 0 < YyR2(rule) < |states| <= 10
    ensures var below, s := states[..|states| - YyR2(rule)], After(some, rule);
            && below[|below| - 1] >= 0 && Goto(below[|below| - 1], rule) == s
            && StackIs(SomeAfter(some, rule), s, [], below + [s])
  {
    hide Stack, Default, Goto, YyR2, Reachable, Seen, After, SomeAfter;
    ReduceMoves(some, state, rule);
    StackDepth(some, state);
  }

  /** What the actions make of a text. */
  function MeaningOf(g: Globals, text: seq<byte>): (r: Outcome) {
    LexemesScanned(text);
    Meaning(g, Lexemes(text))
  }

  lemma AcceptedIffDerived(g: Globals, text: seq<byte>)
    ensures MeaningOf(g, text).Accepted? <==> Derives(Kinds(Lexemes(text)))
    ensures MeaningOf(g, text).Accepted? ==> Assigned(g, text, MeaningOf(g, text).globals)
    ensures LeftBy(g, text, MeaningOf(g, text).globals)
    ensures MeaningOf(g, text).Accepted? ==>
              Lexemes(text) != [] && CutTo79(MeaningOf(g, text).globals.program, Lexemes(text)[0].text)
    ensures Fits(g) ==> Fits(MeaningOf(g, text).globals)
  {
    LexemesScanned(text);
    GlobalsFit(g, Lexemes(text));
    MeaningIffDerives(g, Lexemes(text));
    MeaningLeaves(g, Lexemes(text));
    if MeaningOf(g, text).Accepted? {
      AcceptedAssigns(g, Lexemes(text));
      AssignedInBytes(g, Lexemes(text));
    }
  }

  /** The globals with their terminators fit into arrays of 80 bytes. */
  predicate Fits(g: Globals) {
    |g.program| <= 79 && |g.host| <= 79 && |g.port| <= 79
  }

  /** The globals show what was carried out of the text, up to its end or its first error. */
  ghost predicate LeftBy(g: Globals, text: seq<byte>, r: Globals) {
    LexemesScanned(text);
    Left(g, Lexemes(text), r)
  }

  /** Each global has the last value the text assigns to it. */
  ghost predicate Assigned(g: Globals, text: seq<byte>, r: Globals) {
    LexemesScanned(text);
    LastAssigned(g, Lexemes(text), r)
  }

  /** At the start nothing is owned, and the outcome ahead is that of the whole text. */
  lemma StartsOut(g: Globals, text: seq<byte>, vals: seq<SemValue>, lval: SemValue, strings0: map<nat, seq<byte>>)
    requires |vals| == 1
    ensures Scanned(Lexemes(text)) && Goal(g, false, 0, [], [], Lexemes(text)) == MeaningOf(g, text)
    ensures Memory(0, [], [], NoToken, vals, lval, strings0, strings0)
    ensures Reachable(false, 0) && Matches([], 0) && Stack(false, 0) == [0]
  {
    hide Meaning, Lexemes;
    LexemesScanned(text);
    NothingOwned(vals, lval, strings0);
  }

  lemma NothingOwned(vals: seq<SemValue>, lval: SemValue, strings0: map<nat, seq<byte>>)
    requires |vals| == 1
    ensures Memory(0, [], [], NoToken, vals, lval, strings0, strings0)
  {
    assert strings0.Keys == strings0.Keys + {} + {} + {};
  }

  datatype Verdict = GoOn | Parsed | Failed

  class Parser {
    const ss: array<int>         // yyss
    const vs: array<SemValue>    // yyvs
    var ssp: nat                 // yyssp - yyss
    var vsp: nat                 // yyvsp - yyvs
    var state: nat               // yystate
    var yychar: int
    var token: nat               // yytoken
    var len: nat                 // yylen
    var errStatus: nat           // yyerrstatus
    var errors: nat              // yynerrs
    var globals: Globals
    const lexer: Lexer

    // What the stacks stand for.
    ghost var some: bool
    ghost var name: seq<byte>
    ghost var cur: seq<Lexeme>
    ghost var look: Look

    constructor (lexer: Lexer, globals: Globals)
      ensures this.lexer == lexer && this.globals == globals && Allocated() && fresh(ss) && fresh(vs)
    {
      this.lexer, this.globals := lexer, globals;
      ss := new int[YYINITDEPTH](_ => 0);
      vs := new SemValue[YYINITDEPTH](_ => Undefined);
      ssp, vsp, state, yychar, token, len, errStatus, errors := 0, 0, 0, YYEMPTY, 0, 0, 0, 0;
      some, name, cur, look := false, [], [], NoToken;
    }

    predicate Allocated() {
      ss.Length == YYINITDEPTH && vs.Length == YYINITDEPTH
    }

    /** The state stack is a path of the automaton, with a value beside every state. */
    ghost predicate Stacked()
      reads `ssp, `vsp, `state, `len, `some, `cur, ss
    {
      Allocated() && len == 0 && ssp == vsp < 10 && StackIs(some, state, cur, ss[..ssp + 1])
    }

    ghost predicate Reading()
      reads `yychar, `look, lexer, lexer.buf, lexer.input, lexer.heap
    {
      && lexer.Valid() && Holds(yychar, look)
      && (look.Token? ==> Scanned([look.x]))
      && (look.EndToken? ==> lexer.Text() == [])
    }

    ghost function Rest(): (w: seq<Lexeme>)
      reads `yychar, `look, lexer, lexer.buf, lexer.input, lexer.heap
      requires Reading()
      ensures Scanned(w)
    {
      PendingScanned(look, lexer.Text());
      Pending(look, lexer.Text())
    }

    /** The outcome still ahead. */
    ghost function Ahead(): (r: Outcome)
      reads this, ss, lexer, lexer.buf, lexer.input, lexer.heap
      requires Stacked() && Reading()
    {
      Goal(globals, some, state, name, cur, Rest())
    }

    ghost predicate Remembers(strings0: map<nat, seq<byte>>)
      reads this, vs, lexer, lexer.heap
    {
      vsp < vs.Length && Memory(state, name, cur, look, vs[..vsp + 1], lexer.lval, lexer.heap.strings, strings0)
    }

    ghost predicate Inv(outcome: Outcome, strings0: map<nat, seq<byte>>)
      reads this, ss, vs, lexer, lexer.buf, lexer.input, lexer.heap
    {
      Stacked() && Reading() && Ahead() == outcome && Remembers(strings0)
    }

    /** YYLEX. */
    method ReadToken()
      requires Reading() && look.NoToken?
      modifies this`yychar, this`look, lexer, lexer.buf, lexer.input, lexer.heap
      ensures lexer.buf == old(lexer.buf) || fresh(lexer.buf)
      ensures Reading() && Rest() == old(Rest())
      ensures exists x: Lexeme :: look == (if x.rule == 0 then EndToken else Token(x))
                       && Delivers(x, lexer.lval, old(lexer.lval), old(lexer.heap.strings), lexer.heap.strings)
    {
      ghost var text := lexer.Text();
      var tok := lexer.Yylex();
      yychar := tok;
      ghost var x := Lex(text).lexeme;
      look := if x.rule == 0 then EndToken else Token(x);
      ReadPending(text, look);
      if look.Token? {
        TranslateCode(x);
      }
    }

    method LookAhead(ghost outcome: Outcome, ghost strings0: map<nat, seq<byte>>)
      requires Inv(outcome, strings0) && look.NoToken?
      modifies this`yychar, this`look, lexer, lexer.buf, lexer.input, lexer.heap
      ensures lexer.buf == old(lexer.buf) || fresh(lexer.buf)
      ensures Inv(outcome, strings0) && !look.NoToken? && Rest() == old(Rest())
    {
      hide Goal, Memory, StackIs, Scanned, Lexemes, Pending, Delivers, Holds;
      ghost var lval0, strings1 := lexer.lval, lexer.heap.strings;
      ghost var vals := vs[..vsp + 1];
      ReadToken();
      ghost var x: Lexeme :| look == (if x.rule == 0 then EndToken else Token(x))
                  && Delivers(x, lexer.lval, lval0, strings1, lexer.heap.strings);
      assert vs[..vsp + 1] == vals;
      LookMemory(state, name, cur, x, vals, lval0, lexer.lval, strings1, lexer.heap.strings, strings0);
    }

    /** The token of the look-ahead, as the tables number it. */
    method Translate()
      requires Reading() && !look.NoToken?
      modifies this`yychar, this`token
      ensures yychar == old(yychar) && token == TokenOf(Rest()) <= 11
    {
      if yychar <= YYEOF {
        yychar := YYEOF;
        token := 0;
      } else {
        token := YyTranslate(yychar);
        TranslateCode(look.x);
      }
      LooksAt();
    }

    lemma LooksAt()
      requires Reading() && !look.NoToken?
      ensures look.Token? ==> Rest() == [look.x] + Lexemes(lexer.Text())
      ensures look.EndToken? ==> Rest() == []
      ensures TokenOf(Rest()) == match look case Token(x) => Kind(x) case _ => 0
    {
    }

    /** The tables' decision on the token in hand, from the entry `n` of the state. */
    method Consult(n0: int) returns (d: Decision)
      requires n0 == YyPact(state) != YYPACT_NINF
      ensures d == Decide(state, token)
    {
      var n := n0 + token;
      if n < 0 || YYLAST < n || YyCheck(n) != token {
        return Default(state);
      }
      n := YyTable(n);
      if n <= 0 {
        return Fail;
      }
      if n == YYFINAL {
        return Accept;
      }
      d := Shift(n);
    }

    /** The look-ahead is read unless it is there already. */
    method Fetch(ghost outcome: Outcome, ghost strings0: map<nat, seq<byte>>)
      requires Inv(outcome, strings0)
      modifies this`yychar, this`look, this`token, lexer, lexer.buf, lexer.input, lexer.heap
      ensures lexer.buf == old(lexer.buf) || fresh(lexer.buf)
      ensures Inv(outcome, strings0) && Rest() == old(Rest())
      ensures !look.NoToken? && token == TokenOf(Rest()) <= 11
    {
      hide Goal, Memory, StackIs, Scanned, Pending, Lexemes, TokenOf, Code, Lexer.Valid;
      if yychar == YYEMPTY {
        LookAhead(outcome, strings0);
      }
      Translate();
    }

    /** yybackup: what the tables say, with the look-ahead read only where they need it. */
    method Backup(ghost outcome: Outcome, ghost strings0: map<nat, seq<byte>>) returns (d: Decision)
      requires Inv(outcome, strings0)
      modifies this`yychar, this`look, this`token, lexer, lexer.buf, lexer.input, lexer.heap
      ensures lexer.buf == old(lexer.buf) || fresh(lexer.buf)
      ensures Inv(outcome, strings0) && Rest() == old(Rest())
      ensures if Consistent(state) then d == Default(state) && d.Reduce?
              else !look.NoToken? && token == TokenOf(Rest()) <= 11 && d == Decide(state, token)
      ensures d.Reduce? ==> d == Default(state)
    {
      hide Goal, Memory, StackIs, Stack, Matches, Ahead, Remembers, Reading, Rest, TokenOf, YyPact, Decide, Default;
      StackMeans(some, state, cur, ss[..ssp + 1]);
      var n := YyPact(state);
      if n == YYPACT_NINF {
        ConsistentStates(state);
        return Default(state);
      }
      Fetch(outcome, strings0);
      d := Consult(n);
      ReducesByDefault(state, token);
    }

    /** yynewstate: the state goes on its stack, which is never full. */
    method NewState()
      requires Allocated() && ssp + 2 < YYINITDEPTH
      modifies this`ssp, ss
      ensures ssp == old(ssp) + 1 && ss[..ssp + 1] == old(ss[..ssp + 1]) + [state]
    {
      ghost var below := ss[..ssp + 1];
      ssp := ssp + 1;
      ss[ssp] := state;
      assert ss[..ssp] == below;
      // The place where the stack would be extended.
      if YYINITDEPTH - 1 <= ssp {
        assert false;
      }
    }

    /** A state and its value go on the stacks. */
    method Push(s: nat, v: SemValue)
      requires Allocated() && ssp == vsp && ssp + 2 < YYINITDEPTH
      modifies this`state, this`vsp, this`ssp, ss, vs
      ensures state == s && ssp == vsp == old(ssp) + 1
      ensures ss[..ssp + 1] == old(ss[..ssp + 1]) + [s] && vs[..vsp + 1] == old(vs[..vsp + 1]) + [v]
    {
      ghost var vals := vs[..vsp + 1];
      state := s;
      vsp := vsp + 1;
      vs[vsp] := v;
      assert vs[..vsp] == vals;
      NewState();
    }

    /** Shifting moves the look-ahead and its value onto the stacks. */
    method PushToken(s: nat)
      requires Stacked() && Reading() && look.Token? && token == Kind(look.x) <= 11 && Decide(state, token) == Shift(s)
      modifies this`errStatus, this`yychar, this`look, this`state, this`vsp, this`ssp, this`name, this`cur, ss, vs
      ensures Stacked() && Reading() && look.NoToken? && state == s
      ensures old(errStatus) == 0 ==> errStatus == 0
      ensures name == NameAfter(old(state), old(name), old(look.x)) && cur == CurAfter(s, old(cur), old(look.x))
      ensures old(vsp) + 1 == vsp < 10 && vs[..vsp + 1] == old(vs[..vsp + 1]) + [lexer.lval]
    {
      hide StackIs, Decide, NameAfter, CurAfter, Scanned, Code, Lexer.Valid;
      ghost var x := look.x;
      ShiftStack(some, state, cur, ss[..ssp + 1], x);
      TranslateCode(x);
      if errStatus > 0 {
        errStatus := errStatus - 1;
      }
      if yychar != YYEOF {
        yychar := YYEMPTY;
      }
      name, cur, look := NameAfter(state, name, x), CurAfter(s, cur, x), NoToken;
      Push(s, lexer.lval);
    }

    method ShiftToken(s: nat, ghost outcome: Outcome, ghost strings0: map<nat, seq<byte>>)
      requires Inv(outcome, strings0) && !look.NoToken?
      requires token == TokenOf(Rest()) <= 11 && Decide(state, token) == Shift(s)
      modifies this`errStatus, this`yychar, this`look, this`state, this`vsp, this`ssp, this`name, this`cur, ss, vs
      ensures Inv(outcome, strings0) && |Rest()| < old(|Rest()|)
      ensures old(errStatus) == 0 ==> errStatus == 0
    {
      hide Goal, Memory, StackIs, Stack, Seen, Matches, Reachable,
           Decide, NameAfter, CurAfter, Lexemes, TokenOf, Scanned;
      LooksAt();
      StackMeans(some, state, cur, ss[..ssp + 1]);
      ShiftMoves(some, state, token);
      ghost var x, vals, rest := look.x, vs[..vsp + 1], Lexemes(lexer.Text());
      LexemesScanned(lexer.Text());
      ShiftGoal(globals, some, state, name, cur, x, rest);
      ShiftMemory(some, state, s, name, cur, x, vals, lexer.lval, lexer.heap.strings, strings0);
      PushToken(s);
    }

    /** A name is copied into its global and its block freed. */
    method CopyAndFree(v: SemValue, ghost text: seq<byte>) returns (copy: seq<byte>)
      requires Reading() && Keeps(v, text, lexer.heap.strings)
      modifies lexer.heap
      ensures Reading() && Rest() == old(Rest())
      ensures lexer.heap.strings == old(lexer.heap.strings) - {v.id} && copy == Clip(text)
    {
      hide Pending, Lexemes, Holds, Clip;
      copy := Clip(lexer.heap.strings[v.id]);
      lexer.heap.Free(v.id);
    }

    /** The name in the statement on top of the stack, taken over by a global. */
    method TakeText(ghost strings0: map<nat, seq<byte>>) returns (copy: seq<byte>)
      requires Remembers(strings0) && HasText(cur) && |cur| == 6 && Reading()
      modifies lexer.heap
      ensures Reading() && Rest() == old(Rest()) && copy == Clip(cur[3].text)
      ensures Memory(state, name, [], look, vs[..vsp + 1], lexer.lval, lexer.heap.strings, strings0)
    {
      hide Memory, HasText, Matches, Scanned, Clip, HasName, Keeps, Reading, Rest;
      ghost var vals := vs[..vsp + 1];
      FreeText(state, name, cur, look, vals, lexer.lval, lexer.heap.strings, strings0);
      copy := CopyAndFree(vs[vsp - 2], cur[3].text);
    }

    /** The name of the program, taken over by its global. */
    method TakeName(ghost strings0: map<nat, seq<byte>>) returns (copy: seq<byte>)
      requires Remembers(strings0) && HasName(state) && cur == [] && vsp == 4 && Reading()
      modifies lexer.heap
      ensures Reading() && Rest() == old(Rest()) && copy == Clip(name)
      ensures Memory(2, name, [], look, vs[..vsp + 1], lexer.lval, lexer.heap.strings, strings0)
    {
      hide Memory, HasName, Clip, Keeps, Reading, Rest;
      ghost var vals := vs[..vsp + 1];
      FreeName(state, name, look, vals, lexer.lval, lexer.heap.strings, strings0);
      copy := CopyAndFree(vs[vsp - 3], name);
    }

    /** The actions of parser.y; the other rules have none. */
    method Action(rule: nat, ghost strings0: map<nat, seq<byte>>)
      requires Stacked() && Reading() && Remembers(strings0) && Default(state) == Reduce(rule)
      modifies this`globals, lexer.heap
      ensures Reading() && Rest() == old(Rest())
      ensures globals == Acted(old(globals), rule, state, name, cur)
      ensures Memory(if rule == 2 then 2 else state, name, [], look, vs[..vsp + 1],
                     lexer.lval, lexer.heap.strings, strings0)
    {
      hide Goal, Memory, StackIs, Stack, Pending, Lexemes, Matches, Default, HasName, HasText, Reachable, Scanned;
      hide Reading, Rest, Clip, Keeps;
      StackMeans(some, state, cur, ss[..ssp + 1]);
      DefaultRules(some, state, rule);
      CompleteStatement(some, state, rule, cur);
      match rule {
        case 2 =>
          var copy := TakeName(strings0);
          globals := globals.(program := copy);
        case 7 =>
          var copy := TakeText(strings0);
          globals := globals.(host := copy);
        case 8 =>
          DropStatement(state, name, cur, look, vs[..vsp + 1], lexer.lval, lexer.heap.strings, strings0);
          globals := globals.(port := Clip(Decimal.Decimal(vs[vsp - 1].n)));
        case 9 =>
          var copy := TakeText(strings0);
          globals := globals.(port := copy);
        case _ =>
      }
    }

    /** `len` symbols come off the stacks; the state the goto tables give goes on. */
    method PopAndPush(rule: nat)
      requires Allocated() && 2 <= rule <= 9 && ssp == vsp && 0 < YyR2(rule) <= ssp && ssp + 2 < YYINITDEPTH
      requires ss[ssp - YyR2(rule)] >= 0
      modifies this`len, this`state, this`vsp, this`ssp, ss, vs
      ensures len == 0 && ssp == vsp == old(ssp) - YyR2(rule) + 1
      ensures state == Goto(old(ss[ssp - YyR2(rule)]), rule)
      ensures ss[..ssp + 1] == old(ss[..ssp + 1])[..ssp] + [state]
      ensures vs[..vsp + 1] == old(vs[..vsp + 1])[..vsp] + [old(vs[vsp + 1 - YyR2(rule)])]
    {
      hide Goto;
      len := YyR2(rule);
      var val := vs[vsp + 1 - len];
      ssp, vsp, len := ssp - len, vsp - len, 0;
      var s := Goto(ss[ssp], rule);
      Push(s, val);
    }

    /** The right side of the rule comes off the stacks, its left side goes on. */
    method PopAndGo(rule: nat)
      requires Stacked() && Default(state) == Reduce(rule)
      modifies this`len, this`state, this`vsp, this`ssp, this`some, this`cur, ss, vs
      ensures Stacked() && state == After(old(some), rule) && some == SomeAfter(old(some), rule) && cur == []
      ensures 0 < YyR2(rule) <= old(vsp) < 10 && vsp == old(vsp) - YyR2(rule) + 1
      ensures vs[..vsp + 1] == old(vs[..vsp + 1])[..vsp] + [old(vs[vsp + 1 - YyR2(rule)])]
    {
      hide StackIs, Default, After, SomeAfter, Goto, YyR2;
      ReduceStack(some, state, cur, ss[..ssp + 1], rule);
      PopAndPush(rule);
      some, cur := SomeAfter(some, rule), [];
    }

    method ReduceBy(rule: nat, ghost outcome: Outcome, ghost strings0: map<nat, seq<byte>>)
      requires Inv(outcome, strings0) && Default(state) == Reduce(rule)
      modifies this`globals, this`len, this`state, this`vsp, this`ssp, this`some, this`cur, ss, vs, lexer.heap
      ensures Inv(outcome, strings0) && Rest() == old(Rest()) && Rank(state) < old(Rank(state))
    {
      hide Goal, Memory, StackIs, Stack, Pending, Lexemes, Matches, Default, HasText, Reachable, YyR2, After, SomeAfter;
      hide Rank, Acted, Reading, Rest;
      StackMeans(some, state, cur, ss[..ssp + 1]);
      ReduceGoal(globals, some, state, name, cur, Rest(), rule);
      ReduceSinks(some, state, rule);
      ReduceNames(some, state, rule);
      ghost var from, to := if rule == 2 then 2 else state, After(some, rule);
      Action(rule, strings0);
      ghost var vals := vs[..vsp + 1];
      ReduceMemory(from, to, name, look, vals, YyR2(rule), vs[vsp + 1 - YyR2(rule)],
                   lexer.lval, lexer.heap.strings, strings0);
      PopAndGo(rule);
    }

    lemma AcceptsHere(outcome: Outcome)
      requires Stacked() && Reading() && Ahead() == outcome && !look.NoToken?
      requires token == TokenOf(Rest()) <= 11 && !Consistent(state) && Decide(state, token) == Accept
      ensures outcome == Accepted(globals) && state == 2 && look.EndToken? && cur == []
    {
      hide StackIs, Stack, Pending, Lexemes, Decide, Goal, Reachable, Matches;
      StackMeans(some, state, cur, ss[..ssp + 1]);
      AcceptGoal(globals, some, state, name, cur, Rest());
      LooksAt();
    }

    lemma FailsHere(outcome: Outcome)
      requires Stacked() && Reading() && Ahead() == outcome && !look.NoToken?
      requires token == TokenOf(Rest()) <= 11 && !Consistent(state) && Decide(state, token) == Fail
      ensures outcome == Rejected(globals)
    {
      hide StackIs, Stack, Pending, Lexemes, Decide, Goal, Reachable, Matches;
      StackMeans(some, state, cur, ss[..ssp + 1]);
      FailGoal(globals, some, state, name, cur, Rest());
    }

    /** One pass from yybackup: a shift, a reduction, or the end. */
    method Step(ghost outcome: Outcome, ghost strings0: map<nat, seq<byte>>) returns (v: Verdict)
      requires Inv(outcome, strings0)
      modifies this, ss, vs, lexer, lexer.buf, lexer.input, lexer.heap
      ensures lexer.buf == old(lexer.buf) || fresh(lexer.buf)
      ensures Inv(outcome, strings0)
      ensures errors == old(errors) && (old(errStatus) == 0 ==> errStatus == 0)
      ensures v.GoOn? ==> |Rest()| < old(|Rest()|) || (|Rest()| == old(|Rest()|) && Rank(state) < old(Rank(state)))
      ensures v.Parsed? ==> outcome == Accepted(globals) && state == 2 && look.EndToken? && cur == []
      ensures v.Failed? ==> outcome == Rejected(globals)
    {
      hide Memory, StackIs, Stack, Pending, Lexemes, Rank, Decide, Default, Goal, Reachable, Matches;
      var d := Backup(outcome, strings0);
      match d {
        case Shift(s) =>
          ShiftToken(s, outcome, strings0);
          v := GoOn;
        case Reduce(rule) =>
          ReduceBy(rule, outcome, strings0);
          v := GoOn;
        case Accept =>
          AcceptsHere(outcome);
          v := Parsed;
        case Fail =>
          FailsHere(outcome);
          v := Failed;
      }
    }

    /** yyerrlab and yyerrlab1: no state of this grammar takes the error token, so the recovery
        pops every state and gives up. */
    method Recover() returns (result: nat)
      requires Allocated() && ssp == vsp < YYINITDEPTH && state == ss[ssp]
      requires forall i :: 0 <= i <= ssp ==> 0 <= ss[i] <= LAST_STATE
      modifies this`errors, this`errStatus, this`yychar, this`state, this`ssp, this`vsp
      ensures result == 1 && ssp == vsp <= old(ssp)
      ensures old(errStatus) != 3 ==> ssp == 0
      ensures errors == old(errors) + if old(errStatus) == 0 then 1 else 0
    {
      if errStatus == 0 {
        errors := errors + 1;
      }
      if errStatus == 3 {
        if yychar <= YYEOF {
          if yychar == YYEOF {
            return 1;
          }
        } else {
          yychar := YYEMPTY;
        }
      }
      errStatus := 3;
      while true
        invariant ssp == vsp <= old(ssp) && state == ss[ssp]
        invariant errors == old(errors) + if old(errStatus) == 0 then 1 else 0
        decreases ssp
      {
        NoRecovery(state);
        var n := YyPact(state);
        if n != YYPACT_NINF && 0 <= n + YYTERROR <= YYLAST && YyCheck(n + YYTERROR) == YYTERROR {
          assert false;
        }
        if ssp == 0 {
          return 1;
        }
        ssp, vsp := ssp - 1, vsp - 1;
        state := ss[ssp];
      }
    }

    /** yyreturn: what is left is popped. */
    method Cleanup()
      requires ssp == vsp && len == 0
      modifies this`ssp, this`vsp
      ensures ssp == vsp == 0
    {
      ssp, vsp := ssp - len, vsp - len;
      while ssp != 0
        invariant ssp == vsp
      {
        ssp, vsp := ssp - 1, vsp - 1;
      }
    }

    method Reset()
      requires Allocated()
      modifies this`state, this`errStatus, this`errors, this`yychar, this`token, this`len, this`ssp, this`vsp
      modifies this`some, this`name, this`cur, this`look, ss
      ensures state == ssp == vsp == errStatus == errors == len == 0 && yychar == YYEMPTY
      ensures ss[..ssp + 1] == [0] && !some && name == [] && cur == [] && look == NoToken
    {
      state, errStatus, errors, yychar, token, len := 0, 0, 0, YYEMPTY, 0, 0;
      ssp, vsp := 0, 0;
      ss[ssp] := state;
      some, name, cur, look := false, [], [], NoToken;
    }

    method Start(ghost strings0: map<nat, seq<byte>>)
      requires Allocated() && lexer.Valid() && strings0 == lexer.heap.strings
      modifies this`state, this`errStatus, this`errors, this`yychar, this`token, this`len, this`ssp, this`vsp
      modifies this`some, this`name, this`cur, this`look, ss
      ensures Inv(MeaningOf(globals, lexer.Text()), strings0)
      ensures errors == 0 && errStatus == 0
    {
      hide Goal, Memory, Stack, Lexemes, Reachable, Matches, MeaningOf, Lexer.Valid, Lexer.Text;
      StartsOut(globals, lexer.Text(), vs[..1], lexer.lval, strings0);
      Reset();
    }

    /** The loop over yynewstate and yybackup. */
    method Run(ghost outcome: Outcome, ghost strings0: map<nat, seq<byte>>) returns (v: Verdict)
      requires Inv(outcome, strings0) && errStatus == 0
      modifies this, ss, vs, lexer, lexer.buf, lexer.input, lexer.heap
      ensures lexer.buf == old(lexer.buf) || fresh(lexer.buf)
      ensures Inv(outcome, strings0) && errors == old(errors) && errStatus == 0
      ensures v.Parsed? ==> outcome == Accepted(globals) && state == 2 && look.EndToken? && cur == []
      ensures v.Failed? ==> outcome == Rejected(globals)
      ensures !v.GoOn?
    {
      hide Goal, Memory, StackIs, Lexemes, Rank, Scanned, Pending, Lexer.Valid, Lexer.Text;
      while true
        invariant lexer.buf == old(lexer.buf) || fresh(lexer.buf)
        invariant Inv(outcome, strings0) && errors == old(errors) && errStatus == 0
        decreases |Rest()|, Rank(state)
      {
        v := Step(outcome, strings0);
        if !v.GoOn? {
          return;
        }
      }
    }

    /** Error recovery, as it goes from a stack of the automaton. */
    method GiveUp() returns (result: nat)
      requires Stacked() && errStatus == 0
      modifies this`errors, this`errStatus, this`yychar, this`state, this`ssp, this`vsp
      ensures result == 1 && ssp == vsp == 0 && errors == old(errors) + 1
    {
      hide StackIs, Stack, Reachable, Matches;
      StackMeans(some, state, cur, ss[..ssp + 1]);
      assert forall i :: 0 <= i <= ssp ==> ss[i] == ss[..ssp + 1][i];
      result := Recover();
    }

    /** `yyparse`: 0 exactly for the texts the grammar derives. The globals end up with the last
        host and port among the statements carried out, all of them in an accepted text, those
        in front of the error in a rejected one, and with the program name once the closing
        brace has been read; a text accepted leaves no string behind on the heap, a text rejected at
        most three. Both stacks end up empty. */
    method Yyparse() returns (result: nat)
      requires Allocated() && lexer.Valid()
      modifies this, ss, vs, lexer, lexer.buf, lexer.input, lexer.heap
      ensures lexer.buf == old(lexer.buf) || fresh(lexer.buf)
      ensures lexer.Valid() && ssp == vsp == 0
      ensures result == if Derives(Kinds(Lexemes(old(lexer.Text())))) then 0 else 1
      ensures errors == result
      ensures globals == MeaningOf(old(globals), old(lexer.Text())).globals
      ensures Fits(old(globals)) ==> Fits(globals)
      ensures LeftBy(old(globals), old(lexer.Text()), globals)
      ensures result == 0 ==> Assigned(old(globals), old(lexer.Text()), globals)
      ensures result == 0 ==>
                Lexemes(old(lexer.Text())) != [] && CutTo79(globals.program, Lexemes(old(lexer.Text()))[0].text)
      ensures result == 0 ==> lexer.Text() == [] && lexer.heap.strings == old(lexer.heap.strings)
      ensures Leaks(old(lexer.heap.strings), lexer.heap.strings, 3)
    {
      hide Goal, Memory, Lexemes, StackIs, MeaningOf, Lexer.Text, Lexer.Valid;
      hide Derives, Kinds, Scanned, Leaks, Pending, Holds, Assigned, LeftBy, Fits, CutTo79;
      ghost var strings0 := lexer.heap.strings;
      ghost var outcome := MeaningOf(globals, lexer.Text());
      AcceptedIffDerived(globals, lexer.Text());
      Start(strings0);
      var v := Run(outcome, strings0);
      Leaked(state, name, cur, look, vs[..vsp + 1], lexer.lval, lexer.heap.strings, strings0);
      result := 0;
      if v.Failed? {
        result := GiveUp();
      }
      Cleanup();
    }
  }
}
