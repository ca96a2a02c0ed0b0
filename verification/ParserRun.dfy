/** What a configuration of the parser stands for: the outcome still to come, and the strings
    its value stack owns. Every move of the automaton keeps both. */
module ParserRun {
  import opened CStrings
  import Decimal
  import opened Scanner
  import opened ParserSpec
  import opened ParserTables

  // ---- The outcome ahead ----

  /** What the rest of the input will lead to, in a state with the program name `name`, the
      lexemes `cur` of an unfinished statement on the stack, and `rest` still to be shifted. */
  ghost function Goal(g: Globals, some: bool, state: nat, name: seq<byte>,
                      cur: seq<Lexeme>, rest: seq<Lexeme>): (r: Outcome)
    requires NumbersAreDigits(cur) && NumbersAreDigits(rest)
  {
    match state
    case 0 => Meaning(g, rest)
    case 1 => Meaning(g, [Lexeme(4, name)] + rest)
    case 2 => Close(g, rest)
    case 13 => Close(g.(program := Clip(name)), rest)
    case 7 => Body(g, name, true, rest)
    case 9 => Body(g, name, true, rest)
    case 10 => Body(g, name, true, rest)
    case 14 => Body(g, name, true, rest)
    case _ => Body(g, name, some, cur + rest)
  }

  /** The lexemes on the stack are those the state has seen. */
  predicate Matches(cur: seq<Lexeme>, state: nat) {
    |cur| == |Seen(state)| && forall i :: 0 <= i < |cur| ==> cur[i].rule == Seen(state)[i]
  }

  function NameAfter(state: nat, name: seq<byte>, x: Lexeme): (n: seq<byte>) {
    if state == 0 then x.text else name
  }

  function CurAfter(s: nat, cur: seq<Lexeme>, x: Lexeme): (c: seq<Lexeme>) {
    if s in {1, 3, 13} then [] else cur + [x]
  }

  /** Shifting, by the tables: which lexeme each state takes. */
  lemma ShiftMatches(some: bool, state: nat, cur: seq<Lexeme>, x: Lexeme)
    requires Reachable(some, state) && Matches(cur, state) && 1 <= x.rule <= 9
    requires Decide(state, Kind(x)).Shift?
    ensures var s := Decide(state, Kind(x)).state;
            && s in {1, 3, 13, 5, 11, 15, 18, 21, 23, 6, 12, 16, 19, 17, 20, 22, 24}
            && (state in {0, 1, 2, 3, 8} ==> cur == []) && state !in {2, 7, 9, 10, 13, 14}
            && (s == 1 <==> state == 0) && (s == 3 <==> state == 1) && (s == 13 ==> state == 8)
            && (s == 1 ==> x.rule == 4) && (s == 3 ==> x.rule == 7) && (s == 13 ==> x.rule == 8 && some)
            && (s !in {1, 3, 13} ==> Seen(s) == Seen(state) + [x.rule])
            && (s in {1, 3, 13} ==> Seen(s) == [])
  {
  }

  lemma MatchesMore(cur: seq<Lexeme>, state: nat, s: nat, x: Lexeme)
    requires Matches(cur, state) && Seen(s) == Seen(state) + [x.rule]
    ensures Matches(cur + [x], s)
  {
  }

  /** The lexemes before the statements. */
  lemma HeaderGoal(g: Globals, name: seq<byte>, x: Lexeme, rest: seq<Lexeme>)
    requires NumbersAreDigits([x] + rest) && NumbersAreDigits(rest)
    ensures x.rule == 4 ==> [Lexeme(4, x.text)] + rest == [x] + rest
    ensures x.rule == 7 ==> Goal(g, false, 1, name, [], [x] + rest) == Body(g, name, false, rest)
  {
    var w := [x] + rest;
    var v := [Lexeme(4, name)] + w;
    assert v[1] == x && v[2..] == rest;
  }

  lemma ClosingGoal(g: Globals, name: seq<byte>, x: Lexeme, rest: seq<Lexeme>)
    requires NumbersAreDigits([x] + rest) && x.rule == 8
    ensures Body(g, name, true, [x] + rest) == Close(g.(program := Clip(name)), rest)
  {
    var w := [x] + rest;
    assert w[0] == x && w[1..] == rest;
  }

  lemma ShiftGoal(g: Globals, some: bool, state: nat, name: seq<byte>, cur: seq<Lexeme>, x: Lexeme, rest: seq<Lexeme>)
    requires Reachable(some, state) && Matches(cur, state) && Scanned(cur) && Scanned([x] + rest) && Scanned(rest)
    requires 1 <= x.rule <= 9 && Decide(state, Kind(x)).Shift?
    ensures var s := Decide(state, Kind(x)).state; var c := CurAfter(s, cur, x);
            && Matches(c, s) && Scanned(c)
            && Goal(g, some, state, name, cur, [x] + rest) == Goal(g, some, s, NameAfter(state, name, x), c, rest)
  {
    var s := Decide(state, Kind(x)).state;
    ShiftMatches(some, state, cur, x);
    if s in {1, 3, 13} {
      HeaderGoal(g, name, x, rest);
      EmptyLeft(rest);
      EmptyLeft([x] + rest);
      if s == 13 {
        ClosingGoal(g, name, x, rest);
      }
    } else {
      MatchesMore(cur, state, s, x);
      ScannedMore(cur, x, rest);
      StatementStates(g, some, state, s, name, cur, x, rest);
    }
  }

  lemma StatementStates(g: Globals, some: bool, state: nat, s: nat, name: seq<byte>, cur: seq<Lexeme>, x: Lexeme,
                        rest: seq<Lexeme>)
    requires NumbersAreDigits(cur) && NumbersAreDigits([x] + rest)
    requires NumbersAreDigits(rest) && NumbersAreDigits(cur + [x])
    requires state !in {0, 1, 2, 7, 9, 10, 13, 14} && s !in {0, 1, 2, 7, 9, 10, 13, 14}
    ensures Goal(g, some, state, name, cur, [x] + rest) == Goal(g, some, s, name, cur + [x], rest)
  {
    hide Body;
    assert cur + ([x] + rest) == (cur + [x]) + rest;
  }

  lemma ScannedMore(cur: seq<Lexeme>, x: Lexeme, rest: seq<Lexeme>)
    requires Scanned(cur) && Scanned([x] + rest)
    ensures Scanned(cur + [x])
  {
    assert ([x] + rest)[0] == x;
  }

  lemma EmptyLeft(w: seq<Lexeme>)
    ensures [] + w == w
  {
  }

  /** The effect of a complete statement. */
  function Effect(g: Globals, state: nat, cur: seq<Lexeme>): (r: Globals)
    requires state in {19, 23, 24} && Matches(cur, state) && NumbersAreDigits(cur)
  {
    match state
    case 23 => g.(host := Clip(cur[3].text))
    case 19 => g.(port := Clip(Decimal.Decimal(Decimal.Value(cur[2].text))))
    case _ => g.(port := Clip(cur[3].text))
  }

  /** A complete statement in front of the rest. */
  lemma CompleteInFront(g: Globals, state: nat, cur: seq<Lexeme>, rest: seq<Lexeme>)
    requires state in {19, 23, 24} && Matches(cur, state) && NumbersAreDigits(cur) && NumbersAreDigits(rest)
    ensures var w := cur + rest;
            && NumbersAreDigits(w) && StartsStatement(w) && StatementLength(w) == |cur| && w[|cur|..] == rest
            && Execute(g, w) == Effect(g, state, cur)
  {
    var w := cur + rest;
    assert forall i :: 0 <= i < |cur| ==> w[i] == cur[i];
    Forms(w);
  }

  /** A statement read to its end is executed. */
  lemma StatementGoal(g: Globals, some: bool, state: nat, name: seq<byte>, cur: seq<Lexeme>, rest: seq<Lexeme>)
    requires state in {19, 23, 24} && Matches(cur, state) && NumbersAreDigits(cur) && NumbersAreDigits(rest)
    ensures Goal(g, some, state, name, cur, rest) == Body(Effect(g, state, cur), name, true, rest)
  {
    hide StartsStatement, StatementLength, Execute, Effect, Matches, Seen, NumbersAreDigits;
    CompleteInFront(g, state, cur, rest);
  }

  lemma SilentGoal(g: Globals, name: seq<byte>, rest: seq<Lexeme>)
    requires NumbersAreDigits(rest)
    ensures Goal(g, true, 8, name, [], rest) == Body(g, name, true, rest)
  {
    assert [] + rest == rest;
  }

  /** The globals behind the action of a rule. */
  function Acted(g: Globals, rule: nat, state: nat, name: seq<byte>, cur: seq<Lexeme>): (r: Globals)
    requires Default(state) == Reduce(rule) && Matches(cur, state) && NumbersAreDigits(cur)
  {
    match rule
    case 2 => g.(program := Clip(name))
    case 7 => Effect(g, 23, cur)
    case 8 => Effect(g, 19, cur)
    case 9 => Effect(g, 24, cur)
    case _ => g
  }

  /** The outcome ahead once a reduction is done. */
  lemma ReducedGoal(g: Globals, some: bool, rule: nat, name: seq<byte>, rest: seq<Lexeme>)
    requires 2 <= rule <= 9 && NumbersAreDigits(rest) && (rule == 6 ==> some)
    ensures Goal(g, SomeAfter(some, rule), After(some, rule), name, [], rest)
         == if rule == 2 then Close(g, rest) else Body(g, name, true, rest)
    ensures Seen(After(some, rule)) == []
  {
    SilentGoal(g, name, rest);
  }

  /** The rules of the consistent states. */
  lemma DefaultRules(some: bool, state: nat, rule: nat)
    requires Reachable(some, state) && Default(state) == Reduce(rule)
    ensures rule == match state
                    case 13 => 2 case 9 => 3 case 10 => 4 case 7 => 5 case 14 => 6 case 23 => 7 case 19 => 8 case _ => 9
    ensures state in {7, 9, 10, 13, 14, 19, 23, 24} && (rule == 6 ==> some)
    ensures rule !in {7, 8, 9} ==> Seen(state) == []
  {
  }

  /** What lies on the stack when a statement is reduced. */
  lemma CompleteStatement(some: bool, state: nat, rule: nat, cur: seq<Lexeme>)
    requires Reachable(some, state) && Default(state) == Reduce(rule) && Matches(cur, state)
    ensures rule == 7 || rule == 9 ==> |cur| == 6 && HasText(cur)
    ensures rule == 8 ==> |cur| == 4 && HasNumber(cur) && !HasText(cur)
    ensures rule !in {7, 8, 9} ==> cur == []
    ensures HasName(state) && (rule == 2 ==> |Stack(some, state)| == 5)
  {
    DefaultRules(some, state, rule);
  }

  /** A reduction leads to the outcome that lay ahead before it. */
  lemma ReduceGoal(g: Globals, some: bool, state: nat, name: seq<byte>, cur: seq<Lexeme>, rest: seq<Lexeme>, rule: nat)
    requires Reachable(some, state) && Default(state) == Reduce(rule) && Matches(cur, state)
    requires NumbersAreDigits(cur) && NumbersAreDigits(rest)
    ensures rule !in {7, 8, 9} ==> cur == []
    ensures Goal(g, some, state, name, cur, rest)
         == Goal(Acted(g, rule, state, name, cur), SomeAfter(some, rule), After(some, rule), name, [], rest)
    ensures Seen(After(some, rule)) == []
  {
    DefaultRules(some, state, rule);
    ReducedGoal(Acted(g, rule, state, name, cur), some, rule, name, rest);
    if rule in {7, 8, 9} {
      StatementGoal(g, some, state, name, cur, rest);
    }
  }

  /** The token the parser looks at: that of the next lexeme, or 0 at the end. */
  function TokenOf(rest: seq<Lexeme>): (t: nat) {
    if rest == [] then 0 else Kind(rest[0])
  }

  /** A statement broken off is no statement. */
  lemma BrokenStatement(state: nat, cur: seq<Lexeme>, rest: seq<Lexeme>)
    requires Seen(state) != [] && Matches(cur, state) && Scanned(rest)
    requires Decide(state, TokenOf(rest)) == Fail
    ensures !StartsStatement(cur + rest)
    ensures (cur + rest) != [] && (cur + rest)[0].rule != 8
  {
    var w, n := cur + rest, |cur|;
    assert forall i :: 0 <= i < n ==> w[i].rule == Seen(state)[i];
    assert rest != [] ==> w[n] == rest[0];
    Forms(w);
  }

  lemma FailGoal(g: Globals, some: bool, state: nat, name: seq<byte>, cur: seq<Lexeme>, rest: seq<Lexeme>)
    requires Reachable(some, state) && Matches(cur, state) && Scanned(cur) && Scanned(rest)
    requires Decide(state, TokenOf(rest)) == Fail
    ensures Goal(g, some, state, name, cur, rest) == Rejected(g)
  {
    FailStates(state, rest);
    EmptyLeft(rest);
    if Seen(state) != [] {
      BrokenStatement(state, cur, rest);
    } else if state == 0 || state == 1 {
      NoProgram(name, rest);
    } else {
      Forms(rest);
    }
  }

  /** The tokens at which the states outside a statement fail. */
  lemma FailStates(state: nat, rest: seq<Lexeme>)
    requires state <= LAST_STATE && state != YYFINAL && Scanned(rest)
    requires Decide(state, TokenOf(rest)) == Fail
    ensures state !in {7, 9, 10, 13, 14, 19, 23, 24}
    ensures state == 0 ==> rest == [] || rest[0].rule != 4
    ensures state == 1 ==> rest == [] || rest[0].rule != 7
    ensures state == 2 ==> rest != []
    ensures state == 3 ==> rest == [] || rest[0].rule !in {1, 2}
    ensures state == 8 ==> rest == [] || rest[0].rule !in {1, 2, 8}
    ensures Seen(state) == [] ==> state in {0, 1, 2, 3, 8}
  {
  }

  lemma NoProgram(name: seq<byte>, rest: seq<Lexeme>)
    ensures var v := [Lexeme(4, name)] + rest; |v| >= 2 ==> v[1] == rest[0]
  {
  }

  lemma AcceptGoal(g: Globals, some: bool, state: nat, name: seq<byte>, cur: seq<Lexeme>, rest: seq<Lexeme>)
    requires Reachable(some, state) && Matches(cur, state) && Scanned(cur) && Scanned(rest)
    requires Decide(state, TokenOf(rest)) == Accept
    ensures Goal(g, some, state, name, cur, rest) == Accepted(g)
    ensures state == 2 && rest == [] && cur == []
  {
  }

  // ---- The strings owned ----

  /** The look-ahead: none read, the end of the input, or a lexeme. */
  datatype Look = NoToken | EndToken | Token(x: Lexeme)

  predicate HasName(state: nat) {
    state != 0 && state != 2
  }

  predicate HasText(cur: seq<Lexeme>) {
    |cur| >= 4 && cur[3].rule == 4
  }

  predicate HasNumber(cur: seq<Lexeme>) {
    |cur| >= 3 && cur[2].rule == 3
  }

  /** The value of the i-th symbol of the statement on top of the stack, counted from 1. */
  function ValueAt(vals: seq<SemValue>, cur: seq<Lexeme>, i: nat): (v: SemValue)
    requires 1 <= i <= |cur| <= |vals|
  {
    vals[|vals| - |cur| + i - 1]
  }

  function Ids(v: SemValue): (ids: set<nat>) {
    if v.Pointer? then {v.id} else {}
  }

  function NameIds(state: nat, vals: seq<SemValue>): (ids: set<nat>) {
    if HasName(state) && |vals| >= 2 then Ids(vals[1]) else {}
  }

  function TextIds(cur: seq<Lexeme>, vals: seq<SemValue>): (ids: set<nat>) {
    if HasText(cur) && |cur| <= |vals| then Ids(ValueAt(vals, cur, 4)) else {}
  }

  function LookIds(look: Look, lval: SemValue): (ids: set<nat>) {
    if look.Token? && look.x.rule == 4 then Ids(lval) else {}
  }

  predicate Keeps(v: SemValue, text: seq<byte>, strings: map<nat, seq<byte>>) {
    v.Pointer? && v.id in strings && strings[v.id] == text
  }

  /** The values refer to what the lexemes were. */
  predicate Refers(state: nat, name: seq<byte>, cur: seq<Lexeme>, look: Look, vals: seq<SemValue>, lval: SemValue,
                   strings: map<nat, seq<byte>>)
  {
    && (HasName(state) ==> |vals| >= 2 && Keeps(vals[1], name, strings))
    && |cur| + 2 < |vals| + (if cur == [] then 2 else 0)
    && (HasText(cur) ==> Keeps(ValueAt(vals, cur, 4), cur[3].text, strings))
    && (HasNumber(cur) ==> Decimal.AllDigits(cur[2].text)
                           && ValueAt(vals, cur, 3) == Number(Decimal.Value(cur[2].text)))
    && (look.Token? && look.x.rule == 4 ==> Keeps(lval, look.x.text, strings))
    && (look.Token? && look.x.rule == 3 ==>
          Decimal.AllDigits(look.x.text) && lval == Number(Decimal.Value(look.x.text)))
  }

  /** The heap is the one the parser started with and the strings of the three owners, which
      are different blocks. */
  predicate Owns(n: set<nat>, t: set<nat>, l: set<nat>, strings: map<nat, seq<byte>>, strings0: map<nat, seq<byte>>) {
    && n !! t && n !! l && t !! l
    && strings0.Keys !! n + t + l
    && strings.Keys == strings0.Keys + n + t + l
    && forall id :: id in strings0 ==> id in strings && strings[id] == strings0[id]
  }

  ghost predicate Memory(state: nat, name: seq<byte>, cur: seq<Lexeme>, look: Look, vals: seq<SemValue>, lval: SemValue,
                         strings: map<nat, seq<byte>>, strings0: map<nat, seq<byte>>)
  {
    && Refers(state, name, cur, look, vals, lval, strings)
    && Owns(NameIds(state, vals), TextIds(cur, vals), LookIds(look, lval), strings, strings0)
  }

  lemma LookMemory(state: nat, name: seq<byte>, cur: seq<Lexeme>, x: Lexeme, vals: seq<SemValue>,
                   lval0: SemValue, lval: SemValue,
                   strings1: map<nat, seq<byte>>, strings: map<nat, seq<byte>>, strings0: map<nat, seq<byte>>)
    requires Memory(state, name, cur, NoToken, vals, lval0, strings1, strings0)
    requires Delivers(x, lval, lval0, strings1, strings)
    ensures Memory(state, name, cur, if x.rule == 0 then EndToken else Token(x), vals, lval, strings, strings0)
  {
  }

  lemma PushSymbol(state: nat, s: nat, name: seq<byte>, cur: seq<Lexeme>, x: Lexeme,
                   vals: seq<SemValue>, lval: SemValue,
                   strings: map<nat, seq<byte>>, strings0: map<nat, seq<byte>>)
    requires Memory(state, name, cur, Token(x), vals, lval, strings, strings0)
    requires HasName(state) && HasName(s) && |cur| < 6 && |cur| + 3 <= |vals|
    requires |cur| == 3 || x.rule != 4
    ensures Memory(s, name, cur + [x], NoToken, vals + [lval], lval, strings, strings0)
  {
    var c, v := cur + [x], vals + [lval];
    assert forall i :: 1 <= i <= |cur| ==> ValueAt(v, c, i) == ValueAt(vals, cur, i);
    assert ValueAt(v, c, |c|) == lval;
  }

  /** A symbol outside the statements: the program name, or a brace. */
  lemma PushOther(state: nat, s: nat, name: seq<byte>, x: Lexeme, vals: seq<SemValue>, lval: SemValue,
                  strings: map<nat, seq<byte>>, strings0: map<nat, seq<byte>>)
    requires Memory(state, name, [], Token(x), vals, lval, strings, strings0) && HasName(s)
    requires if x.rule == 4 then state == 0 && |vals| == 1 else HasName(state)
    ensures Memory(s, NameAfter(state, name, x), [], NoToken, vals + [lval], lval, strings, strings0)
  {
  }

  lemma ShiftMemory(some: bool, state: nat, s: nat, name: seq<byte>, cur: seq<Lexeme>, x: Lexeme, vals: seq<SemValue>,
                    lval: SemValue, strings: map<nat, seq<byte>>, strings0: map<nat, seq<byte>>)
    requires Memory(state, name, cur, Token(x), vals, lval, strings, strings0)
    requires Reachable(some, state) && Matches(cur, state) && 1 <= x.rule <= 9 && Decide(state, Kind(x)) == Shift(s)
    requires |vals| == |Stack(some, state)|
    ensures Memory(s, NameAfter(state, name, x), CurAfter(s, cur, x), NoToken, vals + [lval], lval, strings, strings0)
  {
    ShiftMatches(some, state, cur, x);
    if s in {1, 3, 13} {
      PushOther(state, s, name, x, vals, lval, strings, strings0);
    } else {
      StatementSymbols(some, state, s, cur, x);
      PushSymbol(state, s, name, cur, x, vals, lval, strings, strings0);
    }
  }

  lemma StatementSymbols(some: bool, state: nat, s: nat, cur: seq<Lexeme>, x: Lexeme)
    requires Reachable(some, state) && Matches(cur, state)
    requires s !in {1, 3, 13, 2, 0} && state !in {0, 1, 2} && Seen(s) == Seen(state) + [x.rule] && s <= LAST_STATE
    ensures |cur| < 6 && |cur| + 3 <= |Stack(some, state)| && (|cur| == 3 || x.rule != 4)
  {
    assert |Seen(s)| <= 6;
    assert Seen(s)[|cur|] == x.rule;
  }

  /** Only the reduction of the whole program takes the name off the stack. */
  lemma ReduceNames(some: bool, state: nat, rule: nat)
    requires Reachable(some, state) && Default(state) == Reduce(rule)
    ensures 0 < YyR2(rule) < |Stack(some, state)|
    ensures HasName(After(some, rule)) == (rule != 2) && HasName(state)
    ensures rule != 2 ==> YyR2(rule) + 2 <= |Stack(some, state)|
  {
    ReduceMoves(some, state, rule);
    DefaultRules(some, state, rule);
  }

  /** Popping `n` symbols off and pushing their value, once nothing they own is left. */
  lemma ReduceMemory(state: nat, s: nat, name: seq<byte>, look: Look, vals: seq<SemValue>, n: nat, v: SemValue,
                     lval: SemValue, strings: map<nat, seq<byte>>, strings0: map<nat, seq<byte>>)
    requires Memory(state, name, [], look, vals, lval, strings, strings0)
    requires n < |vals| && HasName(s) == HasName(state) && (HasName(s) ==> n + 2 <= |vals|)
    ensures Memory(s, name, [], look, vals[..|vals| - n] + [v], lval, strings, strings0)
  {
  }

  /** The symbols of a statement without a name in it own nothing. */
  lemma DropStatement(state: nat, name: seq<byte>, cur: seq<Lexeme>, look: Look, vals: seq<SemValue>,
                      lval: SemValue, strings: map<nat, seq<byte>>, strings0: map<nat, seq<byte>>)
    requires Memory(state, name, cur, look, vals, lval, strings, strings0) && !HasText(cur)
    ensures cur != [] ==> |cur| + 2 < |vals|
    ensures HasNumber(cur) ==>
              Decimal.AllDigits(cur[2].text) && ValueAt(vals, cur, 3) == Number(Decimal.Value(cur[2].text))
    ensures Memory(state, name, [], look, vals, lval, strings, strings0)
  {
  }

  /** A name copied out of a statement is freed. */
  lemma FreeText(state: nat, name: seq<byte>, cur: seq<Lexeme>, look: Look, vals: seq<SemValue>,
                 lval: SemValue, strings: map<nat, seq<byte>>, strings0: map<nat, seq<byte>>)
    requires Memory(state, name, cur, look, vals, lval, strings, strings0) && HasText(cur)
    ensures |cur| + 2 < |vals| && Keeps(ValueAt(vals, cur, 4), cur[3].text, strings)
    ensures Memory(state, name, [], look, vals, lval, strings - {ValueAt(vals, cur, 4).id}, strings0)
  {
  }

  /** So is the program name. */
  lemma FreeName(state: nat, name: seq<byte>, look: Look, vals: seq<SemValue>,
                 lval: SemValue, strings: map<nat, seq<byte>>, strings0: map<nat, seq<byte>>)
    requires Memory(state, name, [], look, vals, lval, strings, strings0) && HasName(state)
    ensures |vals| >= 2 && Keeps(vals[1], name, strings)
    ensures Memory(2, name, [], look, vals, lval, strings - {vals[1].id}, strings0)
  {
  }

  /** Every string of the start is still there, and at most `n` others are. */
  predicate Leaks(strings0: map<nat, seq<byte>>, strings: map<nat, seq<byte>>, n: nat) {
    && (forall id :: id in strings0 ==> id in strings && strings[id] == strings0[id])
    && |strings.Keys - strings0.Keys| <= n
  }

  /** What is left on the heap when the parser gives up. */
  lemma Leaked(state: nat, name: seq<byte>, cur: seq<Lexeme>, look: Look, vals: seq<SemValue>, lval: SemValue,
               strings: map<nat, seq<byte>>, strings0: map<nat, seq<byte>>)
    requires Memory(state, name, cur, look, vals, lval, strings, strings0)
    ensures Leaks(strings0, strings, 3)
    ensures state == 2 && look == EndToken && cur == [] ==> strings == strings0
  {
    hide Refers, Owns;
    var n, t, l := NameIds(state, vals), TextIds(cur, vals), LookIds(look, lval);
    AtMostThree(n, t, l);
    OwnersLeft(n, t, l, strings, strings0);
  }

  lemma AtMostThree(n: set<nat>, t: set<nat>, l: set<nat>)
    requires |n| <= 1 && |t| <= 1 && |l| <= 1
    ensures |n + t + l| <= 3
  {
    assert |n + t| <= |n| + |t|;
    assert |n + t + l| <= |n + t| + |l|;
  }

  lemma OwnersLeft(n: set<nat>, t: set<nat>, l: set<nat>, strings: map<nat, seq<byte>>, strings0: map<nat, seq<byte>>)
    requires Owns(n, t, l, strings, strings0) && |n + t + l| <= 3
    ensures Leaks(strings0, strings, 3)
    ensures n + t + l == {} ==> strings == strings0
  {
    Added(strings.Keys, strings0.Keys, n, t, l);
    if n + t + l == {} {
      assert forall id :: id in strings ==> id in strings0;
    }
  }

  lemma Added(now: set<nat>, was: set<nat>, n: set<nat>, t: set<nat>, l: set<nat>)
    requires now == was + n + t + l && was !! n + t + l
    ensures now - was == n + t + l
    ensures n + t + l == {} ==> now == was
  {
    forall x ensures x in now - was <==> x in n + t + l {
    }
  }
}
