/** The packed action and goto tables of chpater12/parser.tab.c, the decisions they encode, and
    the LR automaton those decisions form. */
module ParserTables {
  import ParserSpec

  const LAST_STATE: nat := 24
  const YYLAST: int := 24
  const YYFINAL: int := 4
  const YYPACT_NINF: int := -5
  const YYTERROR: int := 1
  const YYNTOKENS: nat := 12

  function YyPact(state: nat): (n: int) {
    match state
    case 0 => -2
    case 1 => -1
    case 2 => 9
    case 3 => 2
    case 5 => 3
    case 6 => 4
    case 8 => -3
    case 11 => 5
    case 12 => -4
    case 15 => 7
    case 16 => 6
    case 17 => 10
    case 18 => 8
    case 20 => 11
    case 21 => 12
    case 22 => 13
    case _ => -5
  }

  function YyDefAct(state: nat): (n: nat) {
    match state
    case 4 => 1
    case 7 => 5
    case 9 => 3
    case 10 => 4
    case 13 => 2
    case 14 => 6
    case 19 => 8
    case 23 => 7
    case 24 => 9
    case _ => 0
  }

  function YyTable(i: int): (n: nat) {
    match i
    case 0 => 5
    case 1 => 6
    case 2 => 16
    case 3 => 1
    case 4 => 17
    case 5 => 5
    case 6 => 6
    case 7 => 13
    case 8 => 3
    case 9 => 4
    case 10 => 11
    case 11 => 12
    case 12 => 18
    case 13 => 15
    case 15 => 20
    case 16 => 21
    case 17 => 19
    case 19 => 22
    case 22 => 14
    case 23 => 23
    case 24 => 24
    case _ => 0
  }

  function YyCheck(i: int): (n: int) {
    match i
    case 0 => 3
    case 1 => 4
    case 2 => 6
    case 3 => 5
    case 4 => 8
    case 5 => 3
    case 6 => 4
    case 7 => 10
    case 8 => 9
    case 9 => 0
    case 10 => 7
    case 11 => 7
    case 12 => 5
    case 13 => 8
    case 15 => 5
    case 16 => 8
    case 17 => 11
    case 19 => 8
    case 22 => 8
    case 23 => 11
    case 24 => 11
    case _ => -1
  }

  /** The nonterminal a rule derives, and the length of its right side. */
  function YyR1(rule: nat): (n: nat) {
    match rule
    case 0 => 0
    case 1 => 12
    case 2 => 13
    case 3 => 14
    case 4 => 14
    case 5 => 15
    case 6 => 15
    case 7 => 16
    case _ => 17
  }

  function YyR2(rule: nat): (n: nat) {
    match rule
    case 0 => 0
    case 1 => 2
    case 2 => 4
    case 3 => 1
    case 4 => 1
    case 5 => 1
    case 6 => 2
    case 7 => 6
    case 8 => 4
    case _ => 6
  }

  /** The productions behind the two tables. */
  lemma RulesMatchGrammar(rule: nat)
    requires 2 <= rule <= 9
    ensures YyR1(rule) == ParserSpec.Lhs(rule) && YyR2(rule) == |ParserSpec.Rhs(rule)|
  {
  }

  function YyPGoto(i: nat): (n: int) {
    if i == 2 then 14 else -5
  }

  function YyDefGoto(i: nat): (n: int) {
    match i
    case 0 => -1
    case 1 => 2
    case 2 => 7
    case 3 => 8
    case 4 => 9
    case _ => 10
  }

  /** yytranslate. */
  function YyTranslate(yychar: nat): (token: nat) {
    if yychar == 0 then 0
    else if 256 <= yychar <= 266 then (if yychar == 256 then 1 else yychar - 255)
    else 2
  }

  datatype Decision = Shift(state: nat) | Reduce(rule: nat) | Accept | Fail

  /** yydefault. */
  function Default(state: nat): (d: Decision) {
    if YyDefAct(state) == 0 then Fail else Reduce(YyDefAct(state))
  }

  /** What yybackup decides with a look-ahead token in hand. */
  function Decide(state: nat, token: nat): (d: Decision) {
    var n := YyPact(state) + token;
    if YyPact(state) == YYPACT_NINF || n < 0 || YYLAST < n || YyCheck(n) != token then Default(state)
    else if YyTable(n) == 0 then Fail
    else if YyTable(n) == YYFINAL then Accept
    else Shift(YyTable(n))
  }

  /** A table entry never calls for a reduction; only the default does. */
  lemma ReducesByDefault(state: nat, token: nat)
    ensures Decide(state, token).Reduce? ==> Decide(state, token) == Default(state)
  {
  }

  /** The state entered after a reduction by `rule` uncovered `state`. */
  function Goto(state: nat, rule: nat): (s: nat)
    requires 2 <= rule <= 9
  {
    var n := YyPGoto(YyR1(rule) - YYNTOKENS) + state;
    if 0 <= n <= YYLAST && YyCheck(n) == state then YyTable(n) else YyDefGoto(YyR1(rule) - YYNTOKENS)
  }

  // ---- The automaton ----

  /** States in which the tables never look at the next token. */
  predicate Consistent(state: nat) {
    YyPact(state) == YYPACT_NINF
  }

  lemma ConsistentStates(state: nat)
    requires state <= LAST_STATE && Consistent(state) && state != YYFINAL
    ensures state in {7, 9, 10, 13, 14, 19, 23, 24}
    ensures forall token: nat :: Decide(state, token) == Default(state)
    ensures Default(state).Reduce?
  {
  }

  /** The rules of the scanner matched by the lexemes of a statement read so far, in a state
      with that statement on the stack. */
  function Seen(state: nat): (rules: seq<nat>) {
    match state
    case 5 => [1]
    case 11 => [1, 5]
    case 15 => [1, 5, 6]
    case 18 => [1, 5, 6, 4]
    case 21 => [1, 5, 6, 4, 6]
    case 23 => [1, 5, 6, 4, 6, 9]
    case 6 => [2]
    case 12 => [2, 5]
    case 16 => [2, 5, 3]
    case 19 => [2, 5, 3, 9]
    case 17 => [2, 5, 6]
    case 20 => [2, 5, 6, 4]
    case 22 => [2, 5, 6, 4, 6]
    case 24 => [2, 5, 6, 4, 6, 9]
    case _ => []
  }

  /** The states of a statement on the stack, up to `state`. */
  function Path(state: nat): (states: seq<nat>) {
    match state
    case 5 => [5]
    case 11 => [5, 11]
    case 15 => [5, 11, 15]
    case 18 => [5, 11, 15, 18]
    case 21 => [5, 11, 15, 18, 21]
    case 23 => [5, 11, 15, 18, 21, 23]
    case 6 => [6]
    case 12 => [6, 12]
    case 16 => [6, 12, 16]
    case 19 => [6, 12, 16, 19]
    case 17 => [6, 12, 17]
    case 20 => [6, 12, 17, 20]
    case 22 => [6, 12, 17, 20, 22]
    case 24 => [6, 12, 17, 20, 22, 24]
    case _ => [state]
  }

  /** The whole stack, which its top state and the presence of earlier statements determine. */
  function Stack(some: bool, state: nat): (states: seq<nat>) {
    match state
    case 0 => [0]
    case 1 => [0, 1]
    case 2 => [0, 2]
    case 3 => [0, 1, 3]
    case 8 => [0, 1, 3, 8]
    case _ => (if some then [0, 1, 3, 8] else [0, 1, 3]) + Path(state)
  }

  predicate Reachable(some: bool, state: nat) {
    && state <= LAST_STATE && state != YYFINAL
    && (state in {0, 1, 2, 3, 7} ==> !some)
    && (state in {8, 13, 14} ==> some)
  }

  /** The stack stays far below its initial depth of 200, so it is never extended. */
  lemma StackDepth(some: bool, state: nat)
    requires Reachable(some, state)
    ensures 1 <= |Stack(some, state)| <= 10 && Stack(some, state)[|Stack(some, state)| - 1] == state
    ensures Stack(some, state)[0] == 0
    ensures forall i :: 0 <= i < |Stack(some, state)| ==> Stack(some, state)[i] <= LAST_STATE
  {
  }

  /** Accepting and failing, by state and token; every other decision moves to a reachable
      state whose stack is the old one with symbols pushed or popped. */
  lemma ShiftMoves(some: bool, state: nat, token: nat)
    requires Reachable(some, state) && token <= 11
    requires Decide(state, token).Shift?
    ensures var s := Decide(state, token).state;
            Reachable(some, s) && Stack(some, s) == Stack(some, state) + [s] && token != 0
  {
  }

  /** The state a reduction leads to, and whether statements have been read then. */
  function After(some: bool, rule: nat): (s: nat) {
    match rule
    case 2 => 2
    case 3 => if some then 14 else 7
    case 4 => if some then 14 else 7
    case 5 => 8
    case 6 => 8
    case 7 => 9
    case _ => 10
  }

  function SomeAfter(some: bool, rule: nat): (r: bool) {
    if rule == 2 then false else some || rule == 5
  }

  /** A reduction takes the right side of its rule off the stack, and the goto tables lead from
      the state uncovered to a stack that again is the one of its top state. */
  lemma ReduceMoves(some: bool, state: nat, rule: nat)
    requires Reachable(some, state) && Default(state) == Reduce(rule)
    ensures 2 <= rule <= 9 && 0 < YyR2(rule) < |Stack(some, state)|
    ensures var st, n, s := Stack(some, state), YyR2(rule), After(some, rule);
            && st[|st| - 1 - n] >= 0 && Goto(st[|st| - 1 - n], rule) == s && Reachable(SomeAfter(some, rule), s)
            && Stack(SomeAfter(some, rule), s) == st[..|st| - n] + [s]
            && (rule == 2 || n + 2 <= |st|) && (rule != 2 ==> s != 2 && s != 0)
    ensures Seen(After(some, rule)) == []
  {
    var st := Stack(some, state);
    var below := st[..|st| - YyR2(rule)];
    assert below == Stack(below[|below| - 1] == 8, below[|below| - 1]);
  }

  /** How many reductions can follow one another from a state. */
  function Rank(state: nat): (n: nat) {
    if state in {19, 23, 24} then 3 else if state in {9, 10} then 2 else if state in {7, 13, 14} then 1 else 0
  }

  lemma ReduceSinks(some: bool, state: nat, rule: nat)
    requires Reachable(some, state) && Default(state) == Reduce(rule)
    ensures Rank(After(some, rule)) < Rank(state)
  {
  }

  /** No state has an action on the error token, so recovery pops everything. */
  lemma NoRecovery(state: nat)
    requires state <= LAST_STATE
    ensures var n := YyPact(state) + YYTERROR; n < 0 || YYLAST < n || YyCheck(n) != YYTERROR
  {
  }
}
