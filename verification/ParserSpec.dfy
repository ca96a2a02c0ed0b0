/** The configuration language of chpater12/parser.y: its grammar as derivation trees, the
    meaning of its actions, and the proof that both describe the same token sequences. */
module ParserSpec {
  import opened CStrings
  import Decimal
  import opened Scanner

  // ---- The grammar ----

  // Symbol numbers as the generated parser uses them: terminals 3..11, nonterminals from 13.
  const PROGRAM_NAME: nat := 13
  const STATEMENT: nat := 14
  const STATEMENTS: nat := 15
  const HOSTNM_STATEMENT: nat := 16
  const PORTNM_STATEMENT: nat := 17

  /** The terminal of a lexeme matched by a rule of the scanner. */
  function KindOf(rule: nat): (k: nat) {
    match rule
    case 1 => 3
    case 2 => 4
    case 3 => 6
    case 4 => 5
    case _ => rule + 2
  }

  function Kind(x: Lexeme): (k: nat) {
    KindOf(x.rule)
  }

  function Kinds(w: seq<Lexeme>): (k: seq<nat>)
    ensures |k| == |w| && forall i :: 0 <= i < |w| ==> k[i] == Kind(w[i])
  {
    seq(|w|, i requires 0 <= i < |w| => Kind(w[i]))
  }

  function Lhs(rule: nat): (symbol: nat) {
    match rule
    case 2 => PROGRAM_NAME
    case 3 => STATEMENT
    case 4 => STATEMENT
    case 5 => STATEMENTS
    case 6 => STATEMENTS
    case 7 => HOSTNM_STATEMENT
    case _ => PORTNM_STATEMENT
  }

  function Rhs(rule: nat): (symbols: seq<nat>) {
    match rule
    case 2 => [5, 9, STATEMENTS, 10]
    case 3 => [HOSTNM_STATEMENT]
    case 4 => [PORTNM_STATEMENT]
    case 5 => [STATEMENT]
    case 6 => [STATEMENTS, STATEMENT]
    case 7 => [3, 7, 8, 5, 8, 11]
    case 8 => [4, 7, 6, 11]
    case _ => [4, 7, 8, 5, 8, 11]
  }

  datatype Tree = Leaf(kind: nat) | Node(rule: nat, kids: Forest)
  datatype Forest = Empty | Grow(head: Tree, tail: Forest)

  function Root(t: Tree): (symbol: nat) {
    match t
    case Leaf(k) => k
    case Node(r, _) => Lhs(r)
  }

  function Roots(f: Forest): (symbols: seq<nat>) {
    match f
    case Empty => []
    case Grow(t, rest) => [Root(t)] + Roots(rest)
  }

  /** Every inner node is an application of a production. */
  predicate WellFormed(t: Tree) {
    match t
    case Leaf(k) => 3 <= k <= 11
    case Node(r, kids) => 2 <= r <= 9 && Roots(kids) == Rhs(r) && AllWellFormed(kids)
  }

  predicate AllWellFormed(f: Forest) {
    match f
    case Empty => true
    case Grow(t, rest) => WellFormed(t) && AllWellFormed(rest)
  }

  function Yield(t: Tree): (k: seq<nat>) {
    match t
    case Leaf(k) => [k]
    case Node(_, kids) => Yields(kids)
  }

  function Yields(f: Forest): (k: seq<nat>) {
    match f
    case Empty => []
    case Grow(t, rest) => Yield(t) + Yields(rest)
  }

  /** The grammar derives `k` from its start symbol. */
  ghost predicate Derives(k: seq<nat>) {
    exists t :: WellFormed(t) && Root(t) == PROGRAM_NAME && Yield(t) == k
  }

  // ---- The meaning of the actions ----

  /** g_program_name, g_hostnm and g_portnm. */
  datatype Globals = Globals(program: seq<byte>, host: seq<byte>, port: seq<byte>)

  /** Statements take effect as they are read, so a rejected text leaves globals behind too. */
  datatype Outcome = Rejected(globals: Globals) | Accepted(globals: Globals)

  const NAME_SIZE: nat := 80

  /** snprintf(buf, sizeof(buf), "%s", s) into 80 bytes. */
  function Clip(s: seq<byte>): (r: seq<byte>)
    ensures r <= s && |r| <= 79 && (r == s || |r| == 79)
  {
    s[..Min(|s|, NAME_SIZE - 1)]
  }

  // The three statement forms, as rules of the scanner.
  const HOST_FORM: seq<nat> := [1, 5, 6, 4, 6, 9]
  const PORT_FORM: seq<nat> := [2, 5, 3, 9]
  const PORT_NAME_FORM: seq<nat> := [2, 5, 6, 4, 6, 9]

  /** `w` starts with lexemes of the given rules. */
  predicate StartsWith(w: seq<Lexeme>, form: seq<nat>) {
    |form| <= |w| && forall i :: 0 <= i < |form| ==> w[i].rule == form[i]
  }

  predicate StartsStatement(w: seq<Lexeme>) {
    StartsWith(w, HOST_FORM) || StartsWith(w, PORT_FORM) || StartsWith(w, PORT_NAME_FORM)
  }

  /** The production whose right side is the statement at the start of `w`. */
  function StatementRule(w: seq<Lexeme>): (r: nat)
    requires StartsStatement(w)
    ensures 7 <= r <= 9
  {
    if StartsWith(w, HOST_FORM) then 7 else if StartsWith(w, PORT_FORM) then 8 else 9
  }

  function StatementLength(w: seq<Lexeme>): (n: nat)
    requires StartsStatement(w)
    ensures 0 < n <= |w|
  {
    if StatementRule(w) == 8 then 4 else 6
  }

  predicate NumbersAreDigits(w: seq<Lexeme>) {
    forall i :: 0 <= i < |w| ==> w[i].rule == 3 ==> Decimal.AllDigits(w[i].text)
  }

  /** The effect of the statement at the start of `w`. */
  function Execute(g: Globals, w: seq<Lexeme>): (r: Globals)
    requires StartsStatement(w) && NumbersAreDigits(w)
  {
    match StatementRule(w)
    case 7 => g.(host := Clip(w[3].text))
    case 8 => g.(port := Clip(Decimal.Decimal(Decimal.Value(w[2].text))))
    case _ => g.(port := Clip(w[3].text))
  }

  /** Nothing may follow the closing brace. */
  function Close(g: Globals, w: seq<Lexeme>): (r: Outcome) {
    if w == [] then Accepted(g) else Rejected(g)
  }

  /** The rest of a configuration from inside the braces; at least one statement is needed
      before the closing brace, and nothing may follow it. */
  function Body(g: Globals, prog: seq<byte>, some: bool, w: seq<Lexeme>): (r: Outcome)
    requires NumbersAreDigits(w)
    decreases |w|
  {
    if StartsStatement(w) then Body(Execute(g, w), prog, true, w[StatementLength(w)..])
    else if some && w != [] && w[0].rule == 8 then Close(g.(program := Clip(prog)), w[1..])
    else Rejected(g)
  }

  /** The whole file: a name, an opening brace, statements, a closing brace. */
  function Meaning(g: Globals, w: seq<Lexeme>): (r: Outcome)
    requires NumbersAreDigits(w)
  {
    if Headed(w) then Body(g, w[0].text, false, w[2..]) else Rejected(g)
  }

  /** A name and an opening brace. */
  predicate Headed(w: seq<Lexeme>) {
    |w| >= 2 && w[0].rule == 4 && w[1].rule == 7
  }

  // ---- Both agree ----

  predicate Scanned(w: seq<Lexeme>) {
    NumbersAreDigits(w) && forall i :: 0 <= i < |w| ==> 1 <= w[i].rule <= 9
  }

  lemma KindsCut(w: seq<Lexeme>, n: nat)
    requires n <= |w|
    ensures Kinds(w) == Kinds(w[..n]) + Kinds(w[n..])
  {
  }

  /** A forest of terminals. */
  function Leaves(ks: seq<nat>): (f: Forest) {
    if ks == [] then Empty else Grow(Leaf(ks[0]), Leaves(ks[1..]))
  }

  lemma {:induction false} LeavesYield(ks: seq<nat>)
    requires forall i :: 0 <= i < |ks| ==> 3 <= ks[i] <= 11
    ensures Yields(Leaves(ks)) == ks && Roots(Leaves(ks)) == ks && AllWellFormed(Leaves(ks))
    decreases |ks|
  {
    if ks != [] {
      LeavesYield(ks[1..]);
      assert ks == [ks[0]] + ks[1..];
    }
  }

  /** A node with one or two given children. */
  lemma SmallForests(s: Tree, t: Tree)
    requires WellFormed(s) && WellFormed(t)
    ensures Roots(Grow(s, Empty)) == [Root(s)] && AllWellFormed(Grow(s, Empty)) && Yields(Grow(s, Empty)) == Yield(s)
    ensures Roots(Grow(s, Grow(t, Empty))) == [Root(s), Root(t)] && AllWellFormed(Grow(s, Grow(t, Empty)))
    ensures Yields(Grow(s, Grow(t, Empty))) == Yield(s) + Yield(t)
  {
    assert Yields(Grow(s, Empty)) == Yield(s) + [];
    assert Yields(Grow(t, Empty)) == Yield(t) + [];
    assert Roots(Grow(s, Empty)) == [Root(s)] + [];
    assert Roots(Grow(t, Empty)) == [Root(t)] + [];
  }

  predicate IsStatement(k: seq<nat>) {
    k == Rhs(7) || k == Rhs(8) || k == Rhs(9)
  }

  function KindsOf(form: seq<nat>): (k: seq<nat>)
    ensures |k| == |form| && forall i :: 0 <= i < |form| ==> k[i] == KindOf(form[i])
  {
    seq(|form|, i requires 0 <= i < |form| => KindOf(form[i]))
  }

  /** The forms are the right sides of the statement productions. */
  lemma FormsAreProductions()
    ensures KindsOf(HOST_FORM) == Rhs(7) && KindsOf(PORT_FORM) == Rhs(8) && KindsOf(PORT_NAME_FORM) == Rhs(9)
  {
  }

  lemma StartsWithKinds(w: seq<Lexeme>, form: seq<nat>)
    requires Scanned(w) && |form| <= |w| && forall i :: 0 <= i < |form| ==> 1 <= form[i] <= 9
    ensures StartsWith(w, form) <==> Kinds(w[..|form|]) == KindsOf(form)
  {
    if Kinds(w[..|form|]) == KindsOf(form) {
      forall i | 0 <= i < |form| ensures w[i].rule == form[i] {
        assert Kinds(w[..|form|])[i] == Kind(w[i]);
      }
    }
  }

  lemma StatementKinds(w: seq<Lexeme>)
    requires Scanned(w) && StartsStatement(w)
    ensures Kinds(w[..StatementLength(w)]) == Rhs(StatementRule(w))
  {
    FormsAreProductions();
    StartsWithKinds(w, if StatementRule(w) == 7 then HOST_FORM
                       else if StatementRule(w) == 8 then PORT_FORM else PORT_NAME_FORM);
  }

  /** The tree of the statement at the start of `w`. */
  lemma StatementTree(w: seq<Lexeme>) returns (t: Tree)
    requires Scanned(w) && StartsStatement(w)
    ensures WellFormed(t) && Root(t) == STATEMENT && Yield(t) == Kinds(w[..StatementLength(w)])
  {
    var r := StatementRule(w);
    StatementKinds(w);
    LeavesYield(Rhs(r));
    var s := Node(r, Leaves(Rhs(r)));
    SmallForests(s, s);
    t := Node(if r == 7 then 3 else 4, Grow(s, Empty));
  }

  /** Accepted statements build a left-recursive tree around the statements read before. */
  lemma {:induction false} BodyTree(g: Globals, prog: seq<byte>, some: bool, w: seq<Lexeme>, before: Tree)
    returns (t: Tree)
    requires Scanned(w) && Body(g, prog, some, w).Accepted?
    requires some ==> WellFormed(before) && Root(before) == STATEMENTS
    ensures WellFormed(t) && Root(t) == STATEMENTS
    ensures Yield(t) + [10] == (if some then Yield(before) else []) + Kinds(w)
    decreases |w|
  {
    var x := if some then Yield(before) else [];
    if StartsStatement(w) {
      var n := StatementLength(w);
      var s := StatementTree(w);
      var next := MoreStatements(some, before, s);
      t := BodyTree(Execute(g, w), prog, true, w[n..], next);
      KindsCut(w, n);
      Regroup(x, Kinds(w[..n]), Kinds(w[n..]));
    } else {
      t := before;
      OneKind(w);
    }
  }

  lemma Regroup(a: seq<nat>, b: seq<nat>, c: seq<nat>)
    ensures (a + b) + c == a + (b + c)
  {
  }

  lemma OneKind(w: seq<Lexeme>)
    requires |w| == 1
    ensures Kinds(w) == [Kind(w[0])]
  {
  }

  lemma MoreStatements(some: bool, before: Tree, s: Tree) returns (t: Tree)
    requires some ==> WellFormed(before) && Root(before) == STATEMENTS
    requires WellFormed(s) && Root(s) == STATEMENT
    ensures WellFormed(t) && Root(t) == STATEMENTS
    ensures Yield(t) == (if some then Yield(before) else []) + Yield(s)
  {
    if some {
      SmallForests(before, s);
      t := Node(6, Grow(before, Grow(s, Empty)));
    } else {
      SmallForests(s, s);
      t := Node(5, Grow(s, Empty));
    }
  }

  /** One more child in front. */
  lemma GrowBy(k: nat, f: Forest, roots: seq<nat>, word: seq<nat>)
    requires 3 <= k <= 11 && AllWellFormed(f) && Roots(f) == roots && Yields(f) == word
    ensures var g := Grow(Leaf(k), f); AllWellFormed(g) && Roots(g) == [k] + roots && Yields(g) == [k] + word
  {
  }

  lemma ProgramTree(s: Tree) returns (t: Tree)
    requires WellFormed(s) && Root(s) == STATEMENTS
    ensures WellFormed(t) && Root(t) == PROGRAM_NAME && Yield(t) == [5, 9] + (Yield(s) + [10])
  {
    hide Roots, Yields, AllWellFormed;
    var close := Grow(s, Grow(Leaf(10), Empty));
    var tail := Yield(s) + [10];
    SmallForests(s, Leaf(10));
    GrowBy(9, close, [STATEMENTS, 10], tail);
    GrowBy(5, Grow(Leaf(9), close), [9] + [STATEMENTS, 10], [9] + tail);
    t := Node(2, Grow(Leaf(5), Grow(Leaf(9), close)));
    assert [5] + ([9] + [STATEMENTS, 10]) == [5, 9, STATEMENTS, 10];
    assert [5] + ([9] + tail) == [5, 9] + tail;
  }

  /** The first two lexemes of a configuration. */
  lemma KindsOfHeader(w: seq<Lexeme>)
    requires |w| >= 2 && w[0].rule == 4 && w[1].rule == 7
    ensures Kinds(w) == [5, 9] + Kinds(w[2..])
  {
  }

  lemma AcceptedIsDerived(g: Globals, w: seq<Lexeme>)
    requires Scanned(w) && Meaning(g, w).Accepted?
    ensures Derives(Kinds(w))
  {
    var body := w[2..];
    var s := BodyTree(g, w[0].text, false, body, Leaf(3));
    var t := ProgramTree(s);
    KindsOfHeader(w);
    assert [] + Kinds(body) == Kinds(body);
  }

  /** Opening up a forest whose roots are known. */
  lemma OpenForest(f: Forest, r: nat, rs: seq<nat>)
    requires Roots(f) == [r] + rs && AllWellFormed(f)
    ensures f.Grow? && Root(f.head) == r && Roots(f.tail) == rs
    ensures WellFormed(f.head) && AllWellFormed(f.tail) && Yields(f) == Yield(f.head) + Yields(f.tail)
    ensures 3 <= r <= 11 ==> f.head == Leaf(r)
  {
    assert (Roots(f))[0] == r && Roots(f)[1..] == rs;
    if f.head.Node? {
      assert Lhs(f.head.rule) >= 13;
    }
  }

  lemma {:induction false} TerminalForest(f: Forest, rs: seq<nat>)
    requires Roots(f) == rs && AllWellFormed(f)
    requires forall i :: 0 <= i < |rs| ==> 3 <= rs[i] <= 11
    ensures Yields(f) == rs
    decreases |rs|
  {
    if rs != [] {
      assert rs == [rs[0]] + rs[1..];
      OpenForest(f, rs[0], rs[1..]);
      TerminalForest(f.tail, rs[1..]);
    }
  }

  /** Opening up a forest with one child, or two. */
  lemma OpenOne(f: Forest, r: nat)
    requires Roots(f) == [r] && AllWellFormed(f)
    ensures f.Grow? && Root(f.head) == r && WellFormed(f.head) && Yields(f) == Yield(f.head)
  {
    assert [r] == [r] + [];
    OpenForest(f, r, []);
    assert f.tail == Empty;
  }

  lemma OpenTwo(f: Forest, r: nat, q: nat)
    requires Roots(f) == [r, q] && AllWellFormed(f)
    ensures f.Grow? && f.tail.Grow? && Root(f.head) == r && Root(f.tail.head) == q
    ensures WellFormed(f.head) && WellFormed(f.tail.head) && Yields(f) == Yield(f.head) + Yield(f.tail.head)
  {
    assert [r, q] == [r] + [q];
    OpenForest(f, r, [q]);
    OpenOne(f.tail, q);
  }

  /** What a statement derives is one of the three forms. */
  lemma StatementYield(t: Tree)
    requires WellFormed(t) && Root(t) == STATEMENT
    ensures IsStatement(Yield(t))
  {
    OpenOne(t.kids, Rhs(t.rule)[0]);
    var s := t.kids.head;
    TerminalForest(s.kids, Rhs(s.rule));
  }

  /** Lexemes of the kinds a statement derives start a statement, of that length. */
  lemma FormOfKinds(w: seq<Lexeme>, v: seq<Lexeme>)
    requires Scanned(w + v) && IsStatement(Kinds(w))
    ensures StartsStatement(w + v) && StatementLength(w + v) == |w|
    ensures (w + v)[|w|..] == v
  {
    assert (w + v)[..|w|] == w;
    FormsAreProductions();
    var k := Kinds(w);
    if k == Rhs(7) {
      StartsWithKinds(w + v, HOST_FORM);
    } else {
      StartsWithKinds(w + v, if k == Rhs(8) then PORT_FORM else PORT_NAME_FORM);
      assert k[0] == 4 && Kind((w + v)[0]) == 4;
      assert !StartsWith(w + v, HOST_FORM);
      assert k == Rhs(9) ==> k[2] == 8 && Kind((w + v)[2]) == 8;
    }
  }

  lemma StatementConsumed(t: Tree, g: Globals, prog: seq<byte>, some: bool, w: seq<Lexeme>, v: seq<Lexeme>)
    returns (g': Globals)
    requires WellFormed(t) && Root(t) == STATEMENT && Yield(t) == Kinds(w)
    requires Scanned(w + v) && Scanned(v)
    ensures Body(g, prog, some, w + v) == Body(g', prog, true, v)
  {
    StatementYield(t);
    FormOfKinds(w, v);
    g' := Execute(g, w + v);
  }

  /** Derived statements are consumed, whatever follows them. */
  lemma {:induction false} StatementsConsumed(t: Tree, g: Globals, prog: seq<byte>, some: bool,
                                              w: seq<Lexeme>, v: seq<Lexeme>)
    returns (g': Globals)
    requires WellFormed(t) && Root(t) == STATEMENTS && Yield(t) == Kinds(w)
    requires Scanned(w + v) && Scanned(v)
    ensures Body(g, prog, some, w + v) == Body(g', prog, true, v)
    decreases t
  {
    if t.rule == 5 {
      OpenOne(t.kids, STATEMENT);
      g' := StatementConsumed(t.kids.head, g, prog, some, w, v);
    } else {
      OpenTwo(t.kids, STATEMENTS, STATEMENT);
      var n := |Yield(t.kids.head)|;
      KindsOfParts(w, Yield(t.kids.head), Yield(t.kids.tail.head));
      CutScanned(w, v, n);
      var g1 := StatementsConsumed(t.kids.head, g, prog, some, w[..n], w[n..] + v);
      g' := StatementConsumed(t.kids.tail.head, g1, prog, true, w[n..], v);
    }
  }

  lemma CutScanned(w: seq<Lexeme>, v: seq<Lexeme>, n: nat)
    requires Scanned(w + v) && n <= |w|
    ensures w + v == w[..n] + (w[n..] + v) && Scanned(w[n..] + v)
  {
    assert w[n..] + v == (w + v)[n..];
  }

  lemma KindsOfParts(w: seq<Lexeme>, a: seq<nat>, b: seq<nat>)
    requires Kinds(w) == a + b
    ensures |a| <= |w| && Kinds(w[..|a|]) == a && Kinds(w[|a|..]) == b
  {
    assert |a + b| == |w|;
    KindsCut(w, |a|);
    assert a == Kinds(w)[..|a|] == Kinds(w[..|a|]);
    assert b == Kinds(w)[|a|..] == Kinds(w[|a|..]);
  }

  /** The whole tree: name, brace, statements, brace. */
  lemma OpenProgram(t: Tree) returns (s: Tree)
    requires WellFormed(t) && Root(t) == PROGRAM_NAME
    ensures WellFormed(s) && Root(s) == STATEMENTS && Yield(t) == [5, 9] + (Yield(s) + [10])
  {
    assert Rhs(2) == [5] + [9, STATEMENTS, 10] && [9, STATEMENTS, 10] == [9] + [STATEMENTS, 10];
    OpenForest(t.kids, 5, [9, STATEMENTS, 10]);
    OpenForest(t.kids.tail, 9, [STATEMENTS, 10]);
    OpenTwo(t.kids.tail.tail, STATEMENTS, 10);
    s := t.kids.tail.tail.head;
    TerminalForest(Grow(t.kids.tail.tail.tail.head, Empty), [10]);
    assert Yield(t.kids.tail.tail.tail.head) == [10];
  }

  /** Lexemes whose kinds are those of a program, taken apart. */
  lemma ProgramParts(w: seq<Lexeme>, body: seq<nat>)
    requires Scanned(w) && Kinds(w) == [5, 9] + (body + [10])
    ensures |w| == |body| + 3 && w[0].rule == 4 && w[1].rule == 7
    ensures var v := w[2..]; v == v[..|body|] + v[|body|..] && Kinds(v[..|body|]) == body
    ensures Scanned(w[2..][|body|..]) && |w[2..][|body|..]| == 1 && w[2..][|body|..][0].rule == 8
  {
    var k := Kinds(w);
    KindsOfParts(w, [5, 9], body + [10]);
    KindsOfParts(w[2..], body, [10]);
    assert k[0] == 5 && k[1] == 9 && Kinds(w[2..][|body|..])[0] == 10;
  }

  lemma DerivedIsAccepted(g: Globals, w: seq<Lexeme>)
    requires Scanned(w) && Derives(Kinds(w))
    ensures Meaning(g, w).Accepted?
  {
    var t :| WellFormed(t) && Root(t) == PROGRAM_NAME && Yield(t) == Kinds(w);
    var s := OpenProgram(t);
    var body := Yield(s);
    ProgramParts(w, body);
    var v := w[2..];
    var g' := StatementsConsumed(s, g, w[0].text, false, v[..|body|], v[|body|..]);
    CloseAccepts(g', w[0].text, v[|body|..]);
  }

  lemma CloseAccepts(g: Globals, prog: seq<byte>, w: seq<Lexeme>)
    requires Scanned(w) && |w| == 1 && w[0].rule == 8
    ensures Body(g, prog, true, w) == Accepted(g.(program := Clip(prog)))
  {
  }

  /** The actions' reading of a token sequence succeeds exactly when the grammar derives it. */
  lemma MeaningIffDerives(g: Globals, w: seq<Lexeme>)
    requires Scanned(w)
    ensures Meaning(g, w).Accepted? <==> Derives(Kinds(w))
  {
    if Meaning(g, w).Accepted? {
      AcceptedIsDerived(g, w);
    }
    if Derives(Kinds(w)) {
      DerivedIsAccepted(g, w);
    }
  }

  // ---- The values that are left ----

  /** The place of the last lexeme of a rule, or -1. */
  function LastOf(w: seq<Lexeme>, rule: nat): (i: int)
    ensures -1 <= i < |w|
    ensures i >= 0 ==> w[i].rule == rule
    ensures forall j :: i < j < |w| ==> w[j].rule != rule
  {
    if w == [] then -1
    else if w[|w| - 1].rule == rule then |w| - 1
    else LastOf(w[..|w| - 1], rule)
  }

  lemma LastOfIs(w: seq<Lexeme>, rule: nat, i: int)
    requires -1 <= i < |w| && (i >= 0 ==> w[i].rule == rule)
    requires forall j :: i < j < |w| ==> w[j].rule != rule
    ensures LastOf(w, rule) == i
  {
    var k := LastOf(w, rule);
    assert k >= 0 ==> w[k].rule == rule;
  }

  /** The value behind a keyword: a number in decimal, or a quoted name, cut to 79 bytes. */
  function ValueAfter(w: seq<Lexeme>, i: nat): (v: seq<byte>)
    requires i + 3 < |w| && NumbersAreDigits(w)
  {
    if w[i + 2].rule == 3 then Clip(Decimal.Decimal(Decimal.Value(w[i + 2].text))) else Clip(w[i + 3].text)
  }

  /** The value of the last setting of a keyword, `d` when there is none. */
  ghost predicate LastValue(d: seq<byte>, w: seq<Lexeme>, rule: nat, v: seq<byte>)
    requires NumbersAreDigits(w)
  {
    var i := LastOf(w, rule);
    if i < 0 then v == d else i + 3 < |w| && v == ValueAfter(w, i)
  }

  /** In `r` each global has the last value `w` assigns to it. */
  ghost predicate LastAssigned(g: Globals, w: seq<Lexeme>, r: Globals)
    requires NumbersAreDigits(w)
  {
    && w != [] && r.program == Clip(w[0].text)
    && LastValue(g.host, w, 1, r.host) && LastValue(g.port, w, 2, r.port)
  }

  /** A statement: its own keyword first, no other one in it. */
  lemma StatementKeyword(g: Globals, w: seq<Lexeme>, rule: nat)
    requires StartsStatement(w) && NumbersAreDigits(w) && (rule == 1 || rule == 2)
    ensures var n := StatementLength(w);
            && (forall j :: 0 < j < n ==> w[j].rule != rule)
            && 3 < n <= |w|
            && SetBy(rule, Execute(g, w)) == if w[0].rule == rule then ValueAfter(w, 0) else SetBy(rule, g)
  {
    Forms(w);
  }

  /** The three forms, position by position. */
  lemma Forms(w: seq<Lexeme>)
    ensures StartsWith(w, HOST_FORM) <==>
              |w| >= 6 && w[0].rule == 1 && w[1].rule == 5 && w[2].rule == 6
              && w[3].rule == 4 && w[4].rule == 6 && w[5].rule == 9
    ensures StartsWith(w, PORT_FORM) <==>
              |w| >= 4 && w[0].rule == 2 && w[1].rule == 5 && w[2].rule == 3 && w[3].rule == 9
    ensures StartsWith(w, PORT_NAME_FORM) <==>
              |w| >= 6 && w[0].rule == 2 && w[1].rule == 5 && w[2].rule == 6
              && w[3].rule == 4 && w[4].rule == 6 && w[5].rule == 9
  {
  }

  /** The last setting of a text that starts with lexemes other than its keyword, or with one
      statement. */
  lemma LastBehind(w: seq<Lexeme>, n: nat, rule: nat)
    requires n <= |w| && forall j :: 0 < j < n ==> w[j].rule != rule
    ensures var i := LastOf(w[n..], rule);
            LastOf(w, rule) == if i >= 0 then n + i else if n > 0 && w[0].rule == rule then 0 else -1
  {
    var v := w[n..];
    var i := LastOf(v, rule);
    forall j | n <= j < |w| ensures w[j] == v[j - n] {
    }
    LastOfIs(w, rule, if i >= 0 then n + i else if n > 0 && w[0].rule == rule then 0 else -1);
  }

  /** Behind such a stretch the last value is the same, or the stretch's own. */
  lemma LastValueBehind(d: seq<byte>, next: seq<byte>, w: seq<Lexeme>, n: nat, rule: nat, v: seq<byte>)
    requires n <= |w| && NumbersAreDigits(w) && forall j :: 0 < j < n ==> w[j].rule != rule
    requires LastValue(next, w[n..], rule, v)
    requires if n > 0 && w[0].rule == rule then 3 < n && next == ValueAfter(w, 0) else next == d
    ensures LastValue(d, w, rule, v)
  {
    hide ValueAfter, LastOf, NumbersAreDigits;
    LastBehind(w, n, rule);
    SameValue(w, n, LastOf(w[n..], rule));
  }

  lemma SameValue(w: seq<Lexeme>, n: nat, i: int)
    requires NumbersAreDigits(w) && n <= |w|
    ensures NumbersAreDigits(w[n..])
    ensures 0 <= i && i + 3 < |w[n..]| ==> n + i + 3 < |w| && ValueAfter(w, n + i) == ValueAfter(w[n..], i)
  {
    hide Clip, Decimal.Decimal, Decimal.Value;
  }

  /** The value of a keyword's setting in the globals. */
  function SetBy(rule: nat, g: Globals): (v: seq<byte>) {
    if rule == 1 then g.host else g.port
  }

  /** How much of `w` is made up of the statements at its start. */
  function StatementsLength(w: seq<Lexeme>): (n: nat)
    ensures n <= |w| && !StartsStatement(w[n..])
    ensures n > 0 <==> StartsStatement(w)
    decreases |w|
  {
    if StartsStatement(w) then StatementLength(w) + StatementsLength(w[StatementLength(w)..]) else 0
  }

  /** How much of a text has been carried out when its reading ends: the header and the
      statements behind it. */
  function Executed(w: seq<Lexeme>): (n: nat)
    ensures n <= |w|
  {
    if Headed(w) then 2 + StatementsLength(w[2..]) else 0
  }

  /** A closing brace follows at least one statement. */
  predicate BraceRead(w: seq<Lexeme>) {
    var n := Executed(w);
    2 < n < |w| && w[n].rule == 8
  }

  /** What reading `w` leaves in the globals, whether it is accepted or not: the last values
      set by the statements carried out, and the program name once the brace is closed. */
  ghost predicate Left(g: Globals, w: seq<Lexeme>, r: Globals)
    requires NumbersAreDigits(w)
  {
    var done := w[..Executed(w)];
    && r.program == (if BraceRead(w) then Clip(w[0].text) else g.program)
    && LastValue(g.host, done, 1, r.host) && LastValue(g.port, done, 2, r.port)
  }

  lemma {:induction false} BodySets(g: Globals, prog: seq<byte>, some: bool, w: seq<Lexeme>, rule: nat)
    requires NumbersAreDigits(w) && (rule == 1 || rule == 2)
    ensures LastValue(SetBy(rule, g), w[..StatementsLength(w)], rule, SetBy(rule, Body(g, prog, some, w).globals))
    decreases |w|
  {
    hide Execute, LastValue, ValueAfter, Clip, StartsStatement, StatementLength;
    var k := StatementsLength(w);
    if StartsStatement(w) {
      var n, next := StatementLength(w), Execute(g, w);
      StatementKeyword(g, w, rule);
      BodySets(next, prog, true, w[n..], rule);
      SetBehind(g, next, w, n, k, rule, SetBy(rule, Body(g, prog, some, w).globals));
    } else {
      NoSetting(SetBy(rule, g), w[..0], rule);
    }
  }

  lemma SetBehind(g: Globals, next: Globals, w: seq<Lexeme>, n: nat, k: nat, rule: nat, v: seq<byte>)
    requires 3 < n <= k <= |w| && NumbersAreDigits(w) && forall j :: 0 < j < n ==> w[j].rule != rule
    requires SetBy(rule, next) == if w[0].rule == rule then ValueAfter(w, 0) else SetBy(rule, g)
    requires LastValue(SetBy(rule, next), w[n..][..k - n], rule, v)
    ensures LastValue(SetBy(rule, g), w[..k], rule, v)
  {
    hide LastValue, Clip, SetBy;
    assert w[..k][n..] == w[n..][..k - n];
    LastValueBehind(SetBy(rule, g), SetBy(rule, next), w[..k], n, rule, v);
  }

  lemma {:induction false} BodyCloses(g: Globals, prog: seq<byte>, some: bool, w: seq<Lexeme>)
    requires NumbersAreDigits(w)
    ensures var r, k := Body(g, prog, some, w), StatementsLength(w);
            var closed := (some || k > 0) && k < |w| && w[k].rule == 8;
            && r.globals.program == (if closed then Clip(prog) else g.program)
            && (r.Accepted? <==> closed && k + 1 == |w|)
    decreases |w|
  {
    hide Execute, Clip, StartsStatement, StatementLength;
    if StartsStatement(w) {
      ExecuteKeeps(g, w);
      BodyCloses(Execute(g, w), prog, true, w[StatementLength(w)..]);
    }
  }

  lemma ExecuteKeeps(g: Globals, w: seq<Lexeme>)
    requires StartsStatement(w) && NumbersAreDigits(w)
    ensures Execute(g, w).program == g.program
  {
  }

  lemma NoSetting(d: seq<byte>, w: seq<Lexeme>, rule: nat)
    requires NumbersAreDigits(w) && forall i :: 0 <= i < |w| ==> w[i].rule != rule
    ensures LastValue(d, w, rule, d)
  {
    LastOfIs(w, rule, -1);
  }

  /** The header sets neither host nor port. */
  lemma BehindHeader(d: seq<byte>, w: seq<Lexeme>, rule: nat, v: seq<byte>)
    requires NumbersAreDigits(w) && Headed(w) && (rule == 1 || rule == 2)
    requires LastValue(d, w[2..Executed(w)], rule, v)
    ensures LastValue(d, w[..Executed(w)], rule, v)
  {
    var done := w[..Executed(w)];
    assert done[2..] == w[2..Executed(w)];
    LastValueBehind(d, d, done, 2, rule, v);
  }

  /** Every text, accepted or not, leaves the effect of what was carried out. */
  lemma MeaningLeaves(g: Globals, w: seq<Lexeme>)
    requires NumbersAreDigits(w)
    ensures Left(g, w, Meaning(g, w).globals)
    ensures Meaning(g, w).Accepted? <==> BraceRead(w) && Executed(w) + 1 == |w|
  {
    hide Body, LastValue, StatementsLength, Clip;
    var r := Meaning(g, w).globals;
    if Headed(w) {
      var v := w[2..];
      BodySets(g, w[0].text, false, v, 1);
      BodySets(g, w[0].text, false, v, 2);
      BodyCloses(g, w[0].text, false, v);
      assert v[..StatementsLength(v)] == w[2..Executed(w)];
      BehindHeader(g.host, w, 1, r.host);
      BehindHeader(g.port, w, 2, r.port);
    } else {
      NoSetting(g.host, w[..0], 1);
      NoSetting(g.port, w[..0], 2);
    }
  }

  /** A text leaves all globals as they were, whatever they were, exactly when no statement is
      carried out: behind a name and an opening brace none starts. */
  lemma WhenNothingChanges(w: seq<Lexeme>)
    requires NumbersAreDigits(w)
    ensures (forall g :: Meaning(g, w).globals == g) <==> !(Headed(w) && StartsStatement(w[2..]))
  {
    hide Meaning, StatementsLength;
    if Headed(w) && StartsStatement(w[2..]) {
      var g, h := Globals([], [], []), Globals([], [0], [0]);
      MeaningLeaves(g, w);
      MeaningLeaves(h, w);
      FirstKeyword(w);
      assert Meaning(g, w).globals != g || Meaning(h, w).globals != h;
    } else {
      forall g ensures Meaning(g, w).globals == g {
        MeaningLeaves(g, w);
      }
    }
  }

  /** A statement that has been carried out sets one of the two. */
  lemma FirstKeyword(w: seq<Lexeme>)
    requires Headed(w) && StartsStatement(w[2..])
    ensures var done := w[..Executed(w)]; LastOf(done, 1) >= 0 || LastOf(done, 2) >= 0
  {
    var done := w[..Executed(w)];
    Forms(w[2..]);
    assert done[2] == w[2..][0];
  }

  /** Whatever an accepted configuration looks like: the globals are its name, the last host
      and the last port. */
  lemma AcceptedAssigns(g: Globals, w: seq<Lexeme>)
    requires NumbersAreDigits(w) && Meaning(g, w).Accepted?
    ensures LastAssigned(g, w, Meaning(g, w).globals)
  {
    hide Meaning;
    MeaningLeaves(g, w);
    var n := Executed(w);
    assert w[..n] == w[..|w| - 1];
    assert forall i :: 0 <= i < n ==> w[..n][i] == w[i];
  }

  /** What a value looks like when a text is copied into 80 bytes. */
  predicate CutTo79(v: seq<byte>, text: seq<byte>) {
    v == if |text| <= 79 then text else text[..79]
  }

  /** The globals of an accepted text without a word about how they are computed: the program is
      the first word; host and port are the words behind the last keywords, or the number there
      in decimal; without a keyword they stay. */
  lemma AssignedInBytes(g: Globals, w: seq<Lexeme>)
    requires NumbersAreDigits(w) && Meaning(g, w).Accepted?
    ensures var r := Meaning(g, w).globals;
            && w != [] && CutTo79(r.program, w[0].text)
            && ((forall j :: 0 <= j < |w| ==> w[j].rule != 1) ==> r.host == g.host)
            && ((forall j :: 0 <= j < |w| ==> w[j].rule != 2) ==> r.port == g.port)
            && (forall i: nat :: IsLast(w, 1, i) ==> i + 3 < |w| && CutTo79(r.host, w[i + 3].text))
            && (forall i: nat :: IsLast(w, 2, i) ==> i + 3 < |w| && CutTo79(r.port, PortText(w, i)))
  {
    hide Meaning, LastValue, PortText, CutTo79;
    var r := Meaning(g, w).globals;
    AcceptedAssigns(g, w);
    ClipCuts(w[0].text);
    NoneLast(g.host, w, 1, r.host);
    NoneLast(g.port, w, 2, r.port);
    HostsQuoted(g, w);
    forall i: nat | IsLast(w, 1, i) ensures i + 3 < |w| && CutTo79(r.host, w[i + 3].text) {
      LastInBytes(g.host, w, 1, r.host, i);
      QuotedText(w, i);
    }
    forall i: nat | IsLast(w, 2, i) ensures i + 3 < |w| && CutTo79(r.port, PortText(w, i)) {
      LastInBytes(g.port, w, 2, r.port, i);
    }
  }

  /** The last lexeme of a rule. */
  predicate IsLast(w: seq<Lexeme>, rule: nat, i: nat) {
    i < |w| && w[i].rule == rule && forall j :: i < j < |w| ==> w[j].rule != rule
  }

  /** The text a setting at `i` assigns: the number behind the equals sign in decimal, or the
      word behind the quote. */
  function PortText(w: seq<Lexeme>, i: nat): (t: seq<byte>)
    requires i + 3 < |w| && NumbersAreDigits(w)
  {
    if w[i + 2].rule == 3 then Decimal.Decimal(Decimal.Value(w[i + 2].text)) else w[i + 3].text
  }

  lemma QuotedText(w: seq<Lexeme>, i: nat)
    requires i + 3 < |w| && NumbersAreDigits(w) && w[i + 2].rule != 3
    ensures PortText(w, i) == w[i + 3].text
  {
  }

  lemma NoneLast(d: seq<byte>, w: seq<Lexeme>, rule: nat, v: seq<byte>)
    requires NumbersAreDigits(w) && LastValue(d, w, rule, v)
    ensures (forall j :: 0 <= j < |w| ==> w[j].rule != rule) ==> v == d
  {
    var k := LastOf(w, rule);
    assert k >= 0 ==> w[k].rule == rule;
  }

  lemma LastInBytes(d: seq<byte>, w: seq<Lexeme>, rule: nat, v: seq<byte>, i: nat)
    requires NumbersAreDigits(w) && LastValue(d, w, rule, v) && IsLast(w, rule, i)
    ensures i + 3 < |w| && CutTo79(v, PortText(w, i))
  {
    hide ValueAfter, PortText, CutTo79, LastOf, NumbersAreDigits;
    LastOfIs(w, rule, i);
    ValueIsCut(w, i);
  }

  lemma ValueIsCut(w: seq<Lexeme>, i: nat)
    requires NumbersAreDigits(w)
    ensures i + 3 < |w| ==> CutTo79(ValueAfter(w, i), PortText(w, i))
  {
    hide Decimal.Decimal, Decimal.Value;
    if i + 3 < |w| {
      ClipCuts(PortText(w, i));
    }
  }

  lemma ClipCuts(s: seq<byte>)
    ensures CutTo79(Clip(s), s)
  {
  }

  /** In an accepted text no number stands where a host is set. */
  lemma HostsQuoted(g: Globals, w: seq<Lexeme>)
    requires NumbersAreDigits(w) && Meaning(g, w).Accepted?
    ensures forall i :: 0 <= i && i + 2 < |w| && w[i].rule == 1 ==> w[i + 2].rule != 3
  {
    BodyHostsQuoted(g, w[0].text, false, w[2..]);
    forall i | 0 <= i && i + 2 < |w| && w[i].rule == 1 ensures w[i + 2].rule != 3 {
      assert w[i] == w[2..][i - 2] && w[i + 2] == w[2..][i];
    }
  }

  lemma {:induction false} BodyHostsQuoted(g: Globals, prog: seq<byte>, some: bool, w: seq<Lexeme>)
    requires NumbersAreDigits(w) && Body(g, prog, some, w).Accepted?
    ensures forall i :: 0 <= i && i + 2 < |w| && w[i].rule == 1 ==> w[i + 2].rule != 3
    decreases |w|
  {
    hide Execute;
    if StartsStatement(w) {
      var n := StatementLength(w);
      Forms(w);
      BodyHostsQuoted(Execute(g, w), prog, true, w[n..]);
      forall i | 0 <= i && i + 2 < |w| && w[i].rule == 1 ensures w[i + 2].rule != 3 {
        if i >= n {
          assert w[i] == w[n..][i - n] && w[i + 2] == w[n..][i - n + 2];
        }
      }
    }
  }

  /** No text, accepted or not, leaves more than 79 bytes in a global that held no more. */
  lemma GlobalsFit(g: Globals, w: seq<Lexeme>)
    requires NumbersAreDigits(w)
    ensures var r := Meaning(g, w).globals;
            && (|g.program| <= 79 ==> |r.program| <= 79)
            && (|g.host| <= 79 ==> |r.host| <= 79)
            && (|g.port| <= 79 ==> |r.port| <= 79)
  {
    hide Meaning;
    MeaningLeaves(g, w);
  }
}
