/** The compressed tables of chpater12/lex.yy.c and the walk through them: the default chain,
    the meta classes, and the transition function they encode. */
module ScannerTables {
  import opened CStrings

  /** The rule accepted in a state, 0 for none, 13 at the end-of-buffer character. */
  function YyAccept(i: nat): (v: nat)
    requires i < 30
  {
    match i
    case 0 => 0 case 1 => 0 case 2 => 0 case 3 => 13 case 4 => 12
    case 5 => 11 case 6 => 10 case 7 => 6 case 8 => 4 case 9 => 3
    case 10 => 9 case 11 => 5 case 12 => 4 case 13 => 4 case 14 => 7
    case 15 => 8 case 16 => 11 case 17 => 4 case 18 => 3 case 19 => 4
    case 20 => 4 case 21 => 4 case 22 => 4 case 23 => 4 case 24 => 4
    case 25 => 4 case 26 => 4 case 27 => 1 case 28 => 2
    case _ => 0
  }

  /** yy_meta */
  function YyMeta(i: nat): (v: nat)
    requires i < 19
  {
    match i
    case 0 => 0 case 1 => 1 case 2 => 1 case 3 => 1 case 4 => 1
    case 5 => 2 case 6 => 2 case 7 => 1 case 8 => 1 case 9 => 2
    case 10 => 2 case 11 => 2 case 12 => 2 case 13 => 2 case 14 => 2
    case 15 => 2 case 16 => 2
    case _ => 1
  }

  /** yy_base */
  function YyBase(i: nat): (v: nat)
    requires i < 31
  {
    match i
    case 0 => 0 case 1 => 0 case 2 => 0 case 3 => 34 case 4 => 35
    case 5 => 31 case 6 => 35 case 7 => 35 case 8 => 0 case 9 => 26
    case 10 => 35 case 11 => 35 case 12 => 19 case 13 => 18 case 14 => 35
    case 15 => 35 case 16 => 27 case 17 => 0 case 18 => 22 case 19 => 12
    case 20 => 12 case 21 => 9 case 22 => 8 case 23 => 12 case 24 => 11
    case 25 => 11 case 26 => 10 case 27 => 0 case 28 => 0 case 29 => 35
    case _ => 17
  }

  /** yy_def */
  function YyDef(i: nat): (v: nat)
    requires i < 31
  {
    match i
    case 0 => 0 case 1 => 29 case 2 => 1 case 3 => 29 case 4 => 29
    case 5 => 29 case 6 => 29 case 7 => 29 case 8 => 30 case 9 => 30
    case 10 => 29 case 11 => 29 case 12 => 30 case 13 => 30 case 14 => 29
    case 15 => 29 case 16 => 29 case 17 => 30 case 18 => 30 case 19 => 30
    case 20 => 30 case 21 => 30 case 22 => 30 case 23 => 30 case 24 => 30
    case 25 => 30 case 26 => 30 case 27 => 30 case 28 => 30 case 29 => 0
    case _ => 29
  }

  /** yy_nxt */
  function YyNxt(i: nat): (v: nat)
    requires i < 54
  {
    match i
    case 0 => 0 case 1 => 4 case 2 => 5 case 3 => 6 case 4 => 7
    case 5 => 8 case 6 => 9 case 7 => 10 case 8 => 11 case 9 => 12
    case 10 => 8 case 11 => 8 case 12 => 8 case 13 => 13 case 14 => 8
    case 15 => 8 case 16 => 8 case 17 => 14 case 18 => 15 case 19 => 17
    case 20 => 28 case 21 => 27 case 22 => 26 case 23 => 25 case 24 => 24
    case 25 => 23 case 26 => 22 case 27 => 21 case 28 => 18 case 29 => 16
    case 30 => 20 case 31 => 19 case 32 => 18 case 33 => 16 case 34 => 29
    case 35 => 3
    case _ => 29
  }

  /** yy_chk */
  function YyChk(i: nat): (v: nat)
    requires i < 54
  {
    match i
    case 0 => 0 case 1 => 1 case 2 => 1 case 3 => 1 case 4 => 1
    case 5 => 1 case 6 => 1 case 7 => 1 case 8 => 1 case 9 => 1
    case 10 => 1 case 11 => 1 case 12 => 1 case 13 => 1 case 14 => 1
    case 15 => 1 case 16 => 1 case 17 => 1 case 18 => 1 case 19 => 30
    case 20 => 26 case 21 => 25 case 22 => 24 case 23 => 23 case 24 => 22
    case 25 => 21 case 26 => 20 case 27 => 19 case 28 => 18 case 29 => 16
    case 30 => 13 case 31 => 12 case 32 => 9 case 33 => 5 case 34 => 3
    case _ => 29
  }

  /** yy_ec: the class of each byte. */
  function YyEc(b: byte): (c: nat)
    ensures c <= LAST_CLASS
  {
    if b == 0 then 0
    else if b == 9 || b == 32 then 2
    else if b == 10 then 3
    else if b == 34 then 4
    else if 45 <= b <= 47 then 5
    else if 48 <= b <= 57 then 6
    else if b == 59 then 7
    else if b == 61 then 8
    else if 65 <= b <= 90 then 5
    else if b == 104 then 9
    else if 109 <= b <= 112 then b - 99
    else if b == 114 then 14
    else if b == 115 then 15
    else if b == 116 then 16
    else if 97 <= b <= 122 then 5
    else if b == 123 then 17
    else if b == 125 then 18
    else 1
  }

  const JAM: nat := 29
  const JAM_BASE: nat := 35
  const END_OF_BUFFER: nat := 13
  const LAST_CLASS: nat := 18

  /** The states the scanner can be in, and the template state of the default chain. State 2
      belongs to a start condition this scanner never enters. */
  predicate IsState(s: nat) {
    s == 1 || 3 <= s <= 30
  }

  /** Position on the default chain, which ends in the jam state. */
  function ChainRank(s: nat): (n: nat) {
    if s == JAM then 0 else if s == 30 then 1 else 2
  }

  lemma ChainBounds(s: nat, c: nat)
    requires IsState(s) && c <= LAST_CLASS
    ensures YyBase(s) <= JAM_BASE && YyMeta(c) <= LAST_CLASS
    ensures s != JAM ==> IsState(YyDef(s)) && ChainRank(YyDef(s)) < ChainRank(s)
  {
  }

  /** In the jam state every class finds its own entry. */
  lemma JamEntries(c: nat)
    requires c <= LAST_CLASS
    ensures YyBase(JAM) == JAM_BASE && YyChk(JAM_BASE + c) == JAM
  {
  }

  /** The inner loop of the scanner: follow the default chain until the entry is the state's own. */
  method Transition(s: nat, c: nat) returns (t: nat)
    requires IsState(s) && c <= LAST_CLASS
    ensures t == Walk(s, c)
  {
    var state: nat, yyc: nat := s, c;
    ChainBounds(state, yyc);
    while YyChk(YyBase(state) + yyc) != state
      invariant IsState(state) && yyc <= LAST_CLASS
      invariant YyBase(state) <= JAM_BASE
      invariant Walk(state, yyc) == Walk(s, c)
      decreases ChainRank(state)
    {
      ChainBounds(state, yyc);
      if state == JAM { JamEntries(yyc); }
      state := YyDef(state);
      if state >= 30 {
        yyc := YyMeta(yyc);
      }
      ChainBounds(state, yyc);
    }
    t := YyNxt(YyBase(state) + yyc);
  }

  /** What the tables mean: the state reached from `s` on a character of class `c`. */
  function Walk(s: nat, c: nat): (t: nat)
    requires IsState(s) && c <= LAST_CLASS
    decreases ChainRank(s)
  {
    ChainBounds(s, c);
    JamEntries(c);
    if YyChk(YyBase(s) + c) == s then YyNxt(YyBase(s) + c)
    else Walk(YyDef(s), if YyDef(s) >= 30 then YyMeta(c) else c)
  }

  predicate IsWordClass(c: nat) {
    c == 5 || c == 6 || 9 <= c <= 16
  }

  predicate IsWordState(s: nat) {
    s == 8 || s == 9 || s == 12 || s == 13 || 17 <= s <= 28
  }

  /** The same automaton written out. Class 0 is the end-of-buffer character, 1 any character
      without a rule of its own, 2 blank, 3 newline, 4 quote, 6 digit, 7 semicolon, 8 equals,
      17 and 18 braces; the word classes single out h, m, n, o, p, r, s, t. */
  function Delta(s: nat, c: nat): (t: nat)
    ensures t <= JAM
  {
    if s == 3 then JAM
    else if c == 0 then 3
    else if s == 1 then
      if c <= 8 then c + 3
      else if c == 9 then 12
      else if c == 13 then 13
      else if c == 17 then 14
      else if c == 18 then 15
      else 8
    else if s == 5 || s == 16 then if c == 2 then 16 else JAM
    else if IsWordState(s) && IsWordClass(c) then
      if (s == 9 || s == 18) && c == 6 then 18
      else if s == 12 && c == 12 then 19
      else if s == 13 && c == 12 then 20
      else if s == 19 && c == 15 then 21
      else if s == 20 && c == 14 then 22
      else if s == 21 && c == 16 then 23
      else if s == 22 && c == 16 then 24
      else if s == 23 && c == 11 then 25
      else if s == 24 && c == 11 then 26
      else if s == 25 && c == 10 then 27
      else if s == 26 && c == 10 then 28
      else 17
    else JAM
  }

  lemma WalkFromJam(c: nat)
    requires c <= LAST_CLASS
    ensures Walk(JAM, c) == if c == 0 then 3 else JAM
  {
    JamEntries(c);
  }

  lemma WalkFromTemplate(c: nat)
    requires c <= 2
    ensures Walk(30, c) == if c == 0 then 3 else if c == 2 then 17 else JAM
  {
    WalkFromJam(c);
    ChainBounds(30, c);
    assert YyBase(30) == 17 && YyDef(30) == JAM;
    assert YyChk(17) == 1 && YyChk(18) == 1 && YyChk(19) == 30 && YyNxt(19) == 17;
  }

  /** Looking up the template with the meta class: every word state without an own entry. */
  lemma WalkByDefault(s: nat, c: nat)
    requires IsWordState(s) && c <= LAST_CLASS
    ensures YyBase(s) <= JAM_BASE
    ensures YyChk(YyBase(s) + c) != s ==>
              Walk(s, c) == if c == 0 then 3 else if IsWordClass(c) then 17 else JAM
  {
    ChainBounds(s, c);
    assert YyDef(s) == 30;
    assert YyMeta(c) == if c == 0 then 0 else if IsWordClass(c) then 2 else 1;
    WalkFromTemplate(YyMeta(c));
  }

  /** Word states that have no entry of their own. */
  lemma WalkFromPlainWord(s: nat, c: nat)
    requires s in {8, 17, 27, 28} && c <= LAST_CLASS
    ensures Walk(s, c) == Delta(s, c)
  {
    WalkByDefault(s, c);
    assert YyBase(s) == 0;
    assert YyChk(c) == if c == 0 then 0 else 1;
  }

  /** Word states with one entry: digit runs and the prefixes of the two keywords. */
  lemma WalkFromDigits(s: nat, c: nat)
    requires s in {9, 18} && c <= LAST_CLASS
    ensures Walk(s, c) == Delta(s, c)
  {
    WalkByDefault(s, c);
    assert YyBase(s) == if s == 9 then 26 else 22;
  }

  lemma WalkFromFirstLetter(s: nat, c: nat)
    requires s in {12, 13} && c <= LAST_CLASS
    ensures Walk(s, c) == Delta(s, c)
  {
    WalkByDefault(s, c);
    assert YyBase(s) == if s == 12 then 19 else 18;
  }

  lemma WalkFromLowPrefix(s: nat, c: nat)
    requires 19 <= s <= 22 && c <= LAST_CLASS
    ensures Walk(s, c) == Delta(s, c)
  {
    WalkByDefault(s, c);
    assert YyBase(s) == if s <= 20 then 12 else if s == 21 then 9 else 8;
  }

  lemma WalkFromHighPrefix(s: nat, c: nat)
    requires s in {23, 24} && c <= LAST_CLASS
    ensures Walk(s, c) == Delta(s, c)
  {
    WalkByDefault(s, c);
    assert YyBase(s) == if s == 23 then 12 else 11;
  }

  lemma WalkFromLastPrefix(s: nat, c: nat)
    requires s in {25, 26} && c <= LAST_CLASS
    ensures Walk(s, c) == Delta(s, c)
  {
    WalkByDefault(s, c);
    assert YyBase(s) == if s == 25 then 11 else 10;
  }

  lemma WalkFromBlank(s: nat, c: nat)
    requires s in {5, 16} && c <= LAST_CLASS
    ensures Walk(s, c) == Delta(s, c)
  {
    ChainBounds(s, c);
    assert YyDef(s) == JAM && YyBase(s) == if s == 5 then 31 else 27;
    WalkFromJam(c);
  }

  /** States that only the end-of-buffer character leaves, and the jam state. */
  lemma WalkFromFinal(s: nat, c: nat)
    requires s in {4, 6, 7, 10, 11, 14, 15, JAM} && c <= LAST_CLASS
    ensures Walk(s, c) == Delta(s, c)
  {
    ChainBounds(s, c);
    JamEntries(c);
    WalkFromJam(c);
    assert YyBase(s) == JAM_BASE;
    if s != JAM {
      assert YyDef(s) == JAM;
      assert Walk(s, c) == Walk(JAM, c);
    }
  }

  /** After one end-of-buffer character everything jams. */
  lemma WalkFromEndOfBuffer(c: nat)
    requires c <= LAST_CLASS
    ensures Walk(3, c) == JAM
  {
    ChainBounds(3, c);
    WalkFromJam(c);
    if c > 0 { JamEntries(c - 1); }
  }

  lemma WalkFromStart(c: nat)
    requires c <= LAST_CLASS
    ensures Walk(1, c) == Delta(1, c)
  {
    ChainBounds(1, c);
    WalkFromJam(c);
  }

  /** The packed tables implement the automaton, every state and every class. */
  lemma WalkIsDelta(s: nat, c: nat)
    requires IsState(s) && s < 30 && c <= LAST_CLASS
    ensures Walk(s, c) == Delta(s, c)
  {
    if s == 1 {
      WalkFromStart(c);
    } else if s in {8, 17, 27, 28} {
      WalkFromPlainWord(s, c);
    } else if s in {9, 18} {
      WalkFromDigits(s, c);
    } else if s in {12, 13} {
      WalkFromFirstLetter(s, c);
    } else if 19 <= s <= 22 {
      WalkFromLowPrefix(s, c);
    } else if s in {23, 24} {
      WalkFromHighPrefix(s, c);
    } else if s in {25, 26} {
      WalkFromLastPrefix(s, c);
    } else if s in {5, 16} {
      WalkFromBlank(s, c);
    } else if s == 3 {
      WalkFromEndOfBuffer(c);
    } else {
      WalkFromFinal(s, c);
    }
  }
}
