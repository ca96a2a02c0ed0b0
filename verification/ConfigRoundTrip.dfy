/** Printing a configuration in the layout of chpater12/client-2.conf and reading it back with
    the scanner and the parser. */
module ConfigRoundTrip {
  import opened CStrings
  import opened Decimal
  import opened ScannerSpec
  import ScannerAutomaton
  import opened Scanner
  import opened ParserSpec
  import Parser

  // ---- Scanning printed pieces ----

  datatype Piece = Word(w: seq<byte>) | Blanks(w: seq<byte>) | Newline | Mark(b: byte)

  function Bytes(p: Piece): (t: seq<byte>) {
    match p
    case Word(w) => w
    case Blanks(w) => w
    case Newline => [LF]
    case Mark(b) => [b]
  }

  predicate Proper(p: Piece) {
    match p
    case Word(w) => w != [] && AllWord(w)
    case Blanks(w) => w != [] && AllBlank(w)
    case Newline => true
    case Mark(b) => b in {EQUAL, QUOTE, OPEN, CLOSE, SEMICOLON}
  }

  /** The rule a word is scanned by: keywords and numbers come before strings. */
  function WordRule(w: seq<byte>): (r: nat) {
    if w == HOSTNM then 1 else if w == PORTNM then 2 else if AllDigits(w) then 3 else 4
  }

  function MarkRule(b: byte): (r: nat) {
    if b == EQUAL then 5 else if b == QUOTE then 6 else if b == OPEN then 7 else if b == CLOSE then 8 else 9
  }

  function PieceRule(p: Piece): (r: nat) {
    match p
    case Word(w) => WordRule(w)
    case Blanks(_) => 11
    case Newline => 10
    case Mark(b) => MarkRule(b)
  }

  /** What follows does not run into the piece. */
  predicate Apart(p: Piece, rest: seq<byte>) {
    rest == [] || match p
                  case Word(_) => !IsWordByte(rest[0])
                  case Blanks(_) => !IsBlank(rest[0])
                  case _ => true
  }

  function PieceLexemes(p: Piece): (l: seq<Lexeme>) {
    match p
    case Word(w) => [Lexeme(WordRule(w), w)]
    case Mark(b) => [Lexeme(MarkRule(b), [b])]
    case _ => []
  }

  /** The whole piece matches its rule, no earlier rule does, and nothing longer is a lexeme. */
  lemma PieceIsToken(p: Piece, rest: seq<byte>)
    requires Proper(p) && Apart(p, rest)
    ensures IsToken(Bytes(p) + rest, |Bytes(p)|, PieceRule(p))
  {
    var t, n := Bytes(p) + rest, |Bytes(p)|;
    assert t[..n] == Bytes(p);
    assert t[0] == Bytes(p)[0];
    DigitsAreWords(Bytes(p));
    forall m: nat, r: nat | n < m <= |t| && r <= RULES ensures !ScannerSpec.Matches(r, t[..m]) {
      NothingLonger(p, rest, m, r);
    }
  }

  lemma DigitsAreWords(w: seq<byte>)
    ensures AllDigits(w) ==> AllWord(w)
    ensures AllWord(HOSTNM) && AllWord(PORTNM)
  {
  }

  lemma NothingLonger(p: Piece, rest: seq<byte>, m: nat, r: nat)
    requires Proper(p) && Apart(p, rest) && |Bytes(p)| < m <= |Bytes(p) + rest| && r <= RULES
    ensures !ScannerSpec.Matches(r, (Bytes(p) + rest)[..m])
  {
    var n := |Bytes(p)|;
    var u := (Bytes(p) + rest)[..m];
    assert u[0] == Bytes(p)[0] && u[n] == rest[0];
    DigitsAreWords(u);
    assert !IsWordByte(u[0]) || !IsWordByte(u[n]) ==> !AllWord(u);
    assert !IsBlank(u[0]) || !IsBlank(u[n]) ==> !AllBlank(u);
  }

  lemma PieceScans(p: Piece, rest: seq<byte>)
    requires Proper(p) && Apart(p, rest)
    ensures Lexemes(Bytes(p) + rest) == PieceLexemes(p) + Lexemes(rest)
  {
    var t := Bytes(p) + rest;
    PieceIsToken(p, rest);
    ScannerAutomaton.MunchIsToken(t);
    TokenUnique(t, |Bytes(p)|, PieceRule(p), ScannerAutomaton.Munch(t), ScannerAutomaton.Rule(t));
    assert t[..|Bytes(p)|] == Bytes(p) && t[|Bytes(p)|..] == rest;
    Parser.LexemesStep(t);
    Parser.LexemesStep(rest);
  }

  function Join(ps: seq<Piece>): (t: seq<byte>) {
    if ps == [] then [] else Bytes(ps[0]) + Join(ps[1..])
  }

  function Kept(ps: seq<Piece>): (l: seq<Lexeme>) {
    if ps == [] then [] else PieceLexemes(ps[0]) + Kept(ps[1..])
  }

  /** Proper pieces, none running into the next; the last is complete whatever follows. */
  predicate Printable(ps: seq<Piece>) {
    ps == [] || (
      && Proper(ps[0]) && Printable(ps[1..])
      && if |ps| == 1 then ps[0].Newline? || ps[0].Mark?
         else (ps[0].Word? ==> !ps[1].Word?) && (ps[0].Blanks? ==> !ps[1].Blanks?))
  }

  lemma NextByte(p: Piece, q: Piece, more: seq<byte>)
    requires Proper(p) && Proper(q)
    requires (p.Word? ==> !q.Word?) && (p.Blanks? ==> !q.Blanks?)
    ensures Apart(p, Bytes(q) + more)
  {
    assert (Bytes(q) + more)[0] == Bytes(q)[0];
  }

  lemma JoinUnrolled(ps: seq<Piece>, rest: seq<byte>)
    requires ps != []
    ensures Join(ps) + rest == Bytes(ps[0]) + (Join(ps[1..]) + rest)
  {
    BytesTogether(Bytes(ps[0]), Join(ps[1..]), rest);
  }

  lemma BytesTogether(a: seq<byte>, b: seq<byte>, c: seq<byte>)
    ensures (a + b) + c == a + (b + c)
  {
  }

  lemma KeptUnrolled(ps: seq<Piece>, l: seq<Lexeme>)
    requires ps != []
    ensures Kept(ps) + l == PieceLexemes(ps[0]) + (Kept(ps[1..]) + l)
  {
    LexemesTogether(PieceLexemes(ps[0]), Kept(ps[1..]), l);
  }

  lemma LexemesTogether(a: seq<Lexeme>, b: seq<Lexeme>, c: seq<Lexeme>)
    ensures (a + b) + c == a + (b + c)
  {
  }

  /** The first piece of a printable list is apart from what follows it. */
  lemma FirstApart(ps: seq<Piece>, rest: seq<byte>)
    requires Printable(ps) && ps != []
    ensures Proper(ps[0]) && Apart(ps[0], Join(ps[1..]) + rest) && Printable(ps[1..])
  {
    if |ps| > 1 {
      JoinUnrolled(ps[1..], rest);
      NextByte(ps[0], ps[1], Join(ps[2..]) + rest);
      assert ps[1..][1..] == ps[2..];
    }
  }

  /** Scanning is the inverse of printing. */
  lemma {:induction false} ScanJoin(ps: seq<Piece>, rest: seq<byte>)
    requires Printable(ps)
    ensures Lexemes(Join(ps) + rest) == Kept(ps) + Lexemes(rest)
    decreases |ps|
  {
    hide Lexemes, PieceLexemes, Printable, Apart;
    if ps == [] {
      assert Join(ps) + rest == rest;
    } else {
      FirstApart(ps, rest);
      ScanJoin(ps[1..], rest);
      PieceScans(ps[0], Join(ps[1..]) + rest);
      JoinUnrolled(ps, rest);
      KeptUnrolled(ps, Lexemes(rest));
    }
  }

  // ---- Configurations ----

  datatype Setting = Host(text: seq<byte>) | Port(n: int) | PortName(text: seq<byte>)

  const INDENT: Piece := Blanks([SPACE, SPACE, SPACE, SPACE])
  const GAP: Piece := Blanks([SPACE])

  function QuotedSetting(keyword: seq<byte>, text: seq<byte>): (ps: seq<Piece>) {
    [INDENT, Word(keyword), GAP, Mark(EQUAL), GAP, Mark(QUOTE), Word(text), Mark(QUOTE), Mark(SEMICOLON), Newline]
  }

  function SettingPieces(s: Setting): (ps: seq<Piece>) {
    match s
    case Host(text) => QuotedSetting(HOSTNM, text)
    case Port(n) => [INDENT, Word(PORTNM), GAP, Mark(EQUAL), GAP, Word(Decimal.Decimal(n)), Mark(SEMICOLON), Newline]
    case PortName(text) => QuotedSetting(PORTNM, text)
  }

  function PrintSettings(ss: seq<Setting>): (t: seq<byte>) {
    if ss == [] then [] else Join(SettingPieces(ss[0])) + PrintSettings(ss[1..])
  }

  /** The text of a configuration with any number of settings. */
  function Print(name: seq<byte>, ss: seq<Setting>): (t: seq<byte>) {
    Join([Word(name), Newline, Mark(OPEN), Newline]) + (PrintSettings(ss) + Join([Mark(CLOSE), Newline]))
  }

  predicate IsName(w: seq<byte>) {
    w != [] && AllWord(w)
  }

  predicate Spelled(s: Setting) {
    s.Port? || IsName(s.text)
  }

  /** A name that is neither a keyword nor a number. */
  predicate Plain(w: seq<byte>) {
    w != HOSTNM && w != PORTNM && !AllDigits(w)
  }

  predicate Good(s: Setting) {
    match s
    case Host(text) => Plain(text)
    case Port(n) => n >= 0
    case PortName(text) => Plain(text)
  }

  function SettingLexemes(s: Setting): (l: seq<Lexeme>) {
    match s
    case Host(text) => [Lexeme(1, HOSTNM), Lexeme(5, [EQUAL]), Lexeme(6, [QUOTE]), Lexeme(WordRule(text), text),
                        Lexeme(6, [QUOTE]), Lexeme(9, [SEMICOLON])]
    case Port(n) => [Lexeme(2, PORTNM), Lexeme(5, [EQUAL]), Lexeme(WordRule(Decimal.Decimal(n)), Decimal.Decimal(n)),
                     Lexeme(9, [SEMICOLON])]
    case PortName(text) => [Lexeme(2, PORTNM), Lexeme(5, [EQUAL]), Lexeme(6, [QUOTE]), Lexeme(WordRule(text), text),
                            Lexeme(6, [QUOTE]), Lexeme(9, [SEMICOLON])]
  }

  /** A number prints as a word, a number token exactly when it is not negative. */
  lemma DecimalWord(n: int)
    ensures IsName(Decimal.Decimal(n)) && WordRule(Decimal.Decimal(n)) == if n >= 0 then 3 else 4
  {
    DigitsAreWords(Digits(if n < 0 then -n else n));
    assert Decimal.Decimal(n)[0] < 58;
    assert HOSTNM[0] == 104 && PORTNM[0] == 112;
    assert n < 0 ==> !IsDigit(Decimal.Decimal(n)[0]);
  }

  /** One more piece in front of a printable list. */
  lemma Before(p: Piece, ps: seq<Piece>)
    requires Proper(p) && Printable(ps) && ps != []
    requires (p.Word? ==> !ps[0].Word?) && (p.Blanks? ==> !ps[0].Blanks?)
    ensures Printable([p] + ps) && Kept([p] + ps) == PieceLexemes(p) + Kept(ps)
  {
    assert ([p] + ps)[1..] == ps;
  }

  /** The end of a line: a semicolon. */
  lemma EndPrints()
    ensures var semi := [Mark(SEMICOLON), Newline]; Printable(semi) && Kept(semi) == [Lexeme(9, [SEMICOLON])]
  {
    var end := [Newline];
    assert Printable(end) && Kept(end) == [] by { assert end[1..] == []; }
    Before(Mark(SEMICOLON), end);
    assert [Mark(SEMICOLON)] + end == [Mark(SEMICOLON), Newline];
  }

  /** A word in front of it. */
  lemma PlainPrints(w: seq<byte>)
    requires IsName(w)
    ensures var plain := [GAP, Word(w), Mark(SEMICOLON), Newline];
            Printable(plain) && Kept(plain) == [Lexeme(WordRule(w), w), Lexeme(9, [SEMICOLON])]
  {
    EndPrints();
    hide Kept, Printable, WordRule, Proper;
    ProperPieces(w);
    var semi := [Mark(SEMICOLON), Newline];
    Before(Word(w), semi);
    Before(GAP, [Word(w)] + semi);
    assert [GAP] + ([Word(w)] + semi) == [GAP, Word(w), Mark(SEMICOLON), Newline];
  }

  /** A quoted word in front of it. */
  lemma QuotedPrints(w: seq<byte>)
    requires IsName(w)
    ensures var quoted := [GAP, Mark(QUOTE), Word(w), Mark(QUOTE), Mark(SEMICOLON), Newline];
            Printable(quoted)
            && Kept(quoted) == [Lexeme(6, [QUOTE]), Lexeme(WordRule(w), w), Lexeme(6, [QUOTE]), Lexeme(9, [SEMICOLON])]
  {
    EndPrints();
    hide Kept, Printable, WordRule, Proper;
    ProperPieces(w);
    var semi := [Mark(SEMICOLON), Newline];
    Before(Mark(QUOTE), semi);
    var l1 := [Mark(QUOTE)] + semi;
    Before(Word(w), l1);
    var l2 := [Word(w)] + l1;
    Before(Mark(QUOTE), l2);
    var l3 := [Mark(QUOTE)] + l2;
    Before(GAP, l3);
    assert [GAP] + l3 == [GAP, Mark(QUOTE), Word(w), Mark(QUOTE), Mark(SEMICOLON), Newline];
  }

  lemma ProperPieces(w: seq<byte>)
    requires IsName(w)
    ensures Proper(Word(w)) && Proper(GAP) && Proper(INDENT)
    ensures Proper(Mark(QUOTE)) && Proper(Mark(SEMICOLON)) && Proper(Mark(EQUAL))
  {
  }

  /** The start of a line: the keyword and an equals sign. */
  lemma KeywordPrints(k: seq<byte>, value: seq<Piece>)
    requires IsName(k) && Printable(value) && value != [] && value[0] == GAP
    ensures var line := [INDENT, Word(k), GAP, Mark(EQUAL)] + value;
            Printable(line) && Kept(line) == [Lexeme(WordRule(k), k), Lexeme(5, [EQUAL])] + Kept(value)
  {
    hide Kept, Printable, WordRule;
    var l1 := [Mark(EQUAL)] + value;
    var l2 := [GAP] + l1;
    var l3 := [Word(k)] + l2;
    Before(Mark(EQUAL), value);
    Before(GAP, l1);
    Before(Word(k), l2);
    Before(INDENT, l3);
    assert [INDENT] + l3 == [INDENT, Word(k), GAP, Mark(EQUAL)] + value;
  }

  lemma SettingPrints(s: Setting)
    requires Spelled(s)
    ensures Printable(SettingPieces(s)) && Kept(SettingPieces(s)) == SettingLexemes(s)
  {
    hide Kept, Printable, WordRule, AllWord, Digits, Decimal.Decimal;
    DecimalWord(if s.Port? then s.n else 0);
    DigitsAreWords([]);
    var w := if s.Port? then Decimal.Decimal(s.n) else s.text;
    PlainPrints(w);
    QuotedPrints(w);
    KeywordRules();
    var k := if s.Host? then HOSTNM else PORTNM;
    var value := if s.Port? then [GAP, Word(w), Mark(SEMICOLON), Newline]
                 else [GAP, Mark(QUOTE), Word(w), Mark(QUOTE), Mark(SEMICOLON), Newline];
    KeywordPrints(k, value);
    assert SettingPieces(s) == [INDENT, Word(k), GAP, Mark(EQUAL)] + value;
    assert SettingLexemes(s) == [Lexeme(WordRule(k), k), Lexeme(5, [EQUAL])] + Kept(value);
  }

  lemma KeywordRules()
    ensures WordRule(HOSTNM) == 1 && WordRule(PORTNM) == 2
  {
    assert HOSTNM[0] != PORTNM[0];
  }

  function AllLexemes(ss: seq<Setting>): (l: seq<Lexeme>) {
    if ss == [] then [] else SettingLexemes(ss[0]) + AllLexemes(ss[1..])
  }

  lemma {:induction false} SettingsScan(ss: seq<Setting>, rest: seq<byte>)
    requires forall s :: s in ss ==> Spelled(s)
    ensures Lexemes(PrintSettings(ss) + rest) == AllLexemes(ss) + Lexemes(rest)
    decreases |ss|
  {
    if ss == [] {
      assert PrintSettings(ss) + rest == rest;
    } else {
      hide Lexemes, Kept, Join, SettingPieces, SettingLexemes, Printable, Spelled, PrintSettings, AllLexemes;
      var more := PrintSettings(ss[1..]) + rest;
      SettingsScan(ss[1..], rest);
      SettingPrints(ss[0]);
      ScanJoin(SettingPieces(ss[0]), more);
      UnrolledSettings(ss, rest, Lexemes(rest));
    }
  }

  lemma UnrolledSettings(ss: seq<Setting>, rest: seq<byte>, l: seq<Lexeme>)
    requires ss != []
    ensures PrintSettings(ss) + rest == Join(SettingPieces(ss[0])) + (PrintSettings(ss[1..]) + rest)
    ensures AllLexemes(ss) + l == SettingLexemes(ss[0]) + (AllLexemes(ss[1..]) + l)
  {
    BytesTogether(Join(SettingPieces(ss[0])), PrintSettings(ss[1..]), rest);
    LexemesTogether(SettingLexemes(ss[0]), AllLexemes(ss[1..]), l);
    hide Join, SettingPieces, SettingLexemes;
  }

  /** The lexemes of a printed configuration. */
  lemma PrintScans(name: seq<byte>, ss: seq<Setting>)
    requires IsName(name) && forall s :: s in ss ==> Spelled(s)
    ensures Lexemes(Print(name, ss))
         == [Lexeme(WordRule(name), name), Lexeme(7, [OPEN])] + (AllLexemes(ss) + [Lexeme(8, [CLOSE])])
  {
    hide Lexemes, Kept, Join, Printable, WordRule, PrintSettings, AllLexemes;
    var close, head := [Mark(CLOSE), Newline], [Word(name), Newline, Mark(OPEN), Newline];
    FramePrints(name);
    ScanJoin(close, []);
    assert Join(close) + [] == Join(close);
    Parser.LexemesStep([]);
    SettingsScan(ss, Join(close));
    ScanJoin(head, PrintSettings(ss) + Join(close));
  }

  lemma FramePrints(name: seq<byte>)
    requires IsName(name)
    ensures var close := [Mark(CLOSE), Newline]; Printable(close) && Kept(close) == [Lexeme(8, [CLOSE])]
    ensures var head := [Word(name), Newline, Mark(OPEN), Newline];
            Printable(head) && Kept(head) == [Lexeme(WordRule(name), name), Lexeme(7, [OPEN])]
  {
    var end := [Newline];
    assert Printable(end) && Kept(end) == [] by { assert end[1..] == []; }
    hide Kept, Printable, WordRule;
    Before(Mark(CLOSE), end);
    assert [Mark(CLOSE)] + end == [Mark(CLOSE), Newline];
    Before(Mark(OPEN), end);
    var l1 := [Mark(OPEN)] + end;
    Before(Newline, l1);
    var l2 := [Newline] + l1;
    Before(Word(name), l2);
    assert [Word(name)] + l2 == [Word(name), Newline, Mark(OPEN), Newline];
  }

  // ---- What is read back ----

  function Applied(g: Globals, s: Setting): (r: Globals) {
    match s
    case Host(text) => g.(host := Clip(text))
    case Port(n) => g.(port := Clip(Decimal.Decimal(n)))
    case PortName(text) => g.(port := Clip(text))
  }

  /** The value of the last host setting, or `d` when there is none. */
  function LastHost(d: seq<byte>, ss: seq<Setting>): (h: seq<byte>) {
    if ss == [] then d
    else if ss[|ss| - 1].Host? then Clip(ss[|ss| - 1].text)
    else LastHost(d, ss[..|ss| - 1])
  }

  function LastPort(d: seq<byte>, ss: seq<Setting>): (p: seq<byte>) {
    if ss == [] then d
    else match ss[|ss| - 1]
         case Port(n) => Clip(Decimal.Decimal(n))
         case PortName(text) => Clip(text)
         case Host(_) => LastPort(d, ss[..|ss| - 1])
  }

  /** The first setting only matters where no later one replaces it. */
  lemma {:induction false} FirstSetting(g: Globals, s: Setting, ss: seq<Setting>)
    ensures LastHost(g.host, [s] + ss) == LastHost(Applied(g, s).host, ss)
    ensures LastPort(g.port, [s] + ss) == LastPort(Applied(g, s).port, ss)
    decreases |ss|
  {
    hide Clip, Decimal.Decimal;
    var t := [s] + ss;
    if ss == [] {
      assert t[..0] == [] && LastHost(g.host, t[..0]) == g.host && LastPort(g.port, t[..0]) == g.port;
    } else {
      assert t[..|t| - 1] == [s] + ss[..|ss| - 1] && t[|t| - 1] == ss[|ss| - 1];
      FirstSetting(g, s, ss[..|ss| - 1]);
    }
  }

  /** A printed setting is one statement when its value is well chosen, and none otherwise. */
  lemma SettingBody(g: Globals, prog: seq<byte>, some: bool, s: Setting, w: seq<Lexeme>)
    requires Spelled(s) && NumbersAreDigits(w)
    ensures NumbersAreDigits(SettingLexemes(s) + w)
    ensures Body(g, prog, some, SettingLexemes(s) + w)
         == if Good(s) then Body(Applied(g, s), prog, true, w) else Rejected(g)
  {
    var l := SettingLexemes(s);
    var v := l + w;
    DecimalWord(if s.Port? then s.n else 0);
    Forms(v);
    assert forall i :: 0 <= i < |l| ==> v[i] == l[i];
    assert v[|l|..] == w;
    if s.Port? && s.n >= 0 {
      DecimalValue(s.n);
    }
  }

  lemma DecimalValue(n: nat)
    ensures AllDigits(Decimal.Decimal(n)) && Value(Decimal.Decimal(n)) == n
  {
    ValueOfDigits(n);
  }

  predicate AllGood(ss: seq<Setting>) {
    forall s :: s in ss ==> Good(s)
  }

  /** The settings in front of the first ill-chosen one. */
  function GoodFront(ss: seq<Setting>): (front: seq<Setting>)
    ensures front <= ss && AllGood(front) && (AllGood(ss) <==> front == ss)
    ensures front == ss || !Good(ss[|front|])
  {
    if ss == [] || !Good(ss[0]) then [] else [ss[0]] + GoodFront(ss[1..])
  }

  /** The globals when settings have been carried out. */
  function AllApplied(g: Globals, ss: seq<Setting>): (r: Globals) {
    g.(host := LastHost(g.host, ss), port := LastPort(g.port, ss))
  }

  /** Settings are carried out one after the other, up to the first ill-chosen value. */
  lemma {:induction false} SettingsBody(g: Globals, prog: seq<byte>, some: bool, ss: seq<Setting>, w: seq<Lexeme>)
    requires (forall s :: s in ss ==> Spelled(s)) && NumbersAreDigits(w)
    ensures NumbersAreDigits(AllLexemes(ss) + w)
    ensures AllGood(ss) ==>
              Body(g, prog, some, AllLexemes(ss) + w)
              == Body(AllApplied(g, ss), prog, some || ss != [], w)
    ensures !AllGood(ss) ==>
              Body(g, prog, some, AllLexemes(ss) + w) == Rejected(AllApplied(g, GoodFront(ss)))
    decreases |ss|
  {
    hide Body, SettingLexemes, NumbersAreDigits, Applied, Good, Spelled, AllApplied, AllLexemes;
    NoSettings(g, w);
    if ss != [] {
      SettingsBody(Applied(g, ss[0]), prog, true, ss[1..], w);
      var more := AllLexemes(ss[1..]) + w;
      SettingBody(g, prog, some, ss[0], more);
      UnrolledSettings(ss, [], w);
      assert ss == [ss[0]] + ss[1..];
      AppliedFirst(g, ss[0], ss[1..]);
      AppliedFirst(g, ss[0], GoodFront(ss[1..]));
    }
  }

  lemma NoSettings(g: Globals, w: seq<Lexeme>)
    ensures AllLexemes([]) + w == w && AllApplied(g, []) == g
  {
  }

  lemma AppliedFirst(g: Globals, s: Setting, ss: seq<Setting>)
    ensures AllApplied(Applied(g, s), ss) == AllApplied(g, [s] + ss)
  {
    FirstSetting(g, s, ss);
  }

  lemma ClosingBody(g: Globals, prog: seq<byte>, some: bool)
    ensures NumbersAreDigits([Lexeme(8, [CLOSE])])
    ensures Body(g, prog, some, [Lexeme(8, [CLOSE])])
         == if some then Accepted(g.(program := Clip(prog))) else Rejected(g)
  {
  }

  /** The first two lexemes of a configuration. */
  lemma HeaderMeaning(g: Globals, name: seq<byte>, w: seq<Lexeme>)
    requires IsName(name) && NumbersAreDigits(w)
    ensures var v := [Lexeme(WordRule(name), name), Lexeme(7, [OPEN])] + w;
            && NumbersAreDigits(v)
            && Meaning(g, v) == if Plain(name) then Body(g, name, false, w) else Rejected(g)
  {
    var v := [Lexeme(WordRule(name), name), Lexeme(7, [OPEN])] + w;
    assert v[2..] == w;
  }

  /** A printed configuration is accepted exactly when it has a setting and every name is
      neither a keyword nor all digits, and no port is negative. The globals then hold the
      program name and the last value of each kind, each cut to 79 bytes. Otherwise they hold
      the last values in front of the first ill-chosen one, if the name is well chosen. */
  lemma PrintedConfigReadsBack(g: Globals, name: seq<byte>, ss: seq<Setting>)
    requires IsName(name) && forall s :: s in ss ==> Spelled(s)
    ensures var r, done := Parser.MeaningOf(g, Print(name, ss)), if Plain(name) then GoodFront(ss) else [];
            && (r.Accepted? <==> ss != [] && Plain(name) && AllGood(ss))
            && r.globals == Globals(if r.Accepted? then Clip(name) else g.program,
                                    LastHost(g.host, done), LastPort(g.port, done))
  {
    hide Lexemes, Body, AllLexemes, Print, LastHost, LastPort, AllGood, Plain, WordRule, Clip;
    var close := [Lexeme(8, [CLOSE])];
    PrintScans(name, ss);
    ClosingBody(AllApplied(g, ss), name, ss != []);
    SettingsBody(g, name, false, ss, close);
    HeaderMeaning(g, name, AllLexemes(ss) + close);
    NoSettings(g, []);
  }

  /** A text as it comes back from an array of 80 bytes. */
  function Cut79(s: seq<byte>): (r: seq<byte>) {
    if |s| <= 79 then s else s[..79]
  }

  /** The layout of client-2.conf: one host, one numeric port. Ports in the range of a C int come
      back exactly, names up to their first 79 characters. A negative port is a word to the
      scanner: the text is rejected, and its host stays behind in the globals. */
  lemma ConfigRoundTrip(g: Globals, name: seq<byte>, host: seq<byte>, port: int)
    requires IsName(name) && IsName(host) && -INT_MAX - 1 <= port <= INT_MAX
    ensures var r := Parser.MeaningOf(g, Print(name, [Host(host), Port(port)]));
            && (r.Accepted? <==> Plain(name) && Plain(host) && port >= 0)
            && (r.Accepted? ==> r.globals == Globals(Cut79(name), Cut79(host), Decimal.Decimal(port))
                                && AllDigits(r.globals.port) && Value(r.globals.port) == port)
            && (Plain(name) && Plain(host) && port < 0 ==> r == Rejected(g.(host := Cut79(host))))
  {
    hide Parser.MeaningOf, Print, Plain, AllDigits, Value, Decimal.Decimal, LastHost, LastPort, GoodFront, Clip, Cut79;
    var ss := [Host(host), Port(port)];
    PrintedConfigReadsBack(g, name, ss);
    TwoSettings(g, host, port);
    Clipped(name);
    if port >= 0 {
      DecimalValue(port);
    }
  }

  lemma Clipped(s: seq<byte>)
    ensures Clip(s) == Cut79(s)
  {
  }

  /** What is carried out of one host and one numeric port. */
  lemma TwoSettings(g: Globals, host: seq<byte>, port: int)
    requires IsName(host) && -INT_MAX - 1 <= port <= INT_MAX
    ensures var ss := [Host(host), Port(port)];
            && (AllGood(ss) <==> Plain(host) && port >= 0)
            && (AllGood(ss) ==> GoodFront(ss) == ss)
            && LastHost(g.host, ss) == Cut79(host) && LastPort(g.port, ss) == Decimal.Decimal(port)
            && (Plain(host) && port < 0 ==> GoodFront(ss) == [Host(host)])
    ensures LastHost(g.host, [Host(host)]) == Cut79(host) && LastPort(g.port, [Host(host)]) == g.port
  {
    hide Decimal.Decimal, Plain;
    var ss := [Host(host), Port(port)];
    assert ss[0] == Host(host) && ss[1] == Port(port) && ss[..1] == [Host(host)] && [Host(host)][..0] == [];
    IntLength(port);
    Clipped(host);
    assert AllGood(ss) <==> Good(ss[0]) && Good(ss[1]);
    if Plain(host) && port < 0 {
      assert ss[1..] == [ss[1]] && GoodFront([ss[1]]) == [];
      assert GoodFront(ss) == [ss[0]] + GoodFront(ss[1..]);
    }
  }
}
