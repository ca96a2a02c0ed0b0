/** What each state of the scanner means, and why the longest live prefix is the token that
    lexer.l asks for. */
module ScannerAutomaton {
  import opened CStrings
  import opened Decimal
  import opened ScannerSpec
  import opened ScannerTables

  /** The class under which a text byte is read; a real NUL counts as an ordinary character. */
  function Class(b: byte): (c: nat)
    ensures 1 <= c <= LAST_CLASS
  {
    if b == NUL then 1 else YyEc(b)
  }

  /** State after a proper-length prefix of "hostnm", and of "portnm". */
  function HostState(n: nat): (s: nat)
    requires 1 <= n <= 6
  {
    if n == 1 then 12 else 15 + 2 * n
  }

  function PortState(n: nat): (s: nat)
    requires 1 <= n <= 6
  {
    if n == 1 then 13 else 16 + 2 * n
  }

  /** The state the automaton is in after reading `w`, said without running it. */
  function Shape(w: seq<byte>): (s: nat)
    ensures s == 1 || 4 <= s <= JAM
    ensures s == 1 <==> w == []
  {
    if w == [] then 1
    else if w <= HOSTNM then HostState(|w|)
    else if w <= PORTNM then PortState(|w|)
    else if AllDigits(w) then if |w| == 1 then 9 else 18
    else if AllWord(w) then if |w| == 1 then 8 else 17
    else if AllBlank(w) then if |w| == 1 then 5 else 16
    else if |w| == 1 then Single(w[0])
    else JAM
  }

  /** The state of a one-character token that cannot grow. */
  function Single(b: byte): (s: nat)
    ensures s in {4, 6, 7, 10, 11, 14, 15}
  {
    if b == LF then 6
    else if b == QUOTE then 7
    else if b == SEMICOLON then 10
    else if b == EQUAL then 11
    else if b == OPEN then 14
    else if b == CLOSE then 15
    else 4
  }

  lemma FirstStep(b: byte)
    ensures Shape([b]) == Delta(1, Class(b))
  {
    assert HOSTNM[0] == 104 && PORTNM[0] == 112;
    assert [b] <= HOSTNM <==> [b][0] == HOSTNM[0];
    assert [b] <= PORTNM <==> [b][0] == PORTNM[0];
    assert AllDigits([b]) <==> IsDigit(b);
    assert AllWord([b]) <==> IsWordByte(b);
    assert AllBlank([b]) <==> IsBlank(b);
  }

  lemma SnocFacts(w: seq<byte>, b: byte)
    ensures AllDigits(w + [b]) <==> AllDigits(w) && IsDigit(b)
    ensures AllWord(w + [b]) <==> AllWord(w) && IsWordByte(b)
    ensures AllBlank(w + [b]) <==> AllBlank(w) && IsBlank(b)
    ensures w + [b] <= HOSTNM <==> |w| < 6 && w <= HOSTNM && b == HOSTNM[|w|]
    ensures w + [b] <= PORTNM <==> |w| < 6 && w <= PORTNM && b == PORTNM[|w|]
  {
    var v := w + [b];
    assert v[..|w|] == w && v[|w|] == b;
    assert forall k :: 0 <= k < |w| ==> v[k] == w[k];
  }

  lemma KeywordsAreWords(w: seq<byte>)
    requires w != [] && (w <= HOSTNM || w <= PORTNM)
    ensures AllWord(w) && !AllDigits(w) && !AllBlank(w) && |w| <= 6
    ensures !(w <= HOSTNM && w <= PORTNM)
  {
    assert w[0] == 104 || w[0] == 112;
  }

  /** Reading one more byte of a keyword prefix. */
  lemma KeywordStep(w: seq<byte>, b: byte)
    requires w != [] && (w <= HOSTNM || w <= PORTNM)
    ensures Shape(w + [b]) == Delta(Shape(w), Class(b))
  {
    SnocFacts(w, b);
    KeywordsAreWords(w);
    var n := |w|;
    assert HOSTNM[1] == 111 && HOSTNM[2] == 115 && HOSTNM[3] == 116 && HOSTNM[4] == 110 && HOSTNM[5] == 109;
    assert PORTNM[1] == 111 && PORTNM[2] == 114 && PORTNM[3] == 116 && PORTNM[4] == 110 && PORTNM[5] == 109;
    assert IsWordClass(Class(b)) <==> IsWordByte(b);
    assert Class(b) == 12 <==> b == 111;
    assert Class(b) == 15 <==> b == 115;
    assert Class(b) == 14 <==> b == 114;
    assert Class(b) == 16 <==> b == 116;
    assert Class(b) == 11 <==> b == 110;
    assert Class(b) == 10 <==> b == 109;
  }

  /** The automaton and the description of its states agree on every extension. */
  lemma ShapeStep(w: seq<byte>, b: byte)
    ensures Shape(w + [b]) == Delta(Shape(w), Class(b))
  {
    if w == [] {
      assert w + [b] == [b];
      FirstStep(b);
    } else if w <= HOSTNM || w <= PORTNM {
      KeywordStep(w, b);
    } else {
      SnocFacts(w, b);
      assert AllDigits(w) ==> IsDigit(w[0]) && AllWord(w);
      assert AllWord(w) ==> IsWordByte(w[0]);
      assert AllBlank(w) ==> IsBlank(w[0]);
      assert IsWordClass(Class(b)) <==> IsWordByte(b);
      assert Class(b) == 6 <==> IsDigit(b);
      assert Class(b) == 2 <==> IsBlank(b);
    }
  }

  /** Once jammed, a text stays jammed. */
  lemma {:induction false} JamStays(w: seq<byte>, n: nat)
    requires n <= |w| && Shape(w[..n]) == JAM
    ensures Shape(w) == JAM
    decreases |w| - n
  {
    if n < |w| {
      assert w[..n + 1] == w[..n] + [w[n]];
      ShapeStep(w[..n], w[n]);
      JamStays(w, n + 1);
    } else {
      assert w[..n] == w;
    }
  }

  /** The accepted rule is the earliest that matches; jammed texts match nothing. */
  lemma AcceptMeans(w: seq<byte>)
    requires w != []
    ensures var a := YyAccept(Shape(w));
            if Shape(w) == JAM then forall r: nat :: !Matches(r, w)
            else 1 <= a <= RULES && Matches(a, w) && forall r: nat :: r < a ==> !Matches(r, w)
  {
    if w <= HOSTNM || w <= PORTNM {
      KeywordsAreWords(w);
      assert |w| == 6 ==> w == HOSTNM || w == PORTNM;
    }
    assert AllDigits(w) ==> AllWord(w);
    assert IsWordByte(w[0]) ==> !IsBlank(w[0]);
  }

  /** Length of the longest live prefix of `text` that extends its first `n` bytes. */
  function Extent(text: seq<byte>, n: nat): (m: nat)
    requires n <= |text|
    ensures n <= m <= |text|
    decreases |text| - n
  {
    if n < |text| && Shape(text[..n + 1]) != JAM then Extent(text, n + 1) else n
  }

  /** How much of a text the scanner takes as its next lexeme. */
  function Munch(text: seq<byte>): (n: nat)
    ensures n <= |text|
  {
    Extent(text, 0)
  }

  function Rule(text: seq<byte>): (r: nat) {
    YyAccept(Shape(text[..Munch(text)]))
  }

  lemma {:induction false} ExtentMeans(text: seq<byte>, n: nat)
    requires n <= |text| && Shape(text[..n]) != JAM
    ensures var m := Extent(text, n);
            Shape(text[..m]) != JAM && (m < |text| ==> Shape(text[..m + 1]) == JAM)
    decreases |text| - n
  {
    if n < |text| && Shape(text[..n + 1]) != JAM {
      ExtentMeans(text, n + 1);
    }
  }

  /** A live prefix whose every extension jams is the longest. */
  lemma {:induction false} ExtentIs(text: seq<byte>, n: nat, m: nat)
    requires n <= m <= |text| && Shape(text[..m]) != JAM
    requires m < |text| ==> Shape(text[..m + 1]) == JAM
    ensures Extent(text, n) == m
    decreases m - n
  {
    if n < m {
      if Shape(text[..n + 1]) == JAM {
        assert text[..m][..n + 1] == text[..n + 1];
        JamStays(text[..m], n + 1);
        assert false;
      }
      ExtentIs(text, n + 1, m);
    }
  }

  lemma MunchIs(text: seq<byte>, m: nat)
    requires m <= |text| && Shape(text[..m]) != JAM
    requires m < |text| ==> Shape(text[..m + 1]) == JAM
    ensures Munch(text) == m
  {
    ExtentIs(text, 0, m);
  }

  /** The scanner's choice is the token of the specification, for every non-empty text. */
  lemma MunchIsToken(text: seq<byte>)
    requires text != []
    ensures IsToken(text, Munch(text), Rule(text))
  {
    var n := Munch(text);
    ExtentMeans(text, 0);
    assert text[..1] == [text[0]];
    FirstStep(text[0]);
    assert Shape(text[..1]) != JAM;
    assert n > 0;
    AcceptMeans(text[..n]);
    forall m: nat, r: nat | n < m <= |text| && r <= RULES
      ensures !Matches(r, text[..m])
    {
      assert text[..m][..n + 1] == text[..n + 1];
      JamStays(text[..m], n + 1);
      AcceptMeans(text[..m]);
    }
  }
}
