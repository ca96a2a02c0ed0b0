/** What scanning does to every byte of a text of chpater12/lexer.l, and the numbers of the tokens. */
module ScannerMeaning {
  import opened CStrings
  import opened Scanner
  import opened ScannerAutomaton
  import ScannerSpec

  /** What is left of skipped bytes: all but tabs, newlines and blanks. */
  function Visible(s: seq<byte>): (v: seq<byte>) {
    if s == [] then [] else (if s[0] in {9, 10, 32} then [] else [s[0]]) + Visible(s[1..])
  }

  lemma {:induction false} VisibleMore(s: seq<byte>, t: seq<byte>)
    ensures Visible(s + t) == Visible(s) + Visible(t)
    decreases |s|
  {
    if s == [] {
      assert s + t == t;
    } else {
      assert (s + t)[1..] == s[1..] + t;
      VisibleMore(s[1..], t);
    }
  }

  lemma {:induction false} VisibleBlank(s: seq<byte>)
    requires forall k :: 0 <= k < |s| ==> s[k] in {9, 10, 32}
    ensures Visible(s) == []
  {
    if s != [] {
      VisibleBlank(s[1..]);
    }
  }

  /** In front of the lexeme found there are only bytes that start no lexeme; the blanks among
      them are dropped, and all others are copied out. */
  predicate Splits(text: seq<byte>, l: Lexed) {
    var n := |text| - |l.lexeme.text| - |l.rest|;
    && n >= 0 && text == text[..n] + l.lexeme.text + l.rest
    && l.echo == Visible(text[..n])
    && (forall k :: 0 <= k < n ==> !StartsLexeme(text[k]))
    && (l.lexeme.rule != 0 ==> l.lexeme.text != [] && StartsLexeme(l.lexeme.text[0]))
  }

  lemma SplitsMore(text: seq<byte>, m: nat, l: Lexed)
    requires m <= |text| && Splits(text[m..], l) && forall k :: 0 <= k < m ==> !StartsLexeme(text[k])
    ensures Splits(text, l.(echo := Visible(text[..m]) + l.echo))
  {
    hide StartsLexeme, Visible;
    var rest := text[m..];
    var n := |rest| - |l.lexeme.text| - |l.rest|;
    assert text[..m + n] == text[..m] + rest[..n];
    assert text == text[..m] + rest;
    VisibleMore(text[..m], rest[..n]);
    forall k | 0 <= k < m + n ensures !StartsLexeme(text[k]) {
      assert k >= m ==> text[k] == rest[k - m];
    }
  }

  lemma SplitsHere(text: seq<byte>, m: nat, rule: nat)
    requires 0 < m <= |text| && StartsLexeme(text[0])
    ensures Splits(text, Lexed(Lexeme(rule, text[..m]), text[m..], []))
  {
    assert text[..0] == [] && text == [] + text[..m] + text[m..];
  }

  /** Nothing of a text is lost. */
  lemma {:induction false} LexSplits(text: seq<byte>)
    ensures Splits(text, Lex(text))
    decreases |text|
  {
    hide Splits, Munch, Rule, StartsLexeme, ScannerSpec.Matches, Visible;
    if text == [] {
      NothingSplits();
    } else {
      MunchIsToken(text);
      var m, r := Munch(text), Rule(text);
      MatchStarts(r, text[..m]);
      if r <= 9 {
        assert text[0] == text[..m][0];
        SplitsHere(text, m, r);
      } else {
        LexSplits(text[m..]);
        assert forall k :: 0 <= k < m ==> text[k] == text[..m][k];
        SplitsMore(text, m, Lex(text[m..]));
      }
    }
  }

  lemma NothingSplits()
    ensures Splits([], Lexed(Lexeme(0, []), [], []))
  {
  }

  /** Letters, digits, and - . / = " { } ; */
  predicate StartsLexeme(b: byte) {
    45 <= b <= 57 || 65 <= b <= 90 || 97 <= b <= 122 || b in {61, 34, 123, 125, 59}
  }

  /** What the rules without a token match, and what they leave visible. */
  lemma MatchStarts(rule: nat, w: seq<byte>)
    requires ScannerSpec.Matches(rule, w) && forall r: nat :: r < rule ==> !ScannerSpec.Matches(r, w)
    ensures w != [] && (rule <= 9 ==> StartsLexeme(w[0]))
    ensures rule > 9 ==>
              (forall k :: 0 <= k < |w| ==> !StartsLexeme(w[k])) && Visible(w) == if rule == 12 then w else []
  {
    if rule == 12 {
      assert w == [w[0]] && w[1..] == [];
      Unmatched(w[0]);
    } else if rule > 9 {
      VisibleBlank(w);
    }
  }

  /** A character that only the default rule matches. */
  lemma Unmatched(b: byte)
    requires forall r: nat :: r < 12 ==> !ScannerSpec.Matches(r, [b])
    ensures !StartsLexeme(b) && b !in {9, 10, 32}
  {
    assert !ScannerSpec.Matches(4, [b]) && !ScannerSpec.Matches(5, [b]) && !ScannerSpec.Matches(6, [b]);
    assert !ScannerSpec.Matches(7, [b]) && !ScannerSpec.Matches(8, [b]) && !ScannerSpec.Matches(9, [b]);
    assert !ScannerSpec.Matches(10, [b]) && !ScannerSpec.Matches(11, [b]);
  }

  /** The numbers the generated parser knows the tokens by. */
  lemma CodeNumbers()
    ensures Code(1) == 258 && Code(2) == 259 && Code(4) == 260 && Code(3) == 261
    ensures Code(5) == 262 && Code(6) == 263 && Code(7) == 264 && Code(8) == 265 && Code(9) == 266 && Code(0) == 0
  {
  }
}
