/** The token language of chpater12/lexer.l: twelve rules (the twelfth is the default rule of
    the generator), longest match first, earliest rule on ties. */
module ScannerSpec {
  import opened CStrings
  import Decimal

  const HOSTNM: seq<byte> := [104, 111, 115, 116, 110, 109]
  const PORTNM: seq<byte> := [112, 111, 114, 116, 110, 109]

  const QUOTE: byte := 34
  const EQUAL: byte := 61
  const SEMICOLON: byte := 59
  const OPEN: byte := 123
  const CLOSE: byte := 125

  /** [a-zA-Z0-9\/.-] */
  predicate IsWordByte(b: byte) {
    45 <= b <= 57 || 65 <= b <= 90 || 97 <= b <= 122
  }

  /** [ \t] */
  predicate IsBlank(b: byte) {
    b == SPACE || b == TAB
  }

  predicate AllWord(w: seq<byte>) {
    forall k :: 0 <= k < |w| ==> IsWordByte(w[k])
  }

  predicate AllBlank(w: seq<byte>) {
    forall k :: 0 <= k < |w| ==> IsBlank(w[k])
  }

  const RULES: nat := 12

  predicate Matches(rule: nat, w: seq<byte>) {
    match rule
    case 1 => w == HOSTNM
    case 2 => w == PORTNM
    case 3 => w != [] && Decimal.AllDigits(w)
    case 4 => w != [] && AllWord(w)
    case 5 => w == [EQUAL]
    case 6 => w == [QUOTE]
    case 7 => w == [OPEN]
    case 8 => w == [CLOSE]
    case 9 => w == [SEMICOLON]
    case 10 => w == [LF]
    case 11 => w != [] && AllBlank(w)
    case 12 => |w| == 1
    case _ => false
  }

  /** The first `n` bytes of `text` are the next lexeme, matched by `rule`. */
  ghost predicate IsToken(text: seq<byte>, n: nat, rule: nat) {
    && 0 < n <= |text|
    && Matches(rule, text[..n])
    && (forall r: nat :: r < rule ==> !Matches(r, text[..n]))
    && (forall m: nat, r: nat :: n < m <= |text| && r <= RULES ==> !Matches(r, text[..m]))
  }

  lemma TokenUnique(text: seq<byte>, n: nat, rule: nat, m: nat, other: nat)
    requires IsToken(text, n, rule) && IsToken(text, m, other)
    ensures n == m && rule == other
  {
    assert rule <= RULES && other <= RULES;
  }
}
