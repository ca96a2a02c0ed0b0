/** The Internet checksum of chapter10/raw-u-client.c: a 32-bit sum of 16-bit words in the
    host's byte order, folded while it is accumulated (RFC 1071). */
module Checksum {
  import opened CStrings

  /** The byte order of the host. */
  datatype Order = Little | Big

  /** A 16-bit word in memory, as the host reads it. */
  function Word(a: byte, b: byte, order: Order): (w: nat)
    ensures w < 0x10000
  {
    if order.Little? then a + 256 * b else 256 * a + b
  }

  /** A 16-bit value as the host stores it. */
  function Stored(v: nat, order: Order): (s: seq<byte>)
    requires v < 0x10000
    ensures |s| == 2 && Word(s[0], s[1], order) == v
  {
    if order.Little? then [v % 256, v / 256] else [v / 256, v % 256]
  }

  /** The sum of the words of a block, an odd last byte counting as a word with a zero byte
      behind it. */
  function WordSum(s: seq<byte>, order: Order): (n: nat) {
    if s == [] then 0
    else if |s| == 1 then Word(s[0], 0, order)
    else Word(s[0], s[1], order) + WordSum(s[2..], order)
  }

  /** The one's-complement sum: the number below 0x10000 congruent to `n` modulo 0xFFFF that
      is 0 only for 0. */
  function Folded(n: nat): (f: nat)
    ensures f <= 0xFFFF && (f == 0 <==> n == 0)
  {
    if n == 0 then 0 else 1 + (n - 1) % 0xFFFF
  }

  /** The result for a folded sum; 0 never leaves the function. */
  function Complement(f: nat): (c: nat)
    requires f <= 0xFFFF
    ensures 0 < c <= 0xFFFF
  {
    if f == 0xFFFF then f else 0xFFFF - f
  }

  /** What the function returns for a block. */
  function Checksum(s: seq<byte>, order: Order): (c: nat)
    ensures 0 < c <= 0xFFFF
  {
    Complement(Folded(WordSum(s, order)))
  }

  lemma FoldedIs(n: nat, f: nat, k: nat)
    requires f <= 0xFFFF && n == f + 0xFFFF * k && (f == 0 ==> n == 0)
    ensures f == Folded(n)
  {
    if f > 0 {
      assert n - 1 == (f - 1) + 0xFFFF * k;
      assert (n - 1) % 0xFFFF == f - 1;
    }
  }

  lemma FoldedQuotient(n: nat) returns (k: nat)
    ensures n == Folded(n) + 0xFFFF * k
  {
    k := if n == 0 then 0 else (n - 1) / 0xFFFF;
  }

  /** One end-around carry. */
  lemma Carry(sum: nat)
    ensures var s := sum % 0x10000 + sum / 0x10000; Folded(s) == Folded(sum) && (sum >= 0x10000 ==> s < sum)
  {
    var s := sum % 0x10000 + sum / 0x10000;
    var k := FoldedQuotient(s);
    assert sum == s + 0xFFFF * (sum / 0x10000);
    FoldedIs(sum, Folded(s), k + sum / 0x10000);
  }

  lemma FoldedSum(a: nat, b: nat, c: nat)
    requires Folded(a) == Folded(b)
    ensures Folded(a + c) == Folded(b + c)
  {
    var j := FoldedQuotient(a);
    var k := FoldedQuotient(b);
    var l := FoldedQuotient(a + c);
    var m := l + k - j;
    assert b + c == Folded(a + c) + 0xFFFF * m;
    assert b + c == 0 ==> a + c == 0;
    FoldedIs(b + c, Folded(a + c), m);
  }

  lemma NextWord(s: seq<byte>, order: Order)
    ensures |s| >= 2 ==> WordSum(s, order) == Word(s[0], s[1], order) + WordSum(s[2..], order)
    ensures |s| == 1 ==> WordSum(s, order) == Word(s[0], 0, order)
    ensures |s| == 0 ==> WordSum(s, order) == 0
  {
  }

  /** Folding early changes nothing. */
  lemma FoldedEarly(sum: nat, rest: nat)
    requires sum <= 0xFFFF_FFFF
    ensures var t := sum % 0x10000 + sum / 0x10000;
            t < 0x8000_0000 && Folded(t + rest) == Folded(sum + rest)
  {
    Carry(sum);
    FoldedSum(sum % 0x10000 + sum / 0x10000, sum, rest);
  }

  lemma FoldedWord(sum: nat)
    requires sum < 0x10000
    ensures Folded(sum) == sum
  {
    FoldedIs(sum, sum, 0);
  }

  /** `checksum` over data[start..start + len]. The accumulator stays within 32 bits. */
  method ChecksumOf(data: array<byte>, start: nat, len: nat, order: Order) returns (r: nat)
    requires start + len <= data.Length && len < 0x1_0000_0000
    ensures r == Checksum(data[start..start + len], order)
  {
    hide Folded, WordSum, Word;
    ghost var s := data[start..start + len];
    var sum: nat, p: nat, c: nat := 0, start, len;
    while c > 1
      invariant p + c == start + len && start <= p
      invariant sum < 0x8000_0000
      invariant Folded(sum + WordSum(data[p..p + c], order)) == Folded(WordSum(s, order))
    {
      NextWord(data[p..p + c], order);
      assert data[p..p + c][2..] == data[p + 2..p + c];
      sum := sum + Word(data[p], data[p + 1], order);
      assert sum <= 0xFFFF_FFFF;
      if sum >= 0x8000_0000 {
        FoldedEarly(sum, WordSum(data[p + 2..p + c], order));
        sum := sum % 0x10000 + sum / 0x10000;
      }
      p, c := p + 2, c - 2;
    }
    NextWord(data[p..p + c], order);
    if c == 1 {
      sum := sum + Word(data[p], 0, order);
      assert sum <= 0xFFFF_FFFF;
    }
    assert Folded(sum) == Folded(WordSum(s, order));
    while sum / 0x10000 != 0
      invariant Folded(sum) == Folded(WordSum(s, order))
      decreases sum
    {
      Carry(sum);
      sum := sum % 0x10000 + sum / 0x10000;
    }
    FoldedWord(sum);
    r := if sum == 0xFFFF then sum else 0xFFFF - sum;
  }

  /** Blocks add up when the first has an even length. */
  lemma {:induction false} WordSumAppend(s: seq<byte>, t: seq<byte>, order: Order)
    requires |s| % 2 == 0
    ensures WordSum(s + t, order) == WordSum(s, order) + WordSum(t, order)
  {
    if s == [] {
      assert s + t == t;
    } else {
      assert (s + t)[2..] == s[2..] + t;
      WordSumAppend(s[2..], t, order);
    }
  }

  /** The checksum stored in its zeroed field makes the whole block sum to 0xFFFF. */
  lemma ChecksumChecks(before: seq<byte>, after: seq<byte>, order: Order)
    requires |before| % 2 == 0
    ensures var c := Checksum(before + [0, 0] + after, order);
            Folded(WordSum(before + Stored(c, order) + after, order)) == 0xFFFF
  {
    var zero: seq<byte> := [0, 0];
    var z := before + zero + after;
    var c := Checksum(z, order);
    var st := Stored(c, order);
    FieldSum(before, zero, after, order);
    FieldSum(before, st, after, order);
    var n := WordSum(z, order);
    var k := FoldedQuotient(n);
    var f := Folded(n);
    FoldedIs(n + c, 0xFFFF, if f == 0xFFFF then k + 1 else k);
  }

  /** No other value in the field passes the check, except that 0 does where 0xFFFF is stored
      for a block that sums to a multiple of 0xFFFF. */
  lemma OnlyChecksumChecks(before: seq<byte>, after: seq<byte>, order: Order, v: nat)
    requires |before| % 2 == 0 && v < 0x10000
    ensures var z := before + [0, 0] + after; var c := Checksum(z, order);
            Folded(WordSum(before + Stored(v, order) + after, order)) == 0xFFFF
            <==> v == c || (v == 0 && Folded(WordSum(z, order)) == 0xFFFF)
  {
    var zero: seq<byte> := [0, 0];
    FieldSum(before, zero, after, order);
    FieldSum(before, Stored(v, order), after, order);
    var n := WordSum(before + zero + after, order);
    var k := FoldedQuotient(n);
    var f := Folded(n);
    var t := f + v;
    FoldedIs(n + v, if t > 0xFFFF then t - 0xFFFF else t, if t > 0xFFFF then k + 1 else k);
  }

  lemma FieldSum(before: seq<byte>, field: seq<byte>, after: seq<byte>, order: Order)
    requires |before| % 2 == 0 && |field| == 2
    ensures WordSum(before + field + after, order)
         == WordSum(before, order) + Word(field[0], field[1], order) + WordSum(after, order)
  {
    WordSumAppend(before + field, after, order);
    WordSumAppend(before, field, order);
    assert field[2..] == [];
  }

  // ---- Byte order ----

  /** The bytes at even positions add up to the difference of the two readings. */
  function EvenSum(s: seq<byte>): (n: nat) {
    if s == [] then 0 else s[0] + if |s| == 1 then 0 else EvenSum(s[2..])
  }

  lemma {:induction false} OrdersDiffer(s: seq<byte>)
    ensures 256 * WordSum(s, Big) == WordSum(s, Little) + 0xFFFF * EvenSum(s)
    ensures EvenSum(s) <= WordSum(s, Little)
  {
    if |s| > 1 {
      OrdersDiffer(s[2..]);
    }
  }

  lemma FoldedSwap(n: nat)
    ensures var f := Folded(n); Folded(256 * n) == f % 256 * 256 + f / 256
  {
    var f := Folded(n);
    var k := FoldedQuotient(n);
    var x := f % 256 * 256 + f / 256;
    assert 256 * f == x + 0xFFFF * (f / 256);
    FoldedIs(256 * n, x, 256 * k + f / 256);
  }

  /** The complement of a two-byte sum, byte by byte. */
  lemma ComplementBytes(h: byte, l: byte)
    ensures var c := 0xFFFF - (256 * h + l); c / 256 == 255 - h && c % 256 == 255 - l
    ensures (256 * h + l) / 256 == h && (256 * h + l) % 256 == l
  {
    assert 0xFFFF - (256 * h + l) == 256 * (255 - h) + (255 - l);
  }

  lemma SwappedStored(f: nat)
    requires f <= 0xFFFF
    ensures var g := f % 256 * 256 + f / 256; g <= 0xFFFF && Stored(Complement(g), Little) == Stored(Complement(f), Big)
  {
    var hi: byte, lo: byte := f / 256, f % 256;
    ComplementBytes(hi, lo);
    ComplementBytes(lo, hi);
  }

  /** Both hosts put the same two bytes into memory, whatever the length (section 2 (B) of
      RFC 1071). */
  lemma StoredChecksumSame(s: seq<byte>)
    ensures Stored(Checksum(s, Little), Little) == Stored(Checksum(s, Big), Big)
  {
    hide WordSum, Folded;
    var l, b := WordSum(s, Little), WordSum(s, Big);
    OrdersDiffer(s);
    FoldedSwap(b);
    var k := FoldedQuotient(l);
    FoldedIs(256 * b, Folded(l), k + EvenSum(s));
    SwappedStored(Folded(b));
  }

  // ---- The sum in bytes ----

  /** The bytes at the even positions, or at the odd ones, added up. */
  function SumAt(s: seq<byte>, parity: nat): (n: nat) {
    if s == [] then 0
    else SumAt(s[..|s| - 1], parity) + if (|s| - 1) % 2 == parity then s[|s| - 1] else 0
  }

  lemma {:induction false} SumAtMore(a: byte, b: byte, s: seq<byte>)
    ensures SumAt([a, b] + s, 0) == a + SumAt(s, 0) && SumAt([a, b] + s, 1) == b + SumAt(s, 1)
    decreases |s|
  {
    var t := [a, b] + s;
    if s == [] {
      assert t == [a, b] && t[..1] == [a] && [a][..0] == [];
    } else {
      assert t[..|t| - 1] == [a, b] + s[..|s| - 1];
      SumAtMore(a, b, s[..|s| - 1]);
    }
  }

  /** A host that reads the high byte first adds up the even positions 256 times and the odd
      ones once, a host that reads the low byte first the other way round. */
  lemma {:induction false} WordsInBytes(s: seq<byte>)
    ensures WordSum(s, Big) == 256 * SumAt(s, 0) + SumAt(s, 1)
    ensures WordSum(s, Little) == SumAt(s, 0) + 256 * SumAt(s, 1)
  {
    if |s| == 1 {
      assert s[..0] == [];
    } else if |s| > 1 {
      WordsInBytes(s[2..]);
      assert s == [s[0], s[1]] + s[2..];
      SumAtMore(s[0], s[1], s[2..]);
    }
  }

  /** A receiver's check in numbers: the sum is a positive multiple of 0xFFFF. */
  lemma FullMeans(n: nat)
    ensures Folded(n) == 0xFFFF <==> n > 0 && n % 0xFFFF == 0
  {
    if n > 0 {
      var k := n / 0xFFFF;
      if n % 0xFFFF == 0 {
        FoldedIs(n, 0xFFFF, k - 1);
      } else {
        FoldedIs(n, n % 0xFFFF, k);
      }
    }
  }
}
