/** C strings as the sources use them: arrays of bytes cut at the first NUL,
    strpbrk, and the size-bounded concatenation `mystrlcat`. */
module CStrings {

  type byte = b: int | 0 <= b < 256

  const NUL: byte := 0
  const LF: byte := 10
  const CR: byte := 13
  const TAB: byte := 9
  const SPACE: byte := 32

  /** ":OK\r\n", the suffix every server appends. */
  const OK_SUFFIX: seq<byte> := [58, 79, 75, 13, 10]

  function Min(a: int, b: int): int {
    if a <= b then a else b
  }

  /** The longest prefix of `s` without a byte of `stops`. */
  function Until(s: seq<byte>, stops: set<byte>): (r: seq<byte>)
    ensures r <= s
    ensures forall k :: 0 <= k < |r| ==> r[k] !in stops
    ensures |r| < |s| ==> s[|r|] in stops
  {
    if s == [] || s[0] in stops then [] else [s[0]] + Until(s[1..], stops)
  }

  /** A clean run ended by a stop byte (or the end) is what `Until` returns. */
  lemma {:induction false} UntilIs(s: seq<byte>, stops: set<byte>, n: nat)
    requires n <= |s|
    requires forall k :: 0 <= k < n ==> s[k] !in stops
    requires n < |s| ==> s[n] in stops
    ensures Until(s, stops) == s[..n]
  {
    if n > 0 {
      UntilIs(s[1..], stops, n - 1);
      assert s[..n] == [s[0]] + s[1..][..n - 1];
    }
  }

  /** A clean run belongs to what `Until` returns. */
  lemma {:induction false} UntilAtLeast(s: seq<byte>, stops: set<byte>, n: nat)
    requires n <= |s|
    requires forall k :: 0 <= k < n ==> s[k] !in stops
    ensures |Until(s, stops)| >= n
  {
    if n > 0 {
      UntilAtLeast(s[1..], stops, n - 1);
    }
  }

  /** The C string stored at the start of `s`. */
  function CStr(s: seq<byte>): (r: seq<byte>) {
    Until(s, {NUL})
  }

  /** What is left of a line when it is cut at its first CR or LF. */
  function CutLine(s: seq<byte>): (r: seq<byte>) {
    Until(s, {NUL, CR, LF})
  }

  /** Looking for a line end inside the C string is looking for any of the three stops. */
  lemma {:induction false} CutOfCStr(s: seq<byte>)
    ensures CutLine(CStr(s)) == CutLine(s)
    ensures CutLine(s) <= CStr(s)
  {
    if s != [] && s[0] != NUL {
      CutOfCStr(s[1..]);
      assert CStr(s)[1..] == CStr(s[1..]);
    }
  }

  /** A line is cut at its first NUL, LF or CR. */
  lemma CutInBytes(s: seq<byte>, n: nat)
    requires n <= |s| && (forall k :: 0 <= k < n ==> s[k] != 0 && s[k] != 10 && s[k] != 13)
    requires n < |s| ==> s[n] == 0 || s[n] == 10 || s[n] == 13
    ensures CutLine(s) == s[..n]
  {
    UntilIs(s, {NUL, CR, LF}, n);
  }

  /** Nothing behind the terminator matters. */
  lemma TerminatedLine(b: seq<byte>, n: nat)
    requires n < |b| && b[n] == NUL
    ensures CutLine(b) == CutLine(b[..n]) && NUL in b
  {
    var l := CutLine(b[..n]);
    UntilIs(b, {NUL, CR, LF}, |l|);
  }

  /** The position of the first terminator. */
  function FirstNul(s: seq<byte>): (n: nat)
    requires NUL in s
    ensures n < |s| && s[n] == NUL && n == |CStr(s)|
  {
    Terminated(s);
    |CStr(s)|
  }

  function Zeros(n: nat): (z: seq<byte>)
    ensures |z| == n && forall k :: 0 <= k < n ==> z[k] == NUL
  {
    seq(n, _ => NUL)
  }

  /** The buffer `mystrlcat` leaves behind in its first `size` bytes: the old string, the
      source cut to fit, and zeros to the end. */
  function LCat(dst: seq<byte>, src: seq<byte>): (r: seq<byte>)
    ensures |r| == |dst|
  {
    var d := CStr(dst);
    if |d| == |dst| then dst
    else
      var n := Min(|src|, |dst| - 1 - |d|);
      d + src[..n] + Zeros(|dst| - |d| - n)
  }

  /** As a C string, the result is the concatenation truncated to size - 1 bytes. */
  lemma LCatString(dst: seq<byte>, src: seq<byte>)
    requires |CStr(dst)| < |dst|
    requires NUL !in src
    ensures CStr(LCat(dst, src)) == (CStr(dst) + src)[..Min(|CStr(dst)| + |src|, |dst| - 1)]
  {
    var d := CStr(dst);
    var n := Min(|src|, |dst| - 1 - |d|);
    hide Until;
    var m := d + src[..n];
    assert m == (d + src)[..|d| + n];
    assert NUL !in src[..n] by {
      assert forall k :: 0 <= k < n ==> src[..n][k] == src[k];
    }
    CStrOfPadded(m, Zeros(|dst| - |d| - n));
  }

  /** Zero padding does not change the C string in front of it. */
  lemma CStrOfPadded(m: seq<byte>, z: seq<byte>)
    requires NUL !in m
    requires z != [] ==> z[0] == NUL
    ensures CStr(m + z) == m
  {
    UntilIs(m + z, {NUL}, |m|);
  }

  /** A buffer filled the way the two copying loops fill it. */
  lemma LCatIs(was: seq<byte>, src: seq<byte>, now: seq<byte>)
    requires |now| == |was| && |CStr(was)| < |was|
    requires var d := |CStr(was)|; var n := Min(|src|, |was| - 1 - d);
             && (forall k :: 0 <= k < d ==> now[k] == was[k])
             && (forall k :: 0 <= k < n ==> now[d + k] == src[k])
             && (forall k :: d + n <= k < |now| ==> now[k] == NUL)
    ensures now == LCat(was, src)
  {
    var d := |CStr(was)|;
    var n := Min(|src|, |was| - 1 - d);
    assert now[..d] == CStr(was);
    assert now[d..d + n] == src[..n];
    assert now == now[..d] + now[d..d + n] + Zeros(|was| - d - n);
  }

  /** The two copying loops of `mystrlcat`: source bytes while they fit, then zeros. */
  method CopyAndPad(dst: array<byte>, dlen: nat, src: seq<byte>, size: nat) returns (ps: nat)
    requires dlen < size <= dst.Length && NUL in src
    modifies dst
    ensures ps == Min(|CStr(src)|, size - 1 - dlen)
    ensures forall k :: 0 <= k < ps ==> dst[dlen + k] == CStr(src)[k]
    ensures forall k :: dlen + ps <= k < size ==> dst[k] == NUL
    ensures forall k :: 0 <= k < dlen || size <= k < dst.Length ==> dst[k] == old(dst[k])
  {
    ghost var s := CStr(src);
    Terminated(src);
    var pd, pde := dlen, size - 1;
    ps := 0;
    while src[ps] != NUL && pd < pde
      invariant 0 <= ps <= |s| && pd == dlen + ps <= pde
      invariant forall k :: 0 <= k < ps ==> dst[dlen + k] == s[k]
      invariant forall k :: 0 <= k < dlen || size <= k < dst.Length ==> dst[k] == old(dst[k])
      decreases |s| - ps
    {
      dst[pd] := src[ps];
      pd, ps := pd + 1, ps + 1;
    }
    while pd <= pde
      invariant dlen + ps <= pd <= pde + 1
      invariant forall k :: 0 <= k < ps ==> dst[dlen + k] == s[k]
      invariant forall k :: dlen + ps <= k < pd ==> dst[k] == NUL
      invariant forall k :: 0 <= k < dlen || size <= k < dst.Length ==> dst[k] == old(dst[k])
    {
      dst[pd] := NUL;
      pd := pd + 1;
    }
  }

  /** `mystrlcat`: appends the C string `src` to the one in dst[..size]. The first loop reads
      dst[size] when no NUL precedes it, so `dst` must then extend past `size`. */
  method StrLCat(dst: array<byte>, src: seq<byte>, size: nat) returns (r: nat)
    requires size <= dst.Length
    requires size == dst.Length ==> NUL in dst[..]
    requires NUL in src
    modifies dst
    ensures dst[..size] == LCat(old(dst[..size]), CStr(src))
    ensures dst[size..] == old(dst[size..])
    ensures r == |CStr(old(dst[..size]))| + |CStr(src)|
  {
    hide Until;
    ghost var was, s := dst[..size], CStr(src);
    ghost var q := if size < dst.Length then size else FirstNul(dst[..]);
    var pd, lest := 0, size;
    while dst[pd] != NUL && lest != 0
      invariant 0 <= pd <= q && lest == size - pd
      invariant forall k :: 0 <= k < pd ==> dst[k] != NUL
      decreases lest
    {
      pd, lest := pd + 1, lest - 1;
    }
    var dlen := pd;
    UntilIs(was, {NUL}, dlen);
    if size - dlen == 0 {
      return dlen + |CStr(src)|;
    }
    var ps := CopyAndPad(dst, dlen, src, size);
    assert dst[size..] == old(dst[size..]);
    LCatIs(was, s, dst[..size]);
    Terminated(src);
    while src[ps] != NUL
      invariant 0 <= ps <= |s|
      decreases |s| - ps
    {
      ps := ps + 1;
    }
    ps := ps + 1;
    return dlen + (ps - 1);
  }

  /** The first of the three stops ends the line; a NUL ends the C string as well. */
  lemma StopFound(s: seq<byte>, i: nat)
    requires i < |s| && s[i] in {NUL, CR, LF} && forall k :: 0 <= k < i ==> s[k] !in {NUL, CR, LF}
    ensures CutLine(s) == s[..i]
    ensures if s[i] == NUL then CStr(s) == s[..i] else i < |CStr(s)|
  {
    UntilIs(s, {NUL, CR, LF}, i);
    if s[i] == NUL {
      UntilIs(s, {NUL}, i);
    } else {
      UntilAtLeast(s, {NUL}, i + 1);
    }
  }

  /** strpbrk(buf, "\r\n"): the index of the first CR or LF of the C string, or -1. */
  method StrPBrk(buf: array<byte>) returns (i: int)
    requires NUL in buf[..]
    ensures i == -1 ==> CutLine(buf[..]) == CStr(buf[..])
    ensures i != -1 ==> 0 <= i < |CStr(buf[..])| && CutLine(buf[..]) == buf[..i] && buf[i] in {CR, LF}
  {
    hide Until, CStr, CutLine;
    ghost var s := buf[..];
    ghost var q := FirstNul(s);
    i := 0;
    while buf[i] != NUL
      invariant 0 <= i <= q
      invariant forall k :: 0 <= k < i ==> s[k] !in {NUL, CR, LF}
      decreases q - i
    {
      if buf[i] == CR || buf[i] == LF {
        StopFound(s, i);
        return;
      }
      i := i + 1;
    }
    StopFound(s, i);
    i := -1;
  }

  /** strlen. */
  method StrLen(buf: array<byte>) returns (n: nat)
    requires NUL in buf[..]
    ensures n == |CStr(buf[..])| < buf.Length
  {
    ghost var q := FirstNul(buf[..]);
    n := 0;
    while buf[n] != NUL
      invariant 0 <= n <= q
      decreases q - n
    {
      n := n + 1;
    }
  }

  /** A buffer whose C string ends inside it contains its terminator. */
  lemma Terminated(s: seq<byte>)
    ensures |CStr(s)| < |s| <==> NUL in s
  {
    if |CStr(s)| < |s| {
      assert s[|CStr(s)|] == NUL;
    }
  }

  /** Cutting at the stop found leaves the cut line as the C string. */
  lemma CutInPlace(s: seq<byte>, i: nat)
    requires i < |s| && CutLine(s) == s[..i]
    ensures CStr(s[i := NUL]) == CutLine(s)
  {
    forall k | 0 <= k < i ensures s[k] != NUL {
      assert s[..i][k] == s[k];
    }
    UntilIs(s[i := NUL], {NUL}, i);
  }
}
