/**
 * The encoding repair the reader applies to every field and fixed-width line:
 * `mb_check_encoding($s, 'UTF-8')` is `IsValid` (RFC 3629 section 4), and
 * `iconv('ISO-8859-1', 'UTF-8', $s)` is `Latin1ToUtf8`, which cannot fail.
 * `mb_strlen` and `mb_substr` work on `Chars`, the sequence of encoded
 * characters of a valid string.
 */
module Utf8 {
  import opened Bytes

  predicate IsTail(b: Byte)
  {
    0x80 <= b <= 0xBF
  }

  /**
   * Length of the well-formed character (RFC 3629 section 4, `UTF8-char`) at
   * the start of `s`; 0 when `s` does not start with one.
   */
  function CharLength(s: Bytes): (n: nat)
    ensures n <= 4 && n <= |s|
  {
    if |s| == 0 then 0
    else
      var b := s[0];
      if b < 0x80 then 1
      else if 0xC2 <= b <= 0xDF then
        (if |s| >= 2 && IsTail(s[1]) then 2 else 0)
      else if b == 0xE0 then
        (if |s| >= 3 && 0xA0 <= s[1] <= 0xBF && IsTail(s[2]) then 3 else 0)
      else if (0xE1 <= b <= 0xEC) || (0xEE <= b <= 0xEF) then
        (if |s| >= 3 && IsTail(s[1]) && IsTail(s[2]) then 3 else 0)
      else if b == 0xED then
        (if |s| >= 3 && 0x80 <= s[1] <= 0x9F && IsTail(s[2]) then 3 else 0)
      else if b == 0xF0 then
        (if |s| >= 4 && 0x90 <= s[1] <= 0xBF && IsTail(s[2]) && IsTail(s[3]) then 4 else 0)
      else if 0xF1 <= b <= 0xF3 then
        (if |s| >= 4 && IsTail(s[1]) && IsTail(s[2]) && IsTail(s[3]) then 4 else 0)
      else if b == 0xF4 then
        (if |s| >= 4 && 0x80 <= s[1] <= 0x8F && IsTail(s[2]) && IsTail(s[3]) then 4 else 0)
      else 0
  }

  /** A character's length depends only on its own bytes. */
  lemma CharLengthOfPrefix(s: Bytes, t: Bytes)
    requires CharLength(s) > 0
    ensures CharLength(s[..CharLength(s)] + t) == CharLength(s)
  {
    var n := CharLength(s);
    var u := s[..n] + t;
    assert forall k :: 0 <= k < n ==> u[k] == s[k];
  }

  /** `mb_check_encoding($s, 'UTF-8')`: `s` is a sequence of well-formed characters. */
  predicate IsValid(s: Bytes)
    decreases |s|
  {
    s == [] || (CharLength(s) > 0 && IsValid(s[CharLength(s)..]))
  }

  function Flatten<T>(xs: seq<seq<T>>): (r: seq<T>)
  {
    if xs == [] then [] else xs[0] + Flatten(xs[1..])
  }

  lemma {:induction false} FlattenAppend<T>(xs: seq<seq<T>>, ys: seq<seq<T>>)
    ensures Flatten(xs + ys) == Flatten(xs) + Flatten(ys)
  {
    if xs == [] {
      assert xs + ys == ys;
    } else {
      assert (xs + ys)[1..] == xs[1..] + ys;
      FlattenAppend(xs[1..], ys);
    }
  }

  /** The characters of a valid string, each as its own bytes. */
  function Chars(s: Bytes): (cs: seq<Bytes>)
    requires IsValid(s)
    ensures Flatten(cs) == s
    ensures forall i :: 0 <= i < |cs| ==> 0 < |cs[i]| && CharLength(cs[i]) == |cs[i]|
    decreases |s|
  {
    if s == [] then []
    else
      var n := CharLength(s);
      CharLengthOfPrefix(s, []);
      assert s[..n] + [] == s[..n];
      [s[..n]] + Chars(s[n..])
  }

  /** Unicode scalar value of one well-formed character. */
  function CodePoint(c: Bytes): int
    requires 0 < |c| && CharLength(c) == |c|
  {
    var b0: int := c[0];
    if |c| == 1 then b0
    else
      var b1: int := c[1] - 0x80;
      if |c| == 2 then (b0 - 0xC0) * 64 + b1
      else
        var b2: int := c[2] - 0x80;
        if |c| == 3 then (b0 - 0xE0) * 4096 + b1 * 64 + b2
        else (b0 - 0xF0) * 262144 + b1 * 4096 + b2 * 64 + (c[3] - 0x80)
  }

  /** The code points a valid string encodes. */
  function CodePoints(s: Bytes): (r: seq<int>)
    requires IsValid(s)
  {
    var cs := Chars(s);
    seq(|cs|, i requires 0 <= i < |cs| => CodePoint(cs[i]))
  }

  /** One ISO/IEC 8859-1 byte encoded as UTF-8 (U+0000 to U+00FF). */
  function Latin1Char(b: Byte): (r: Bytes)
  {
    if b < 0x80 then [b] else [0xC0 + b / 64, 0x80 + b % 64]
  }

  /** `iconv('ISO-8859-1', 'UTF-8', $s)`. */
  function Latin1ToUtf8(s: Bytes): (r: Bytes)
  {
    if s == [] then [] else Latin1Char(s[0]) + Latin1ToUtf8(s[1..])
  }

  /** Each ISO/IEC 8859-1 byte as its UTF-8 character. */
  function Latin1Chars(s: Bytes): (r: seq<Bytes>)
  {
    if s == [] then [] else [Latin1Char(s[0])] + Latin1Chars(s[1..])
  }

  lemma {:induction false} Latin1CharsIndex(s: Bytes)
    ensures |Latin1Chars(s)| == |s|
    ensures forall i :: 0 <= i < |s| ==> Latin1Chars(s)[i] == Latin1Char(s[i])
  {
    if s != [] {
      Latin1CharsIndex(s[1..]);
    }
  }

  /** The first converted character is a well-formed character of its own. */
  lemma Latin1Head(s: Bytes)
    requires s != []
    ensures var c := Latin1Char(s[0]);
      var u := Latin1ToUtf8(s);
      CharLength(u) == |c| > 0 && u[..|c|] == c && u[|c|..] == Latin1ToUtf8(s[1..])
  {
    var c := Latin1Char(s[0]);
    var rest := Latin1ToUtf8(s[1..]);
    assert Latin1ToUtf8(s) == c + rest;
    assert CharLength(c + rest) == |c|;
    assert (c + rest)[|c|..] == rest;
    assert (c + rest)[..|c|] == c;
  }

  /** Converting from ISO/IEC 8859-1 gives valid UTF-8 whose characters are the converted bytes. */
  lemma {:induction false} Latin1ToUtf8Chars(s: Bytes)
    ensures IsValid(Latin1ToUtf8(s))
    ensures Chars(Latin1ToUtf8(s)) == Latin1Chars(s)
  {
    if s != [] {
      Latin1ToUtf8Chars(s[1..]);
      Latin1Head(s);
    }
  }

  /** Decoding the converted string gives back the ISO/IEC 8859-1 bytes as code points. */
  lemma Latin1RoundTrip(s: Bytes)
    ensures IsValid(Latin1ToUtf8(s)) && CodePoints(Latin1ToUtf8(s)) == s
  {
    Latin1ToUtf8Chars(s);
    Latin1CharsIndex(s);
    var cps := CodePoints(Latin1ToUtf8(s));
    forall i | 0 <= i < |s|
      ensures cps[i] == s[i]
    {
      assert Chars(Latin1ToUtf8(s))[i] == Latin1Char(s[i]);
    }
  }

  /**
   * The repair the reader applies to a field or line: kept as it is when it is
   * valid UTF-8, otherwise reread as ISO/IEC 8859-1 and converted.
   */
  function Repair(s: Bytes): (r: Bytes)
  {
    if IsValid(s) then s else Latin1ToUtf8(s)
  }

  /**
   * The repair always gives valid UTF-8, keeps valid input unchanged, keeps
   * the bytes of invalid input as its code points, and keeps the empty string empty.
   */
  lemma RepairSpec(s: Bytes)
    ensures IsValid(Repair(s))
    ensures IsValid(s) ==> Repair(s) == s
    ensures !IsValid(s) ==> CodePoints(Repair(s)) == s
    ensures s == [] <==> Repair(s) == []
  {
    if !IsValid(s) {
      Latin1RoundTrip(s);
      Latin1ToUtf8Chars(s);
      Latin1CharsIndex(s);
    }
  }

  /**
   * `mb_substr` (PHP 8) on the characters of a string: a negative `from`
   * counts from the end, a negative `len` leaves that many characters off the
   * end, and a start at or past the end gives the empty string.
   */
  function Substr<T>(cs: seq<T>, from: int, len: int): (r: seq<T>)
    ensures from >= 0 && len >= 0 ==> r == cs[Min(from, |cs|)..Min(from + len, |cs|)]
  {
    var n := |cs|;
    var realFrom := if from >= 0 then from else if -from < n then n + from else 0;
    var realLen :=
      if len >= 0 then len
      else if realFrom < n && -len < n - realFrom then (n - realFrom) + len
      else 0;
    if realFrom >= n then [] else cs[realFrom..Min(n, realFrom + realLen)]
  }
}
