/**
 * Byte strings and the small PHP string routines the reader relies on:
 * `trim`, the ASCII part of `strtolower`, counting a byte, and the decimal
 * integers that `is_numeric` and the `(int)` cast accept in this model.
 */
module Bytes {

  /** PHP strings are byte strings. */
  type Byte = b: int | 0 <= b < 256
  type Bytes = seq<Byte>

  const TAB: Byte := 9
  const LF: Byte := 10
  const CR: Byte := 13
  const SPACE: Byte := 32
  const QUOTE: Byte := 34
  const PLUS: Byte := 43
  const COMMA: Byte := 44
  const MINUS: Byte := 45
  const SEMICOLON: Byte := 59
  const PIPE: Byte := 124

  function Min(a: int, b: int): int { if a <= b then a else b }
  function Max(a: int, b: int): int { if a >= b then a else b }

  // Proof helpers: the sequence identities the loop proofs state at a call.

  lemma EmptyPrefix<T>(s: seq<T>)
    ensures [] + s == s
  {
  }

  lemma EmptySuffix<T>(s: seq<T>)
    ensures s + [] == s
  {
  }

  lemma Regroup<T>(a: seq<T>, b: seq<T>, c: seq<T>)
    ensures a + b + c == a + (b + c)
  {
  }

  /** Number of occurrences of `b` in `s`. */
  function Count(s: Bytes, b: Byte): (n: nat)
    ensures n <= |s|
    ensures n == 0 <==> b !in s
  {
    if s == [] then 0 else (if s[0] == b then 1 else 0) + Count(s[1..], b)
  }

  lemma {:induction false} CountAppend(s: Bytes, t: Bytes, b: Byte)
    ensures Count(s + t, b) == Count(s, b) + Count(t, b)
  {
    if s == [] {
      assert s + t == t;
    } else {
      assert (s + t)[1..] == s[1..] + t;
      CountAppend(s[1..], t, b);
    }
  }

  lemma CountSnoc(s: Bytes, c: Byte, b: Byte)
    ensures Count(s + [c], b) == Count(s, b) + (if c == b then 1 else 0)
  {
    CountAppend(s, [c], b);
    assert [c][1..] == [];
  }

  /** `data[from..to]`, clipped to the bounds of `data` (empty when `from` is past `to` or the end). */
  function Segment(data: Bytes, from: nat, to: nat): (r: Bytes)
    ensures |r| <= |data|
    ensures from <= to <= |data| ==> r == data[from..to]
  {
    if from >= to || from >= |data| then [] else data[from..Min(to, |data|)]
  }

  /** The bytes PHP's `trim` removes by default: space, TAB, LF, CR, NUL and vertical tab. */
  predicate IsTrimByte(b: Byte)
  {
    b == SPACE || b == TAB || b == LF || b == CR || b == 0 || b == 11
  }

  function TrimLeft(s: Bytes): Bytes
  {
    if s != [] && IsTrimByte(s[0]) then TrimLeft(s[1..]) else s
  }

  /** `TrimLeft` removes the leading trim bytes and nothing else. */
  lemma {:induction false} TrimLeftSpec(s: Bytes)
    ensures var r := TrimLeft(s);
      && |r| <= |s| && r == s[|s| - |r|..]
      && (forall k :: 0 <= k < |s| - |r| ==> IsTrimByte(s[k]))
      && (r != [] ==> !IsTrimByte(r[0]))
  {
    if s != [] && IsTrimByte(s[0]) {
      TrimLeftSpec(s[1..]);
    }
  }

  function TrimRight(s: Bytes): Bytes
  {
    if s != [] && IsTrimByte(s[|s| - 1]) then TrimRight(s[..|s| - 1]) else s
  }

  /** `TrimRight` removes the trailing trim bytes and nothing else. */
  lemma {:induction false} TrimRightSpec(s: Bytes)
    ensures var r := TrimRight(s);
      && |r| <= |s| && r == s[..|r|]
      && (forall k :: |r| <= k < |s| ==> IsTrimByte(s[k]))
      && (r != [] ==> !IsTrimByte(r[|r| - 1]))
  {
    if s != [] && IsTrimByte(s[|s| - 1]) {
      TrimRightSpec(s[..|s| - 1]);
    }
  }

  /** PHP `trim($s)`. */
  function Trim(s: Bytes): Bytes
  {
    TrimRight(TrimLeft(s))
  }

  /** `Trim` leaves the infix of `s` between its leading and its trailing trim bytes. */
  lemma TrimSpec(s: Bytes)
    ensures var r := Trim(s);
      && (exists i, j ::
        && 0 <= i <= j <= |s| && r == s[i..j]
        && (forall k :: 0 <= k < i ==> IsTrimByte(s[k]))
        && (forall k :: j <= k < |s| ==> IsTrimByte(s[k])))
      && (r != [] ==> !IsTrimByte(r[0]) && !IsTrimByte(r[|r| - 1]))
  {
    var l := TrimLeft(s);
    var r := TrimRight(l);
    TrimLeftSpec(s);
    TrimRightSpec(l);
    var i := |s| - |l|;
    assert r == s[i..i + |r|];
    assert forall k :: i + |r| <= k < |s| ==> s[k] == l[k - i];
  }

  function LowerByte(b: Byte): Byte
  {
    if 65 <= b <= 90 then b + 32 else b
  }

  /** PHP `strtolower`: ASCII upper-case letters become lower-case, every other byte is kept. */
  function Lower(s: Bytes): (r: Bytes)
    ensures |r| == |s|
    ensures forall k :: 0 <= k < |s| ==> r[k] == LowerByte(s[k])
  {
    if s == [] then [] else [LowerByte(s[0])] + Lower(s[1..])
  }

  predicate IsDigit(b: Byte)
  {
    48 <= b <= 57
  }

  predicate AllDigits(s: Bytes)
  {
    forall k :: 0 <= k < |s| ==> IsDigit(s[k])
  }

  /**
   * The numeric strings of this model: an optional sign followed by at least one
   * decimal digit.
   */
  predicate IsInteger(s: Bytes)
  {
    if |s| > 0 && (s[0] == PLUS || s[0] == MINUS) then |s| > 1 && AllDigits(s[1..])
    else |s| > 0 && AllDigits(s)
  }

  /** Value of a string of decimal digits, most significant first. */
  function DecimalValue(s: Bytes): nat
    requires AllDigits(s)
  {
    if s == [] then 0 else DecimalValue(s[..|s| - 1]) * 10 + (s[|s| - 1] - 48)
  }

  /** PHP `(int)$s` for a numeric string of this model. */
  function ToInt(s: Bytes): int
    requires IsInteger(s)
  {
    if s[0] == MINUS then 0 - DecimalValue(s[1..]) as int
    else if s[0] == PLUS then DecimalValue(s[1..])
    else DecimalValue(s)
  }

  /** Decimal digits of `n`, most significant first, without leading zeros. */
  function Digits(n: nat): (r: Bytes)
    ensures |r| > 0 && AllDigits(r)
  {
    if n < 10 then [n + 48] else Digits(n / 10) + [n % 10 + 48]
  }

  /** PHP's decimal rendering of an integer. */
  function IntToString(n: int): (r: Bytes)
  {
    if n < 0 then [MINUS] + Digits(-n) else Digits(n)
  }

  lemma {:induction false} DecimalValueOfDigits(n: nat)
    ensures DecimalValue(Digits(n)) == n
  {
    if n >= 10 {
      var d := Digits(n);
      assert d[..|d| - 1] == Digits(n / 10);
      DecimalValueOfDigits(n / 10);
    }
  }

  /** Rendering an integer and casting it back gives the integer: `(int)(string)$n === $n`. */
  lemma IntRoundTrip(n: int)
    ensures IsInteger(IntToString(n)) && ToInt(IntToString(n)) == n
  {
    if n < 0 {
      var s := IntToString(n);
      assert s[1..] == Digits(-n);
      DecimalValueOfDigits(-n);
    } else {
      DecimalValueOfDigits(n);
    }
  }
}
