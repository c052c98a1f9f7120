/**
 * The PHP values and built-in functions that the cache layer relies on,
 * stated over Dafny values: strval, the (int) cast, trim, rtrim,
 * filter_var with FILTER_VALIDATE_INT, strlen, substr with a negative
 * start, explode and implode.  Strings are sequences of characters; strlen
 * is the length of their UTF-8 encoding.
 */
module Php {

  datatype Option<T> = None | Some(value: T)

  /** Largest and smallest integers of a 64-bit PHP build. */
  const IntMax: int := 0x7FFF_FFFF_FFFF_FFFF
  const IntMin: int := -0x8000_0000_0000_0000

  /**
   * A PHP value as a cache stores it.  VStruct stands for an array or an
   * object: the only values the file backend serialises.  empty marks the
   * empty array, the one such value that is falsy and casts to 0.
   */
  datatype Value = VInt(i: int) | VStr(s: string) | VBool(b: bool) | VNull | VStruct(tag: string, empty: bool)

  // ---------------------------------------------------------------------
  // Decimal digits

  predicate IsDigit(c: char) { '0' <= c <= '9' }

  predicate AllDigits(s: string) { forall k :: 0 <= k < |s| ==> IsDigit(s[k]) }

  function Digit(n: nat): (c: char)
    requires n < 10
    ensures IsDigit(c) && c as int - 48 == n
  {
    (48 + n) as char
  }

  /** The number a string of decimal digits denotes. */
  function DigitsValue(s: string): nat
    requires AllDigits(s)
  {
    if s == [] then 0 else DigitsValue(s[..|s| - 1]) * 10 + (s[|s| - 1] as int - 48)
  }

  /** The decimal text of a natural number, without leading zeros. */
  function NatToString(n: nat): string
    decreases n
  {
    if n < 10 then [Digit(n)] else NatToString(n / 10) + [Digit(n % 10)]
  }

  lemma {:induction false} NatToStringIsCanonical(n: nat)
    ensures |NatToString(n)| >= 1 && AllDigits(NatToString(n))
    ensures DigitsValue(NatToString(n)) == n
    ensures NatToString(n)[0] == '0' <==> n == 0
    ensures n == 0 ==> NatToString(n) == "0"
    decreases n
  {
    if n >= 10 {
      var s := NatToString(n / 10);
      NatToStringIsCanonical(n / 10);
      var t := s + [Digit(n % 10)];
      assert t[..|t| - 1] == s;
      assert t[0] == s[0];
    }
  }

  function Pow10(k: nat): nat
  {
    if k == 0 then 1 else 10 * Pow10(k - 1)
  }

  lemma {:induction false} NatToStringLength(n: nat, k: nat)
    requires 1 <= k && n < Pow10(k)
    ensures |NatToString(n)| <= k
    decreases k
  {
    if n >= 10 {
      assert n / 10 < Pow10(k - 1);
      NatToStringLength(n / 10, k - 1);
    }
  }

  /** strval of an integer. */
  function IntToString(i: int): string
  {
    if i < 0 then "-" + NatToString(-i) else NatToString(i)
  }

  /** A decimal text starts with a sign or a digit and ends with a digit. */
  lemma IntToStringShape(n: int)
    ensures |IntToString(n)| >= 1 && IsDigit(IntToString(n)[|IntToString(n)| - 1])
    ensures IntToString(n)[0] == '-' || IsDigit(IntToString(n)[0])
  {
    var m: nat := if n < 0 then -n else n;
    NatToStringIsCanonical(m);
    assert IsDigit(NatToString(m)[0]);
  }

  /** A 64-bit integer takes at most 20 characters, sign included. */
  lemma IntToStringIsShort(n: int)
    requires IntMin <= n <= IntMax
    ensures |IntToString(n)| <= 20
  {
    var m: nat := if n < 0 then -n else n;
    assert Pow10(1) == 10;
    assert Pow10(2) == 100;
    assert Pow10(3) == 1000;
    assert Pow10(4) == 10000;
    assert Pow10(5) == 100000;
    assert Pow10(6) == 1000000;
    assert Pow10(7) == 10000000;
    assert Pow10(8) == 100000000;
    assert Pow10(9) == 1000000000;
    assert Pow10(10) == 10000000000;
    assert Pow10(11) == 100000000000;
    assert Pow10(12) == 1000000000000;
    assert Pow10(13) == 10000000000000;
    assert Pow10(14) == 100000000000000;
    assert Pow10(15) == 1000000000000000;
    assert Pow10(16) == 10000000000000000;
    assert Pow10(17) == 100000000000000000;
    assert Pow10(18) == 1000000000000000000;
    assert Pow10(19) == 10000000000000000000;
    NatToStringLength(m, 19);
  }

  /** strval: the text PHP makes of a value when it is concatenated or written. */
  function ToText(v: Value): string
  {
    match v
    case VInt(i) => IntToString(i)
    case VStr(s) => s
    case VBool(b) => if b then "1" else ""
    case VNull => ""
    case VStruct(_, _) => "Array"
  }

  /** PHP's boolean reading of a string: only "" and "0" are false. */
  predicate Truthy(s: string)
  {
    s != "" && s != "0"
  }

  // ---------------------------------------------------------------------
  // trim and rtrim

  /** The characters trim() strips by default: space, tab, LF, CR, NUL, VT. */
  predicate IsTrimmed(c: char)
  {
    c == ' ' || c == '\t' || c == '\n' || c == '\r' || c == '\0' || c == '\U{000B}'
  }

  function TrimLeft(s: string): string
  {
    if s != [] && IsTrimmed(s[0]) then TrimLeft(s[1..]) else s
  }

  function TrimRight(s: string): string
  {
    if s != [] && IsTrimmed(s[|s| - 1]) then TrimRight(s[..|s| - 1]) else s
  }

  /** trim($s) */
  function Trim(s: string): string
  {
    TrimRight(TrimLeft(s))
  }

  /** trim() at the front: a prefix of trimmed characters goes, the rest stays. */
  lemma {:induction false} TrimLeftStrips(s: string)
    ensures |TrimLeft(s)| <= |s| && TrimLeft(s) == s[|s| - |TrimLeft(s)|..]
    ensures TrimLeft(s) == [] || !IsTrimmed(TrimLeft(s)[0])
    ensures forall k :: 0 <= k < |s| - |TrimLeft(s)| ==> IsTrimmed(s[k])
  {
    if s != [] && IsTrimmed(s[0]) {
      var t := s[1..];
      TrimLeftStrips(t);
      var r := TrimLeft(t);
      assert TrimLeft(s) == r;
      assert s[|s| - |r|..] == t[|t| - |r|..];
      forall k | 0 <= k < |s| - |r|
        ensures IsTrimmed(s[k])
      {
        if k > 0 {
          assert s[k] == t[k - 1];
        }
      }
    }
  }

  /** trim() at the back: a suffix of trimmed characters goes, the rest stays. */
  lemma {:induction false} TrimRightStrips(s: string)
    ensures |TrimRight(s)| <= |s| && TrimRight(s) == s[..|TrimRight(s)|]
    ensures TrimRight(s) == [] || !IsTrimmed(TrimRight(s)[|TrimRight(s)| - 1])
    ensures forall k :: |TrimRight(s)| <= k < |s| ==> IsTrimmed(s[k])
  {
    if s != [] && IsTrimmed(s[|s| - 1]) {
      TrimRightStrips(s[..|s| - 1]);
    }
  }

  /** rtrim($s, $c) for a single character c. */
  function RTrim(s: string, c: char): (r: string)
    ensures |r| <= |s| && r == s[..|r|]
    ensures r == [] || r[|r| - 1] != c
    ensures forall k :: |r| <= k < |s| ==> s[k] == c
  {
    if s != [] && s[|s| - 1] == c then RTrim(s[..|s| - 1], c) else s
  }

  // ---------------------------------------------------------------------
  // Integer parsing

  /**
   * The characters FILTER_VALIDATE_INT strips before it reads the number:
   * space, tab, CR, VT and LF.  Unlike trim() it keeps NUL.
   */
  predicate IsFilterTrimmed(c: char)
  {
    c == ' ' || c == '\t' || c == '\r' || c == '\U{000B}' || c == '\n'
  }

  function FilterTrimLeft(s: string): string
  {
    if s != [] && IsFilterTrimmed(s[0]) then FilterTrimLeft(s[1..]) else s
  }

  function FilterTrimRight(s: string): string
  {
    if s != [] && IsFilterTrimmed(s[|s| - 1]) then FilterTrimRight(s[..|s| - 1]) else s
  }

  /** The whitespace filter_var ignores around an integer. */
  function FilterTrim(s: string): string
  {
    FilterTrimRight(FilterTrimLeft(s))
  }

  /** A character the filter does not strip survives its trim. */
  lemma {:induction false} FilterTrimKeepsChar(s: string, i: nat, c: char)
    requires i < |s| && s[i] == c && !IsFilterTrimmed(c)
    ensures c in FilterTrim(s)
  {
    var l := FilterTrimLeft(s);
    var j := FilterTrimLeftKeeps(s, i);
    FilterTrimRightKeeps(l, j);
  }

  lemma {:induction false} FilterTrimLeftKeeps(s: string, i: nat) returns (j: nat)
    requires i < |s| && !IsFilterTrimmed(s[i])
    ensures j < |FilterTrimLeft(s)| && FilterTrimLeft(s)[j] == s[i]
    decreases i
  {
    if IsFilterTrimmed(s[0]) {
      assert s[1..][i - 1] == s[i];
      j := FilterTrimLeftKeeps(s[1..], i - 1);
    } else {
      j := i;
    }
  }

  lemma {:induction false} FilterTrimRightKeeps(s: string, i: nat)
    requires i < |s| && !IsFilterTrimmed(s[i])
    ensures s[i] in FilterTrimRight(s)
    decreases |s|
  {
    if IsFilterTrimmed(s[|s| - 1]) {
      assert s[..|s| - 1][i] == s[i];
      FilterTrimRightKeeps(s[..|s| - 1], i);
    }
  }

  /**
   * filter_var($s, FILTER_VALIDATE_INT): surrounding whitespace is
   * ignored, then an optional sign and a decimal number without leading
   * zeros that fits in 64 bits.
   */
  function ValidateInt(s: string): Option<int>
  {
    var t := FilterTrim(s);
    if t == [] then None
    else if t[0] == '-' then SignedNumber(true, t[1..])
    else if t[0] == '+' then SignedNumber(false, t[1..])
    else SignedNumber(false, t)
  }

  /** The number after the sign: digits without leading zeros, within 64 bits. */
  function SignedNumber(negative: bool, body: string): Option<int>
  {
    if body == [] || !AllDigits(body) || (|body| > 1 && body[0] == '0') then None
    else
      var n: int := if negative then 0 - DigitsValue(body) else DigitsValue(body);
      if IntMin <= n <= IntMax then Some(n) else None
  }

  lemma TrimKeeps(s: string)
    requires s != [] && !IsTrimmed(s[0]) && !IsTrimmed(s[|s| - 1])
    ensures Trim(s) == s
  {
    assert TrimLeft(s) == s;
  }

  lemma ValidateIntOfDigits(digits: string)
    requires digits != [] && AllDigits(digits)
    ensures ValidateInt(digits) == SignedNumber(false, digits)
    ensures ValidateInt("-" + digits) == SignedNumber(true, digits)
  {
    assert IsDigit(digits[0]) && IsDigit(digits[|digits| - 1]);
    assert FilterTrim(digits) == digits;
    var s := "-" + digits;
    assert s[1..] == digits && s[|s| - 1] == digits[|digits| - 1];
    assert FilterTrim(s) == s;
  }

  /**
   * A NUL anywhere in the text makes filter_var refuse it: the filter does
   * not strip NUL, and NUL is neither a sign nor a digit.
   */
  lemma ValidateIntRejectsNul(s: string, i: nat)
    requires i < |s| && s[i] == '\0'
    ensures ValidateInt(s) == None
  {
    FilterTrimKeepsChar(s, i, '\0');
    var t := FilterTrim(s);
    if t[0] == '-' || t[0] == '+' {
      assert '\0' in t[1..];
    }
  }

  lemma ValidateIntOfIntToString(n: int)
    requires IntMin <= n <= IntMax
    ensures ValidateInt(IntToString(n)) == Some(n)
  {
    var m: nat := if n < 0 then -n else n;
    NatToStringIsCanonical(m);
    ValidateIntOfDigits(NatToString(m));
  }

  /**
   * $a + $b on two PHP integers: an integer while the sum fits in 64 bits,
   * a float once it leaves that range (exact keeps the mathematical sum).
   */
  datatype Sum = IntSum(i: int) | FloatSum(exact: int)

  function AddInts(a: int, b: int): Sum
  {
    if IntMin <= a + b <= IntMax then IntSum(a + b) else FloatSum(a + b)
  }

  /**
   * strval of a sum.  The text PHP gives a float is not modelled: it is the
   * parameter floatText.
   */
  function SumText(s: Sum, floatText: int -> string): string
  {
    match s
    case IntSum(i) => IntToString(i)
    case FloatSum(x) => floatText(x)
  }

  /** The characters the (int) cast skips before a number. */
  predicate IsCastSpace(c: char)
  {
    c == ' ' || c == '\t' || c == '\n' || c == '\r' || c == '\U{000B}' || c == '\U{000C}'
  }

  function SkipCastSpace(s: string): string
  {
    if s != [] && IsCastSpace(s[0]) then SkipCastSpace(s[1..]) else s
  }

  function LeadingDigits(s: string): (r: string)
    ensures AllDigits(r) && |r| <= |s| && r == s[..|r|]
    ensures |r| < |s| ==> !IsDigit(s[|r|])
  {
    if s != [] && IsDigit(s[0]) then [s[0]] + LeadingDigits(s[1..]) else []
  }

  /** The (int) cast of a string: the leading decimal number, or 0. */
  function StringToInt(s: string): int
  {
    var t := SkipCastSpace(s);
    if t != [] && t[0] == '-' then 0 - DigitsValue(LeadingDigits(t[1..]))
    else if t != [] && t[0] == '+' then DigitsValue(LeadingDigits(t[1..]))
    else DigitsValue(LeadingDigits(t))
  }

  /** The (int) cast of a value. */
  function IntCast(v: Value): int
  {
    match v
    case VInt(i) => i
    case VStr(s) => StringToInt(s)
    case VBool(b) => if b then 1 else 0
    case VNull => 0
    case VStruct(_, empty) => if empty then 0 else 1
  }

  // ---------------------------------------------------------------------
  // strlen and substr

  /** The number of bytes UTF-8 spends on one character. */
  function CharBytes(c: char): nat
  {
    if c as int < 0x80 then 1 else if c as int < 0x800 then 2 else if c as int < 0x1_0000 then 3 else 4
  }

  /** strlen: the length of the UTF-8 encoding. */
  function ByteLength(s: string): (r: nat)
    ensures r >= |s|
    ensures r == 1 <==> |s| == 1 && s[0] as int < 0x80
  {
    if s == [] then 0 else CharBytes(s[0]) + ByteLength(s[1..])
  }

  /** substr($s, -n): the last n characters, or all of s when it is shorter. */
  function LastChars(s: string, n: nat): (r: string)
    ensures |r| == if |s| <= n then |s| else n
    ensures r == s[|s| - |r|..]
  {
    if |s| <= n then s else s[|s| - n..]
  }

  // ---------------------------------------------------------------------
  // explode and implode on a one-character delimiter

  function Count(s: string, d: char): nat
  {
    if s == [] then 0 else (if s[0] == d then 1 else 0) + Count(s[1..], d)
  }

  /** explode($d, $s) */
  function Explode(s: string, d: char): (parts: seq<string>)
    ensures |parts| == Count(s, d) + 1
    ensures forall i :: 0 <= i < |parts| ==> d !in parts[i]
  {
    if s == [] then [""]
    else
      var rest := Explode(s[1..], d);
      if s[0] == d then [""] + rest else [[s[0]] + rest[0]] + rest[1..]
  }

  /** implode($d, $parts) */
  function Implode(parts: seq<string>, d: char): string
  {
    if parts == [] then ""
    else if |parts| == 1 then parts[0]
    else parts[0] + [d] + Implode(parts[1..], d)
  }

  lemma {:induction false} ImplodeExplode(s: string, d: char)
    ensures Implode(Explode(s, d), d) == s
  {
    if s != [] {
      var rest := Explode(s[1..], d);
      ImplodeExplode(s[1..], d);
      if s[0] == d {
        assert ([""] + rest)[1..] == rest;
      } else {
        var parts := [[s[0]] + rest[0]] + rest[1..];
        if |rest| > 1 {
          assert parts[1..] == rest[1..];
          assert Implode(rest, d) == rest[0] + [d] + Implode(rest[1..], d);
        }
      }
    }
  }

  lemma {:induction false} ImplodeSnoc(parts: seq<string>, x: string, d: char)
    requires parts != []
    ensures Implode(parts + [x], d) == Implode(parts, d) + [d] + x
    decreases |parts|
  {
    if |parts| > 1 {
      assert (parts + [x])[1..] == parts[1..] + [x];
      ImplodeSnoc(parts[1..], x, d);
    }
  }

  lemma {:induction false} CountIsZero(s: string, d: char)
    ensures Count(s, d) == 0 <==> d !in s
  {
    if s != [] {
      CountIsZero(s[1..], d);
      assert s == [s[0]] + s[1..];
    }
  }

  /**
   * explode($d, $s, 2): the text before the first d and, when d occurs,
   * the text after it.
   */
  function SplitAtFirst(s: string, d: char): (string, Option<string>)
  {
    if s == [] then ("", None)
    else if s[0] == d then ("", Some(s[1..]))
    else
      var rest := SplitAtFirst(s[1..], d);
      ([s[0]] + rest.0, rest.1)
  }

  /**
   * explode with limit 2 splits at the first d: the text before it holds
   * no d, there is a second part exactly when d occurs, and the parts with
   * d between them rebuild the string.
   */
  lemma {:induction false} SplitAtFirstSplits(s: string, d: char)
    ensures d !in SplitAtFirst(s, d).0
    ensures SplitAtFirst(s, d).1.None? <==> d !in s
    ensures SplitAtFirst(s, d).1.None? ==> SplitAtFirst(s, d).0 == s
    ensures SplitAtFirst(s, d).1.Some? ==> s == SplitAtFirst(s, d).0 + [d] + SplitAtFirst(s, d).1.value
  {
    if s != [] && s[0] != d {
      SplitAtFirstSplits(s[1..], d);
      assert s == [s[0]] + s[1..];
    }
  }

  /** explode($d, $h . $d . $x, 2) splits at the d after h when h holds no d. */
  lemma {:induction false} SplitAtFirstOf(h: string, x: string, d: char)
    requires d !in h
    ensures SplitAtFirst(h + [d] + x, d) == (h, Some(x))
    decreases |h|
  {
    var s := h + [d] + x;
    if h == [] {
      assert s[1..] == x;
    } else {
      assert s[1..] == h[1..] + [d] + x;
      SplitAtFirstOf(h[1..], x, d);
      assert [h[0]] + h[1..] == h;
    }
  }
}
