/**
 * The few pieces of Java semantics the model depends on: 32-bit `int`,
 * `null`, `String.trim`, `Integer.parseInt`, `String.valueOf(int)` and
 * integer division, which truncates toward zero.
 */
module JavaLang {

  const INT_MIN: int := -0x8000_0000
  const INT_MAX: int := 0x7fff_ffff
  const TWO_32: int := 0x1_0000_0000

  /** A Java `int`. */
  type Int32 = x: int | INT_MIN <= x <= INT_MAX

  /** A Java `long` (the timestamps). */
  type Int64 = x: int | -0x8000_0000_0000_0000 <= x <= 0x7fff_ffff_ffff_ffff

  /** A Java reference that may be `null`. */
  datatype Option<+T> = None | Some(value: T)

  /** Java `int` arithmetic keeps the low 32 bits in two's complement. */
  function Wrap32(x: int): (r: Int32)
    ensures (r - x) % TWO_32 == 0
    ensures INT_MIN <= x <= INT_MAX ==> r == x
  {
    var m := x % TWO_32;
    if m <= INT_MAX then m else m - TWO_32
  }

  /** Wrapping commutes with addition: a running `int` sum equals the wrapped true sum. */
  lemma WrapAdd(a: int, b: int)
    ensures Wrap32(Wrap32(a) + b) == Wrap32(a + b)
  {
    var w := Wrap32(a);
    assert (w + b) % TWO_32 == (a + b) % TWO_32 by {
      assert (w - a) % TWO_32 == 0;
      var q := (w - a) / TWO_32;
      assert w + b == (a + b) + q * TWO_32;
    }
  }

  /** Java's `/` on `int` truncates toward zero (Dafny's `/` is Euclidean). */
  function JavaDiv(a: int, b: int): (r: int)
    requires b > 0
    ensures a >= 0 ==> r == a / b
    ensures a < 0 ==> r == -((-a) / b)
  {
    if a >= 0 then a / b else -((-a) / b)
  }

  predicate IsAsciiDigit(c: char) { '0' <= c <= '9' }

  predicate IsAsciiLetter(c: char) { 'A' <= c <= 'Z' || 'a' <= c <= 'z' }

  predicate AllDigits(s: string) { forall i :: 0 <= i < |s| ==> IsAsciiDigit(s[i]) }

  // ---------------------------------------------------------------------
  // String.length(): Java strings are UTF-16, so a char outside the Basic
  // Multilingual Plane takes two units, while a Dafny `char` is one scalar value.

  predicate InBmp(c: char) { c as int < 0x1_0000 }

  function Utf16Length(s: string): (n: nat)
    ensures |s| <= n <= 2 * |s|
  {
    if s == [] then 0 else (if InBmp(s[0]) then 1 else 2) + Utf16Length(s[1..])
  }

  /** A string of BMP chars has as many UTF-16 units as chars. */
  lemma {:induction false} Utf16LengthOfBmp(s: string)
    requires forall i :: 0 <= i < |s| ==> InBmp(s[i])
    ensures Utf16Length(s) == |s|
  {
    if s != [] {
      assert InBmp(s[0]);
      Utf16LengthOfBmp(s[1..]);
    }
  }

  // ---------------------------------------------------------------------
  // String.trim(): drops every leading and trailing char whose code is <= ' '.

  predicate IsTrimmable(c: char) { c <= ' ' }

  function TrimStart(s: string): (r: string)
    ensures |r| <= |s| && r == s[|s| - |r|..]
    ensures r != [] ==> !IsTrimmable(r[0])
    ensures forall i :: 0 <= i < |s| - |r| ==> IsTrimmable(s[i])
    decreases |s|
  {
    if s != [] && IsTrimmable(s[0]) then TrimStart(s[1..]) else s
  }

  function TrimEnd(s: string): (r: string)
    ensures |r| <= |s| && r == s[..|r|]
    ensures r != [] ==> !IsTrimmable(r[|r| - 1])
    ensures forall i :: |r| <= i < |s| ==> IsTrimmable(s[i])
    decreases |s|
  {
    if s != [] && IsTrimmable(s[|s| - 1]) then TrimEnd(s[..|s| - 1]) else s
  }

  function Trim(s: string): string
  {
    TrimEnd(TrimStart(s))
  }

  lemma {:induction false} TrimStartOfBlank(s: string)
    requires forall i :: 0 <= i < |s| ==> IsTrimmable(s[i])
    ensures TrimStart(s) == []
    decreases |s|
  {
    if s != [] {
      TrimStartOfBlank(s[1..]);
    }
  }

  /** `s.trim().isEmpty()` holds exactly when every char of `s` is trimmable (blank). */
  lemma TrimEmptyIffBlank(s: string)
    ensures Trim(s) == [] <==> forall i :: 0 <= i < |s| ==> IsTrimmable(s[i])
  {
    if forall i :: 0 <= i < |s| ==> IsTrimmable(s[i]) {
      TrimStartOfBlank(s);
    }
  }

  // ---------------------------------------------------------------------
  // Integer.parseInt (ASCII decimal digits) and String.valueOf(int).

  function Digit(c: char): (d: nat)
    requires IsAsciiDigit(c)
    ensures d < 10
  {
    c as int - '0' as int
  }

  function DigitChar(d: nat): (c: char)
    requires d < 10
    ensures IsAsciiDigit(c) && Digit(c) == d
  {
    ('0' as int + d) as char
  }

  /** The value of a run of decimal digits, most significant first. */
  function DigitsValue(ds: string): nat
    requires AllDigits(ds)
    decreases |ds|
  {
    if ds == [] then 0 else DigitsValue(ds[..|ds| - 1]) * 10 + Digit(ds[|ds| - 1])
  }

  /**
   * `Integer.parseInt(s)`: an optional sign then at least one digit, and the
   * value must fit in an `int`; anything else throws NumberFormatException (None).
   */
  function ParseInt(s: string): Option<Int32>
  {
    var signed := |s| > 0 && (s[0] == '-' || s[0] == '+');
    var body := if signed then s[1..] else s;
    if body == [] || !AllDigits(body) then None
    else
      var v: int := if signed && s[0] == '-' then 0 - DigitsValue(body) else DigitsValue(body);
      if INT_MIN <= v <= INT_MAX then Some(v) else None
  }

  /** The decimal digits of a natural number, as `String.valueOf` writes them. */
  function NatDigits(n: nat): (ds: string)
    ensures ds != [] && AllDigits(ds)
    decreases n
  {
    if n < 10 then [DigitChar(n)] else NatDigits(n / 10) + [DigitChar(n % 10)]
  }

  /** `String.valueOf(int)`. */
  function IntToString(n: Int32): string
  {
    var m: int := n;
    if m < 0 then ['-'] + NatDigits(-m) else NatDigits(m)
  }

  lemma {:induction false} NatDigitsValue(n: nat)
    ensures DigitsValue(NatDigits(n)) == n
    decreases n
  {
    if n >= 10 {
      var ds := NatDigits(n);
      assert ds[..|ds| - 1] == NatDigits(n / 10);
      NatDigitsValue(n / 10);
    }
  }

  /** Parsing what `String.valueOf` printed gives the number back. */
  lemma ParseIntOfIntToString(n: Int32)
    ensures ParseInt(IntToString(n)) == Some(n)
  {
    var m: int := n;
    if m < 0 {
      NatDigitsValue(-m);
      assert IntToString(n)[1..] == NatDigits(-m);
    } else {
      NatDigitsValue(n);
    }
  }

  function Pow10(k: nat): (p: nat)
    ensures p >= 1
  {
    if k == 0 then 1 else 10 * Pow10(k - 1)
  }

  /** A run of k digits is worth less than 10^k. */
  lemma {:induction false} DigitsValueBelow(ds: string)
    requires AllDigits(ds)
    ensures DigitsValue(ds) < Pow10(|ds|)
    decreases |ds|
  {
    if ds != [] {
      DigitsValueBelow(ds[..|ds| - 1]);
    }
  }

  /** The leading digit contributes its weight: value(d ++ rest) == d * 10^|rest| + value(rest). */
  lemma {:induction false} DigitsValueHead(ds: string)
    requires ds != [] && AllDigits(ds)
    ensures DigitsValue(ds) == Digit(ds[0]) * Pow10(|ds| - 1) + DigitsValue(ds[1..])
    decreases |ds|
  {
    if |ds| > 1 {
      var init := ds[..|ds| - 1];
      assert init[0] == ds[0];
      assert ds[1..][..|ds[1..]| - 1] == init[1..];
      DigitsValueHead(init);
      var d, p := Digit(ds[0]), Pow10(|ds| - 2);
      calc {
        DigitsValue(ds);
        DigitsValue(init) * 10 + Digit(ds[|ds| - 1]);
        (d * p + DigitsValue(init[1..])) * 10 + Digit(ds[|ds| - 1]);
        d * (p * 10) + (DigitsValue(init[1..]) * 10 + Digit(ds[|ds| - 1]));
        d * Pow10(|ds| - 1) + DigitsValue(ds[1..]);
      }
    } else {
      assert ds[1..] == [];
    }
  }
}
