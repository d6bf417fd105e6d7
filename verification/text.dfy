/** Character classes and the string conversions the two programs rely on:
    JavaScript's `trim` and `Number(...)`, PHP's `(int)` cast of a query-string
    value, the decimal rendering of an integer, and code-point string order. */
module Text {
  import opened Optional

  predicate IsDigit(c: char) {
    '0' <= c <= '9'
  }

  function DigitValue(c: char): nat
    requires IsDigit(c)
  {
    (c as int) - ('0' as int)
  }

  function DigitChar(d: nat): (c: char)
    requires d < 10
    ensures IsDigit(c) && DigitValue(c) == d
  {
    ('0' as int + d) as char
  }

  /** ECMAScript WhiteSpace and LineTerminator code points: what
      `String.prototype.trim` and `Number(...)` strip from both ends. */
  predicate IsJsSpace(c: char) {
    || c == ' ' || c == '\t' || c == '\n' || c == '\r'
    || c == '\U{000B}' || c == '\U{000C}' || c == '\U{00A0}' || c == '\U{1680}'
    || ('\U{2000}' <= c <= '\U{200A}')
    || c == '\U{2028}' || c == '\U{2029}' || c == '\U{202F}' || c == '\U{205F}'
    || c == '\U{3000}' || c == '\U{FEFF}'
  }

  /** The whitespace PHP skips before the digits of a numeric string. */
  predicate IsPhpSpace(c: char) {
    c == ' ' || c == '\t' || c == '\n' || c == '\r' || c == '\U{000B}' || c == '\U{000C}'
  }

  /** Length of the longest prefix of `s` whose characters all satisfy `p`. */
  function Leading(s: string, p: char -> bool): (n: nat)
    ensures n <= |s|
    ensures forall i :: 0 <= i < n ==> p(s[i])
    ensures n == |s| || !p(s[n])
  {
    if s == [] || !p(s[0]) then 0 else 1 + Leading(s[1..], p)
  }

  /** Length of the longest suffix of `s` whose characters all satisfy `p`. */
  function Trailing(s: string, p: char -> bool): (n: nat)
    ensures n <= |s|
    ensures forall i :: |s| - n <= i < |s| ==> p(s[i])
    ensures n == |s| || !p(s[|s| - n - 1])
  {
    if s == [] || !p(s[|s| - 1]) then 0 else 1 + Trailing(s[..|s| - 1], p)
  }

  /** JavaScript `String.prototype.trim`. */
  function Trim(s: string): (r: string)
    ensures |r| <= |s|
    ensures r == [] <==> forall i :: 0 <= i < |s| ==> IsJsSpace(s[i])
    ensures r != [] ==> !IsJsSpace(r[0]) && !IsJsSpace(r[|r| - 1])
  {
    var a := Leading(s, IsJsSpace);
    if a == |s| then []
    else
      var b := |s| - Trailing(s, IsJsSpace);
      assert a < b by {
        assert !IsJsSpace(s[a]);
      }
      s[a..b]
  }

  /** Value of a string of decimal digits, most significant first. */
  function DigitsValue(ds: string): nat
    requires forall i :: 0 <= i < |ds| ==> IsDigit(ds[i])
  {
    if ds == [] then 0 else 10 * DigitsValue(ds[..|ds| - 1]) + DigitValue(ds[|ds| - 1])
  }

  const Int64Min: int := -0x8000_0000_0000_0000
  const Int64Max: int := 0x7FFF_FFFF_FFFF_FFFF

  /** PHP converts an out-of-range numeric string to the nearest 64-bit integer. */
  function Saturate(n: int): (r: int)
    ensures Int64Min <= r <= Int64Max
    ensures Int64Min <= n <= Int64Max ==> r == n
  {
    if n < Int64Min then Int64Min else if n > Int64Max then Int64Max else n
  }

  /** 2^1024 - 2^970, the least integer that rounds to infinity as a double: half
      an ulp above the largest finite double, where rounding to even goes up. */
  const DoubleOverflow: int :=
    0xFFFFFFFFFFFFFC00_0000000000000000_0000000000000000_0000000000000000_0000000000000000_0000000000000000_0000000000000000_0000000000000000_0000000000000000_0000000000000000_0000000000000000_0000000000000000_0000000000000000_0000000000000000_0000000000000000_0000000000000000

  /** The 64-bit integer PHP makes of a digit run's value. A run too long for an
      integer is read as a double and capped at the 64-bit range, and a double
      that overflowed to infinity casts to 0. */
  function CapLong(n: int): (r: int)
    ensures Int64Min <= r <= Int64Max
    ensures Int64Min <= n <= Int64Max ==> r == n
    ensures Int64Max < n < DoubleOverflow ==> r == Int64Max
    ensures -DoubleOverflow < n < Int64Min ==> r == Int64Min
    ensures n <= -DoubleOverflow || DoubleOverflow <= n ==> r == 0
  {
    if n <= -DoubleOverflow || DoubleOverflow <= n then 0 else Saturate(n)
  }

  /** The sign character, if any, at the head of `t`, and the text after it. */
  function SignSplit(t: string): (bool, string)
  {
    if t != [] && (t[0] == '-' || t[0] == '+') then (t[0] == '-', t[1..]) else (false, t)
  }

  /** Whether `s` opens with a number PHP can read: a digit after the leading
      whitespace and an optional sign. */
  predicate StartsWithNumber(s: string) {
    var u := SignSplit(s[Leading(s, IsPhpSpace)..]).1;
    u != [] && IsDigit(u[0])
  }

  /** PHP's `(int)` cast of a string: leading whitespace, an optional sign and
      the longest run of decimal digits that follows; no digits gives 0, and a
      value beyond the 64-bit range is capped, or gives 0 beyond the doubles. */
  function PhpIntCast(s: string): (r: int)
    ensures Int64Min <= r <= Int64Max
    ensures !StartsWithNumber(s) ==> r == 0
    ensures (forall i :: 0 <= i < |s| ==> !IsDigit(s[i])) ==> r == 0
  {
    var t := s[Leading(s, IsPhpSpace)..];
    var (negative, u) := SignSplit(t);
    var magnitude: int := DigitsValue(u[..Leading(u, IsDigit)]);
    assert magnitude > 0 ==> exists i :: 0 <= i < |s| && IsDigit(s[i]) by {
      if magnitude > 0 {
        var k := Leading(u, IsDigit);
        assert k > 0;
        assert u[0] in s;
      }
    }
    CapLong(if negative then -magnitude else magnitude)
  }

  /** JavaScript's `Number(s)` restricted to integers: `None` stands for `NaN`.
      The trimmed text is either empty (giving 0) or an optional sign followed by
      decimal digits and nothing else. */
  function JsNumber(s: string): (r: Option<int>)
    ensures (forall i :: 0 <= i < |s| ==> IsJsSpace(s[i])) ==> r == Some(0)
  {
    var t := Trim(s);
    if t == [] then Some(0)
    else
      var (negative, u) := SignSplit(t);
      if u != [] && Leading(u, IsDigit) == |u| then
        var magnitude: int := DigitsValue(u);
        Some(if negative then -magnitude else magnitude)
      else None
  }

  /** Decimal rendering of a natural number, without leading zeros. */
  function ShowNat(n: nat): (r: string)
    ensures r != []
    ensures forall i :: 0 <= i < |r| ==> IsDigit(r[i])
    ensures DigitsValue(r) == n
  {
    if n < 10 then [DigitChar(n)]
    else
      var r := ShowNat(n / 10) + [DigitChar(n % 10)];
      assert r[..|r| - 1] == ShowNat(n / 10);
      r
  }

  /** Decimal rendering of an integer, as JavaScript's `String(n)` writes it. */
  function ShowInt(n: int): string {
    if n < 0 then "-" + ShowNat(-n) else ShowNat(n)
  }

  lemma {:induction false} LeadingAppend(d: string, rest: string, p: char -> bool)
    requires forall i :: 0 <= i < |d| ==> p(d[i])
    requires rest == [] || !p(rest[0])
    ensures Leading(d + rest, p) == |d|
  {
    if d != [] {
      assert (d + rest)[1..] == d[1..] + rest;
      LeadingAppend(d[1..], rest, p);
    } else {
      assert d + rest == rest;
    }
  }

  /** The cast of text with no leading whitespace, given how its sign splits off. */
  lemma PhpIntCastUnsigned(s: string, negative: bool, u: string)
    requires Leading(s, IsPhpSpace) == 0
    requires SignSplit(s) == (negative, u)
    ensures var magnitude: int := DigitsValue(u[..Leading(u, IsDigit)]);
      PhpIntCast(s) == CapLong(if negative then -magnitude else magnitude)
  {
    assert s[0..] == s;
  }

  /** The decimal text of `n` has no leading whitespace, and its sign splits off
      to leave the digits of the magnitude. */
  lemma ShowIntSignSplit(n: int, rest: string)
    ensures var s := ShowInt(n) + rest;
      && Leading(s, IsPhpSpace) == 0
      && SignSplit(s) == (n < 0, ShowNat(if n < 0 then -n else n) + rest)
  {
    var s := ShowInt(n) + rest;
    var digits := ShowNat(if n < 0 then -n else n);
    assert s[0] == ShowInt(n)[0];
    if n < 0 {
      assert s == "-" + (digits + rest);
    } else {
      assert s[0] == digits[0];
      assert IsDigit(digits[0]);
    }
  }

  /** PHP reads the leading number of a string and ignores what follows it: the
      decimal text of an integer followed by text that continues neither its
      digits nor a fraction or exponent casts to that integer when it fits in 64
      bits, to the nearer 64-bit bound when it is a finite double, and to 0 when
      it overflows the doubles. */
  lemma PhpIntCastLeadingNumber(n: int, rest: string)
    requires rest == [] || !(IsDigit(rest[0]) || rest[0] in ".eE")
    ensures Int64Min <= n <= Int64Max ==> PhpIntCast(ShowInt(n) + rest) == n
    ensures Int64Max < n < DoubleOverflow ==> PhpIntCast(ShowInt(n) + rest) == Int64Max
    ensures -DoubleOverflow < n < Int64Min ==> PhpIntCast(ShowInt(n) + rest) == Int64Min
    ensures n <= -DoubleOverflow || DoubleOverflow <= n ==> PhpIntCast(ShowInt(n) + rest) == 0
  {
    var digits := ShowNat(if n < 0 then -n else n);
    var u := digits + rest;
    ShowIntSignSplit(n, rest);
    PhpIntCastUnsigned(ShowInt(n) + rest, n < 0, u);
    LeadingAppend(digits, rest, IsDigit);
    assert u[..|digits|] == digits;
  }

  /** PHP reads back the decimal text of every 64-bit integer. */
  lemma PhpIntCastShowInt(n: int)
    requires Int64Min <= n <= Int64Max
    ensures PhpIntCast(ShowInt(n)) == n
  {
    PhpIntCastLeadingNumber(n, []);
    assert ShowInt(n) + [] == ShowInt(n);
  }

  /** 2^53: every integer of at most this magnitude is a JavaScript number exactly. */
  const JsExactLimit: int := 0x20_0000_0000_0000

  /** JavaScript's `Number` reads back the decimal text of every integer it
      represents exactly. */
  lemma JsNumberShowInt(n: int)
    requires -JsExactLimit <= n <= JsExactLimit
    ensures JsNumber(ShowInt(n)) == Some(n)
  {
    var s := ShowInt(n);
    assert Leading(s, IsJsSpace) == 0 by {
      assert !IsJsSpace(s[0]);
    }
    assert Trailing(s, IsJsSpace) == 0 by {
      assert !IsJsSpace(s[|s| - 1]);
    }
    assert Trim(s) == s;
    var digits := if n < 0 then ShowNat(-n) else ShowNat(n);
    assert SignSplit(s) == (n < 0, digits);
    assert Leading(digits, IsDigit) == |digits|;
  }

  /** Code-point lexicographic order on strings. */
  predicate StrLe(a: string, b: string)
    decreases |a|
  {
    a == [] || (b != [] && (a[0] < b[0] || (a[0] == b[0] && StrLe(a[1..], b[1..]))))
  }

  lemma {:induction false} StrLeTotal(a: string, b: string)
    ensures StrLe(a, b) || StrLe(b, a)
    decreases |a|
  {
    if a != [] && b != [] && a[0] == b[0] {
      StrLeTotal(a[1..], b[1..]);
    }
  }

  lemma {:induction false} StrLeTransitive(a: string, b: string, c: string)
    requires StrLe(a, b) && StrLe(b, c)
    ensures StrLe(a, c)
    decreases |a|
  {
    if a != [] && a[0] == b[0] && b[0] == c[0] {
      StrLeTransitive(a[1..], b[1..], c[1..]);
    }
  }
}
