/** The ECMAScript string primitives the route handlers rely on:
    `String.prototype.trim`, the UTF-16 `length` of a string, and
    `parseInt(s, 10)`. */
module Text {
  import opened Wrappers

  /** ECMAScript WhiteSpace and LineTerminator code points: exactly the set
      that `trim` removes and that `parseInt` skips. */
  predicate IsWhitespace(c: char)
  {
    || c == '\t' || c == '\n' || c == '\U{000B}' || c == '\U{000C}' || c == '\r'
    || c == ' ' || c == '\U{00A0}' || c == '\U{1680}'
    || ('\U{2000}' <= c <= '\U{200A}')
    || c == '\U{2028}' || c == '\U{2029}' || c == '\U{202F}' || c == '\U{205F}'
    || c == '\U{3000}' || c == '\U{FEFF}'
  }

  /** A string made only of whitespace (the empty string included). */
  predicate IsBlank(s: string)
  {
    forall i :: 0 <= i < |s| ==> IsWhitespace(s[i])
  }

  /** `s` with its leading whitespace removed. */
  function TrimStart(s: string): (r: string)
    ensures |r| <= |s| && r == s[|s| - |r|..]
    ensures forall i :: 0 <= i < |s| - |r| ==> IsWhitespace(s[i])
    ensures r != [] ==> !IsWhitespace(r[0])
  {
    if s != [] && IsWhitespace(s[0]) then TrimStart(s[1..]) else s
  }

  /** `s` with its trailing whitespace removed. */
  function TrimEnd(s: string): (r: string)
    ensures |r| <= |s| && r == s[..|r|]
    ensures forall i :: |r| <= i < |s| ==> IsWhitespace(s[i])
    ensures r != [] ==> !IsWhitespace(r[|r| - 1])
  {
    if s != [] && IsWhitespace(s[|s| - 1]) then TrimEnd(s[..|s| - 1]) else s
  }

  /** `r` is the part of `s` starting at `k`, with only whitespace before and after it. */
  predicate Unpads(s: string, k: nat, r: string)
  {
    && k + |r| <= |s| && r == s[k..k + |r|]
    && (forall i :: 0 <= i < k ==> IsWhitespace(s[i]))
    && (forall i :: k + |r| <= i < |s| ==> IsWhitespace(s[i]))
  }

  /** `String.prototype.trim`: a contiguous slice of `s` that neither starts
      nor ends with whitespace, and is empty exactly when `s` is blank. */
  function Trim(s: string): (r: string)
    ensures |r| <= |s|
    ensures r != [] ==> !IsWhitespace(r[0]) && !IsWhitespace(r[|r| - 1])
    ensures r == [] <==> IsBlank(s)
    ensures exists k :: Unpads(s, k, r)
  {
    TrimSlice(s);
    TrimEnd(TrimStart(s))
  }

  /** Trimming the start and then the end removes a whitespace prefix and a
      whitespace suffix. */
  lemma TrimSlice(s: string)
    ensures Unpads(s, |s| - |TrimStart(s)|, TrimEnd(TrimStart(s)))
  {
    UnpadsCompose(s, TrimStart(s), TrimEnd(TrimStart(s)));
  }

  /** Dropping a whitespace prefix of `s` to get `t`, then a whitespace suffix
      of `t` to get `r`, leaves `r` unpadded within `s`. */
  lemma UnpadsCompose(s: string, t: string, r: string)
    requires |t| <= |s| && t == s[|s| - |t|..]
    requires forall i :: 0 <= i < |s| - |t| ==> IsWhitespace(s[i])
    requires |r| <= |t| && r == t[..|r|]
    requires forall i :: |r| <= i < |t| ==> IsWhitespace(t[i])
    ensures Unpads(s, |s| - |t|, r)
  {
    var k := |s| - |t|;
    assert r == s[k..k + |r|];
    forall i | k + |r| <= i < |s| ensures IsWhitespace(s[i]) {
      assert s[i] == t[i - k];
    }
  }

  /** Trimming twice is trimming once. */
  lemma TrimIdempotent(s: string)
    ensures Trim(Trim(s)) == Trim(s)
  {
    var t := Trim(s);
    if t != [] {
      assert TrimStart(t) == t;
      assert TrimEnd(t) == t;
    }
  }

  /** A string that neither starts nor ends with whitespace is its own trim. */
  lemma TrimUnpadded(s: string)
    requires s != [] && !IsWhitespace(s[0]) && !IsWhitespace(s[|s| - 1])
    ensures Trim(s) == s
  {
    assert TrimStart(s) == s;
    assert TrimEnd(s) == s;
  }

  /** The UTF-16 code-unit count of `s` (JavaScript's `length`): code points
      above U+FFFF take a surrogate pair. */
  function Utf16Length(s: string): (n: nat)
    ensures |s| <= n <= 2 * |s|
  {
    if s == [] then 0
    else (if s[0] as int > 0xFFFF then 2 else 1) + Utf16Length(s[1..])
  }

  predicate IsDigit(c: char)
  {
    '0' <= c <= '9'
  }

  /** The longest prefix of `s` made of decimal digits. */
  function DigitPrefix(s: string): (r: string)
    ensures |r| <= |s| && r == s[..|r|]
    ensures forall i :: 0 <= i < |r| ==> IsDigit(r[i])
    ensures |r| < |s| ==> !IsDigit(s[|r|])
  {
    if s != [] && IsDigit(s[0]) then [s[0]] + DigitPrefix(s[1..]) else []
  }

  /** The value of a string of decimal digits, read most significant first. */
  function DigitsValue(s: string): nat
    requires forall i :: 0 <= i < |s| ==> IsDigit(s[i])
  {
    if s == [] then 0
    else
      assert IsDigit(s[|s| - 1]);
      10 * DigitsValue(s[..|s| - 1]) + (s[|s| - 1] as int - '0' as int)
  }

  /** `parseInt(s, 10)`: skip leading whitespace, read an optional sign and the
      longest run of digits after it; `None` stands for `NaN` (no digits). */
  function ParseInt10(s: string): (r: Option<int>)
    ensures r.None? <==> DigitPrefix(UnsignedPart(TrimStart(s))) == []
  {
    var t := TrimStart(s);
    var z := DigitPrefix(UnsignedPart(t));
    if z == [] then None
    else
      var v: int := DigitsValue(z);
      Some(if t[0] == '-' then -v else v)
  }

  /** `t` without one leading `+` or `-` sign. */
  function UnsignedPart(t: string): string
  {
    if t != [] && (t[0] == '-' || t[0] == '+') then t[1..] else t
  }

  /** The decimal rendering of a natural number, without leading zeros. */
  function Decimal(n: nat): (r: string)
    ensures r != [] && forall i :: 0 <= i < |r| ==> IsDigit(r[i])
  {
    var d := ['0' + (n % 10) as char];
    if n < 10 then d else Decimal(n / 10) + d
  }

  /** Reading back the decimal rendering of `n` gives `n`. */
  lemma {:induction false} DecimalValue(n: nat)
    ensures DigitsValue(Decimal(n)) == n
  {
    var r := Decimal(n);
    assert r[|r| - 1] as int - '0' as int == n % 10;
    if n >= 10 {
      assert r[..|r| - 1] == Decimal(n / 10);
      DecimalValue(n / 10);
    }
  }

  /** `parseInt` inverts the decimal rendering of every natural number. */
  lemma ParseDecimal(n: nat)
    ensures ParseInt10(Decimal(n)) == Some(n)
  {
    assert [] + [] + Decimal(n) + [] == Decimal(n);
    ParseSpelled([], [], n, []);
  }

  /** `parseInt(s, 10)` reads the number spelled after any leading whitespace
      and an optional sign, and ignores whatever follows the digits. */
  lemma ParseSpelled(ws: string, sign: string, n: nat, rest: string)
    requires IsBlank(ws)
    requires sign == "" || sign == "+" || sign == "-"
    requires rest == [] || !IsDigit(rest[0])
    ensures ParseInt10(ws + sign + Decimal(n) + rest) == Some(if sign == "-" then -(n as int) else n as int)
  {
    var d := Decimal(n);
    DecimalValue(n);
    assert (if sign == "-" then -(DigitsValue(d) as int) else DigitsValue(d) as int)
           == (if sign == "-" then -(n as int) else n as int);
    ParseDigits(ws, sign, d, rest);
  }

  /** `parseInt(s, 10)` of a run of digits after whitespace and a sign. */
  lemma ParseDigits(ws: string, sign: string, d: string, rest: string)
    requires IsBlank(ws)
    requires sign == "" || sign == "+" || sign == "-"
    requires d != [] && forall i :: 0 <= i < |d| ==> IsDigit(d[i])
    requires rest == [] || !IsDigit(rest[0])
    ensures ParseInt10(ws + sign + d + rest) == Some(if sign == "-" then -(DigitsValue(d) as int) else DigitsValue(d) as int)
  {
    var t := sign + (d + rest);
    ConcatAssoc(ws, sign, d, rest);
    UnsignedSigned(sign, d + rest);
    TrimStartBlank(ws, t);
    DigitPrefixStops(d, rest);
    ParseRead(ws + t, t, d, rest);
  }

  /** Once the trimmed start, the unsigned part and the digit prefix are known,
      `parseInt` reads the prefix's value with the sign's polarity. */
  lemma ParseRead(s: string, t: string, d: string, rest: string)
    requires TrimStart(s) == t && t != [] && UnsignedPart(t) == d + rest
    requires d != [] && forall i :: 0 <= i < |d| ==> IsDigit(d[i])
    requires DigitPrefix(d + rest) == d
    ensures ParseInt10(s) == Some(if t[0] == '-' then -(DigitsValue(d) as int) else DigitsValue(d) as int)
  {
  }

  lemma ConcatAssoc(a: string, b: string, c: string, e: string)
    ensures a + b + c + e == a + (b + (c + e))
  {
  }

  /** Reading past an optional sign. */
  lemma UnsignedSigned(sign: string, u: string)
    requires sign == "" || sign == "+" || sign == "-"
    requires u != [] && IsDigit(u[0])
    ensures UnsignedPart(sign + u) == u
    ensures (sign + u)[0] == '-' <==> sign == "-"
    ensures !IsWhitespace((sign + u)[0])
  {
    if sign == [] {
      assert sign + u == u;
    } else {
      assert (sign + u)[0] == sign[0] && (sign + u)[1..] == u;
    }
  }

  /** Leading whitespace is all that `TrimStart` removes. */
  lemma {:induction false} TrimStartBlank(ws: string, t: string)
    requires IsBlank(ws)
    requires t == [] || !IsWhitespace(t[0])
    ensures TrimStart(ws + t) == t
  {
    if ws != [] {
      assert (ws + t)[0] == ws[0];
      assert (ws + t)[1..] == ws[1..] + t;
      TrimStartBlank(ws[1..], t);
    } else {
      assert ws + t == t;
    }
  }

  /** The digit prefix stops at the first character that is not a digit. */
  lemma {:induction false} DigitPrefixStops(d: string, rest: string)
    requires forall i :: 0 <= i < |d| ==> IsDigit(d[i])
    requires rest == [] || !IsDigit(rest[0])
    ensures DigitPrefix(d + rest) == d
  {
    if d != [] {
      assert (d + rest)[0] == d[0];
      assert (d + rest)[1..] == d[1..] + rest;
      DigitPrefixStops(d[1..], rest);
    } else {
      assert d + rest == rest;
    }
  }

  /** `parseInt` ignores the text after the digits: `"10abc"` reads as 10. */
  lemma ParseTrailingExample(s: string)
    requires s == "10abc"
    ensures ParseInt10(s) == Some(10)
  {
    assert Decimal(10) == "10";
    assert s == "" + "" + Decimal(10) + "abc";
    ParseSpelled("", "", 10, "abc");
  }

  /** `parseInt` skips leading whitespace and reads a plus sign: `"  +5"` reads as 5. */
  lemma ParsePaddedExample(s: string)
    requires s == "  +5"
    ensures ParseInt10(s) == Some(5)
  {
    assert Decimal(5) == "5";
    assert s == "  " + "+" + Decimal(5) + "";
    ParseSpelled("  ", "+", 5, "");
  }

  /** `parseInt` reads a minus sign: `"-3"` reads as -3. */
  lemma ParseNegativeExample(s: string)
    requires s == "-3"
    ensures ParseInt10(s) == Some(-3)
  {
    assert Decimal(3) == "3";
    assert s == "" + "-" + Decimal(3) + "";
    ParseSpelled("", "-", 3, "");
  }

  /** A string of digits is its own digit prefix. */
  lemma {:induction false} DigitPrefixOfDigits(s: string)
    requires forall i :: 0 <= i < |s| ==> IsDigit(s[i])
    ensures DigitPrefix(s) == s
  {
    if s != [] {
      DigitPrefixOfDigits(s[1..]);
    }
  }
}
