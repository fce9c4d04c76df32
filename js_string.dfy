/** The JavaScript string built-ins the dashboards rely on, on `seq<char>`:
    `String.prototype.split` with a one-character separator, `trim`, `parseInt(v, 10)`,
    `Number.prototype.toFixed(2)` on whole hundredths, and the default `Array.prototype.sort`
    comparison of strings. */
module JsString {
  import opened Wrappers

  // ---------------------------------------------------------------------------
  // Whitespace, trimming

  /** The WhiteSpace and LineTerminator code points of ECMA-262 (sections 12.2 and 12.3):
      what `trim` removes and what `parseInt` skips. */
  predicate IsWhitespace(c: char) {
    || c == '\t' || c == '\n' || c == '\U{B}' || c == '\U{C}' || c == '\r'
    || c == ' ' || c == '\U{A0}' || c == '\U{1680}'
    || ('\U{2000}' <= c <= '\U{200A}')
    || c == '\U{2028}' || c == '\U{2029}' || c == '\U{202F}' || c == '\U{205F}'
    || c == '\U{3000}' || c == '\U{FEFF}'
  }

  /** Leading whitespace removed. */
  function TrimStart(s: string): (r: string)
    ensures |r| <= |s| && r == s[|s| - |r|..]
    ensures r == [] || !IsWhitespace(r[0])
    ensures forall i :: 0 <= i < |s| - |r| ==> IsWhitespace(s[i])
  {
    if s != [] && IsWhitespace(s[0]) then TrimStart(s[1..]) else s
  }

  /** Trailing whitespace removed. */
  function TrimEnd(s: string): (r: string)
    ensures |r| <= |s| && r == s[..|r|]
    ensures r == [] || !IsWhitespace(r[|r| - 1])
    ensures forall i :: |r| <= i < |s| ==> IsWhitespace(s[i])
  {
    if s != [] && IsWhitespace(s[|s| - 1]) then TrimEnd(s[..|s| - 1]) else s
  }

  /** `r` is the part of `s` from position `k` on, with only whitespace before and after it. */
  predicate IsInfixBetweenWhitespace(s: string, r: string, k: int) {
    && 0 <= k <= |s| - |r| && r == s[k..k + |r|]
    && (forall i :: 0 <= i < k ==> IsWhitespace(s[i]))
    && (forall i :: k + |r| <= i < |s| ==> IsWhitespace(s[i]))
  }

  /** `s.trim()`: the part of `s` left between leading and trailing whitespace; it neither
      starts nor ends with whitespace. */
  function Trim(s: string): (r: string)
    ensures r == [] || (!IsWhitespace(r[0]) && !IsWhitespace(r[|r| - 1]))
    ensures exists k :: IsInfixBetweenWhitespace(s, r, k)
  {
    var t := TrimStart(s);
    TrimmedInfix(s, t, TrimEnd(t));
    TrimEnd(t)
  }

  /** What TrimStart and TrimEnd promise, put together. */
  lemma {:induction false} TrimmedInfix(s: string, t: string, r: string)
    requires |t| <= |s| && t == s[|s| - |t|..]
    requires forall i :: 0 <= i < |s| - |t| ==> IsWhitespace(s[i])
    requires |r| <= |t| && r == t[..|r|]
    requires forall i :: |r| <= i < |t| ==> IsWhitespace(t[i])
    ensures IsInfixBetweenWhitespace(s, r, |s| - |t|)
  {
    var k := |s| - |t|;
    InfixOfSuffix(s, k, r);
    forall i | k + |r| <= i < |s| ensures IsWhitespace(s[i]) {
      assert s[i] == t[i - k];
    }
  }

  /** A prefix of the suffix from `k` on is the slice starting at `k`. */
  lemma {:induction false} InfixOfSuffix<T>(s: seq<T>, k: nat, r: seq<T>)
    requires k <= |s| && |r| <= |s| - k && r == s[k..][..|r|]
    ensures r == s[k..k + |r|]
  {
  }

  /** `!s.trim()`: the string is empty once trimmed. */
  predicate IsBlank(s: string) {
    Trim(s) == []
  }

  /** A string is blank exactly when every character of it is whitespace. */
  lemma BlankIffAllWhitespace(s: string)
    ensures IsBlank(s) <==> forall i :: 0 <= i < |s| ==> IsWhitespace(s[i])
  {
    var t := TrimStart(s);
    if IsBlank(s) {
      forall i | 0 <= i < |s|
        ensures IsWhitespace(s[i])
      {
      }
    }
  }

  // ---------------------------------------------------------------------------
  // split with a one-character separator

  /** `s.split(sep)`: always at least one part; the empty string gives `[""]`. */
  function Split(s: string, sep: char): (parts: seq<string>)
    ensures |parts| >= 1
    ensures forall i :: 0 <= i < |parts| ==> sep !in parts[i]
  {
    if s == [] then [[]]
    else
      var rest := Split(s[1..], sep);
      if s[0] == sep then [[]] + rest
      else [[s[0]] + rest[0]] + rest[1..]
  }

  /** `parts.join(sep)`, the inverse of `Split`. */
  function Join(parts: seq<string>, sep: char): string
    requires |parts| >= 1
  {
    if |parts| == 1 then parts[0] else parts[0] + [sep] + Join(parts[1..], sep)
  }

  /** Joining the parts of a split gives the string back. */
  lemma {:induction false} JoinSplit(s: string, sep: char)
    ensures Join(Split(s, sep), sep) == s
  {
    if s != [] {
      var rest := Split(s[1..], sep);
      JoinSplit(s[1..], sep);
      if s[0] == sep {
        assert Split(s, sep)[1..] == rest;
      } else if |rest| > 1 {
        var parts := Split(s, sep);
        assert parts[1..] == rest[1..];
        calc {
          Join(parts, sep);
          ([s[0]] + rest[0]) + [sep] + Join(rest[1..], sep);
          [s[0]] + (rest[0] + [sep] + Join(rest[1..], sep));
          [s[0]] + Join(rest, sep);
          s;
        }
      }
    }
  }

  /** A separator-free string followed by the separator splits off as one part. */
  lemma {:induction false} SplitAfterPart(a: string, sep: char, b: string)
    requires sep !in a
    ensures Split(a + [sep] + b, sep) == [a] + Split(b, sep)
  {
    if a != [] {
      assert forall c :: c in a[1..] ==> c in a;
      assert a[0] in a;
      SplitAfterPart(a[1..], sep, b);
      var s := a + [sep] + b;
      assert s[0] == a[0];
      assert s[1..] == a[1..] + [sep] + b;
      assert [a[0]] + a[1..] == a;
    } else {
      assert a + [sep] + b == [sep] + b;
      assert ([sep] + b)[1..] == b;
    }
  }

  /** A separator-free string is a single part. */
  lemma {:induction false} SplitWhole(a: string, sep: char)
    requires sep !in a
    ensures Split(a, sep) == [a]
  {
    if a != [] {
      assert forall c :: c in a[1..] ==> c in a;
      SplitWhole(a[1..], sep);
      assert a[0] in a;
      assert [a[0]] + a[1..] == a;
    }
  }

  /** Splitting a join of separator-free parts gives the parts back. */
  lemma {:induction false} SplitJoin(parts: seq<string>, sep: char)
    requires |parts| >= 1
    requires forall i :: 0 <= i < |parts| ==> sep !in parts[i]
    ensures Split(Join(parts, sep), sep) == parts
  {
    if |parts| == 1 {
      SplitWhole(parts[0], sep);
    } else {
      SplitJoin(parts[1..], sep);
      SplitAfterPart(parts[0], sep, Join(parts[1..], sep));
    }
  }

  // ---------------------------------------------------------------------------
  // Decimal digits

  predicate IsDigit(c: char) {
    '0' <= c <= '9'
  }

  predicate AllDigits(s: string) {
    forall i :: 0 <= i < |s| ==> IsDigit(s[i])
  }

  function DigitValue(c: char): (d: nat)
    requires IsDigit(c)
    ensures d < 10
  {
    c as int - '0' as int
  }

  function DigitChar(d: nat): (c: char)
    requires d < 10
    ensures IsDigit(c) && DigitValue(c) == d
  {
    (d + '0' as int) as char
  }

  /** The number a string of decimal digits denotes (most significant digit first). */
  function DigitsValue(s: string): nat
    requires AllDigits(s)
  {
    if s == [] then 0 else 10 * DigitsValue(s[..|s| - 1]) + DigitValue(s[|s| - 1])
  }

  /** The longest prefix of `s` made of decimal digits. */
  function DigitPrefix(s: string): (z: string)
    ensures |z| <= |s| && z == s[..|z|] && AllDigits(z)
    ensures |z| == |s| || !IsDigit(s[|z|])
  {
    if s != [] && IsDigit(s[0]) then [s[0]] + DigitPrefix(s[1..]) else []
  }

  /** `String(n)` for a non-negative integer: its decimal digits, no leading zero. */
  function NatText(n: nat): (s: string)
    ensures |s| >= 1 && AllDigits(s) && DigitsValue(s) == n
    ensures |s| > 1 ==> s[0] != '0'
  {
    if n < 10 then [DigitChar(n)]
    else
      var s := NatText(n / 10) + [DigitChar(n % 10)];
      assert s[..|s| - 1] == NatText(n / 10);
      s
  }

  /** The two-digit, zero-padded form of `n` ("07", "45"), as in an "HH:MM" time. */
  function Digits2(n: nat): (s: string)
    requires n < 100
    ensures |s| == 2 && AllDigits(s) && DigitsValue(s) == n
  {
    var s := [DigitChar(n / 10), DigitChar(n % 10)];
    assert [DigitChar(n / 10)][..0] == [];
    assert DigitsValue([DigitChar(n / 10)]) == n / 10;
    assert s[..1] == [DigitChar(n / 10)];
    s
  }

  // ---------------------------------------------------------------------------
  // parseInt(v, 10)

  /** `parseInt(s, 10)`: skip leading whitespace, read an optional sign, then the longest run of
      decimal digits; `None` stands for NaN (no digit at all). */
  function ParseInt(s: string): Option<int> {
    var t := TrimStart(s);
    var negative := t != [] && t[0] == '-';
    var u := if t != [] && (t[0] == '-' || t[0] == '+') then t[1..] else t;
    var z := DigitPrefix(u);
    if z == [] then None
    else
      var magnitude: int := DigitsValue(z);
      Some(if negative then -magnitude else magnitude)
  }

  /** Digits are not whitespace, so parseInt does not skip them. */
  lemma DigitIsNotWhitespace(c: char)
    requires IsDigit(c)
    ensures !IsWhitespace(c) && c != '-' && c != '+'
  {
  }

  /** The digit prefix of digits followed by a non-digit is those digits. */
  lemma {:induction false} DigitPrefixStopsAt(z: string, rest: string)
    requires AllDigits(z)
    requires rest == [] || !IsDigit(rest[0])
    ensures DigitPrefix(z + rest) == z
  {
    if z == [] {
      assert z + rest == rest;
    } else {
      assert (z + rest)[0] == z[0];
      assert (z + rest)[1..] == z[1..] + rest;
      DigitPrefixStopsAt(z[1..], rest);
      assert [z[0]] + z[1..] == z;
    }
  }

  /** parseInt reads the leading digits and ignores whatever follows a non-digit ("9am" is 9). */
  lemma {:induction false} ParseIntLeadingDigits(z: string, rest: string)
    requires |z| >= 1 && AllDigits(z)
    requires rest == [] || !IsDigit(rest[0])
    ensures ParseInt(z + rest) == Some(DigitsValue(z))
  {
    var s := z + rest;
    assert s[0] == z[0];
    DigitIsNotWhitespace(s[0]);
    assert TrimStart(s) == s;
    DigitPrefixStopsAt(z, rest);
  }

  /** Whitespace in front of a string that does not start with whitespace is skipped. */
  lemma {:induction false} TrimStartSkips(ws: string, t: string)
    requires forall i :: 0 <= i < |ws| ==> IsWhitespace(ws[i])
    requires t == [] || !IsWhitespace(t[0])
    ensures TrimStart(ws + t) == t
  {
    if ws == [] {
      assert ws + t == t;
    } else {
      assert (ws + t)[0] == ws[0];
      assert (ws + t)[1..] == ws[1..] + t;
      TrimStartSkips(ws[1..], t);
    }
  }

  /** parseInt skips leading whitespace. */
  lemma {:induction false} ParseIntSkipsWhitespace(ws: string, t: string)
    requires forall i :: 0 <= i < |ws| ==> IsWhitespace(ws[i])
    requires t == [] || !IsWhitespace(t[0])
    ensures ParseInt(ws + t) == ParseInt(t)
  {
    TrimStartSkips(ws, t);
    assert TrimStart(t) == t;
  }

  /** parseInt takes a sign, then reads the digits up to the first non-digit. */
  lemma {:induction false} ParseIntSign(sign: char, z: string, rest: string)
    requires sign == '-' || sign == '+'
    requires |z| >= 1 && AllDigits(z)
    requires rest == [] || !IsDigit(rest[0])
    ensures ParseInt([sign] + (z + rest)) == Some(if sign == '-' then -(DigitsValue(z) as int) else DigitsValue(z))
  {
    var u := z + rest;
    var t := [sign] + u;
    assert t[0] == sign && t[1..] == u;
    DigitPrefixStopsAt(z, rest);
    ParseIntAfterSign(t, z);
  }

  /** A sign followed by digits. */
  lemma {:induction false} ParseIntAfterSign(t: string, z: string)
    requires t != [] && (t[0] == '-' || t[0] == '+')
    requires DigitPrefix(t[1..]) == z && z != []
    ensures ParseInt(t) == Some(if t[0] == '-' then -(DigitsValue(z) as int) else DigitsValue(z))
  {
    TrimStartNoSpace(t);
    var u := t[1..];
    assert DigitPrefix(u) == z;
  }

  /** A string that does not start with whitespace is its own TrimStart. */
  lemma {:induction false} TrimStartNoSpace(t: string)
    requires t == [] || !IsWhitespace(t[0])
    ensures TrimStart(t) == t
  {
  }

  /** Together: " 9" is 9, "-5px" is -5, "+12:30" is 12. */
  lemma {:induction false} ParseIntSigned(ws: string, sign: string, z: string, rest: string)
    requires forall i :: 0 <= i < |ws| ==> IsWhitespace(ws[i])
    requires sign == "" || sign == "-" || sign == "+"
    requires |z| >= 1 && AllDigits(z)
    requires rest == [] || !IsDigit(rest[0])
    ensures ParseInt(ws + sign + z + rest)
         == Some(if sign == "-" then -(DigitsValue(z) as int) else DigitsValue(z))
  {
    var t := sign + (z + rest);
    assert ws + sign + z + rest == ws + t;
    ParseIntAfterWhitespace(ws, sign, z, rest);
  }

  lemma {:induction false} ParseIntAfterWhitespace(ws: string, sign: string, z: string, rest: string)
    requires forall i :: 0 <= i < |ws| ==> IsWhitespace(ws[i])
    requires sign == "" || sign == "-" || sign == "+"
    requires |z| >= 1 && AllDigits(z)
    requires rest == [] || !IsDigit(rest[0])
    ensures ParseInt(ws + (sign + (z + rest)))
         == Some(if sign == "-" then -(DigitsValue(z) as int) else DigitsValue(z))
  {
    var u := z + rest;
    var t := sign + u;
    DigitIsNotWhitespace(z[0]);
    if sign == "" {
      assert t == u && t[0] == z[0];
      ParseIntLeadingDigits(z, rest);
    } else {
      assert t == [sign[0]] + u;
      ParseIntSign(sign[0], z, rest);
    }
    ParseIntSkipsWhitespace(ws, t);
  }

  lemma ParseIntOne()
    ensures ParseInt("1") == Some(1)
  {
    var one := "1";
    TrimStartNoSpace(one);
    assert one[1..] == [] && one[..0] == [];
    assert DigitPrefix(one) == one;
    assert DigitsValue(one) == 1;
  }

  /** A string with no decimal digit parses to NaN. */
  lemma {:induction false} ParseIntNoDigits(s: string)
    requires forall i :: 0 <= i < |s| ==> !IsDigit(s[i])
    ensures ParseInt(s) == None
  {
    var t := TrimStart(s);
    var u := if t != [] && (t[0] == '-' || t[0] == '+') then t[1..] else t;
    if u != [] {
      assert u[0] == s[|s| - |u|];
    }
    assert DigitPrefix(u) == [];
  }

  /** parseInt is NaN when, after the whitespace and an optional sign, no digit follows
      ("x9", "-a1", " +" all give NaN). Without a sign, what follows must itself be neither
      whitespace nor a sign, or it would be skipped or read as one. */
  lemma {:induction false} ParseIntNaN(ws: string, sign: string, rest: string)
    requires forall i :: 0 <= i < |ws| ==> IsWhitespace(ws[i])
    requires sign == "" || sign == "-" || sign == "+"
    requires rest == [] || !IsDigit(rest[0])
    requires sign == "" && rest != [] ==> !IsWhitespace(rest[0]) && rest[0] != '-' && rest[0] != '+'
    ensures ParseInt(ws + sign + rest) == None
  {
    var t := sign + rest;
    assert ws + sign + rest == ws + t;
    ParseIntSkipsWhitespace(ws, t);
    TrimStartNoSpace(t);
    var u := if t != [] && (t[0] == '-' || t[0] == '+') then t[1..] else t;
    assert u == rest;
    assert DigitPrefix(u) == [];
  }

  // ---------------------------------------------------------------------------
  // parseInt(v) without a radix: "0x" or "0X" after the sign switches to base 16

  predicate IsHexDigit(c: char) {
    IsDigit(c) || 'a' <= c <= 'f' || 'A' <= c <= 'F'
  }

  predicate AllHexDigits(s: string) {
    forall i :: 0 <= i < |s| ==> IsHexDigit(s[i])
  }

  function HexDigitValue(c: char): (d: nat)
    requires IsHexDigit(c)
    ensures d < 16
    ensures IsDigit(c) ==> d == DigitValue(c)
  {
    if IsDigit(c) then DigitValue(c)
    else if 'a' <= c <= 'f' then c as int - 'a' as int + 10
    else c as int - 'A' as int + 10
  }

  /** The number a run of hexadecimal digits denotes. */
  function HexValue(s: string): nat
    requires AllHexDigits(s)
  {
    if s == [] then 0 else 16 * HexValue(s[..|s| - 1]) + HexDigitValue(s[|s| - 1])
  }

  /** The longest prefix of `s` made of hexadecimal digits. */
  function HexPrefix(s: string): (z: string)
    ensures |z| <= |s| && z == s[..|z|] && AllHexDigits(z)
    ensures |z| == |s| || !IsHexDigit(s[|z|])
  {
    if s != [] && IsHexDigit(s[0]) then [s[0]] + HexPrefix(s[1..]) else []
  }

  /** After the whitespace and the sign, the text starts with "0x" or "0X". */
  predicate HasHexPrefix(u: string) {
    |u| >= 2 && u[0] == '0' && (u[1] == 'x' || u[1] == 'X')
  }

  /** What follows an optional leading sign. */
  function Unsigned(t: string): string {
    if t != [] && (t[0] == '-' || t[0] == '+') then t[1..] else t
  }

  /** `parseInt(v)` with no radix: like `parseInt(v, 10)`, except that "0x" or "0X" after the
      whitespace and the sign makes it read hexadecimal digits instead. */
  function ParseIntAnyRadix(s: string): Option<int> {
    var t := TrimStart(s);
    if HasHexPrefix(Unsigned(t)) then HexNumber(t) else ParseInt(s)
  }

  /** The hexadecimal number after the sign and the "0x" of `t`; NaN when no hexadecimal digit
      follows the prefix. */
  function HexNumber(t: string): Option<int>
    requires HasHexPrefix(Unsigned(t))
  {
    var z := HexPrefix(Unsigned(t)[2..]);
    if z == [] then None
    else
      var magnitude: int := HexValue(z);
      Some(if t[0] == '-' then -magnitude else magnitude)
  }

  /** The hexadecimal prefix of hex digits followed by a non-hex-digit is those digits. */
  lemma {:induction false} HexPrefixStopsAt(z: string, rest: string)
    requires AllHexDigits(z)
    requires rest == [] || !IsHexDigit(rest[0])
    ensures HexPrefix(z + rest) == z
  {
    if z == [] {
      assert z + rest == rest;
    } else {
      assert (z + rest)[0] == z[0];
      assert (z + rest)[1..] == z[1..] + rest;
      HexPrefixStopsAt(z[1..], rest);
      assert [z[0]] + z[1..] == z;
    }
  }

  /** Whitespace, an optional sign, "0x" or "0X", then hex digits up to the first
      non-hex-digit: " 0x1F" is 31, "-0X10" is -16. */
  lemma {:induction false} ParseIntHex(ws: string, sign: string, x: char, z: string, rest: string)
    requires forall i :: 0 <= i < |ws| ==> IsWhitespace(ws[i])
    requires sign == "" || sign == "-" || sign == "+"
    requires x == 'x' || x == 'X'
    requires |z| >= 1 && AllHexDigits(z)
    requires rest == [] || !IsHexDigit(rest[0])
    ensures ParseIntAnyRadix(ws + sign + ['0', x] + z + rest)
         == Some(if sign == "-" then -(HexValue(z) as int) else HexValue(z))
  {
    var u := ['0', x] + (z + rest);
    HexTextParts(ws, sign, x, z, rest);
    HexPrefixStopsAt(z, rest);
    HexAfterSign(sign, u, z);
    TrimStartSkips(ws, sign + u);
  }

  lemma HexTextParts(ws: string, sign: string, x: char, z: string, rest: string)
    ensures ws + sign + ['0', x] + z + rest == ws + (sign + (['0', x] + (z + rest)))
    ensures (['0', x] + (z + rest))[2..] == z + rest
  {
  }

  /** An optional sign, then "0x" and hex digits. */
  lemma {:induction false} HexAfterSign(sign: string, u: string, z: string)
    requires sign == "" || sign == "-" || sign == "+"
    requires HasHexPrefix(u) && HexPrefix(u[2..]) == z && z != []
    ensures var t := sign + u;
      && (t == [] || !IsWhitespace(t[0]))
      && HasHexPrefix(Unsigned(t))
      && HexNumber(t) == Some(if sign == "-" then -(HexValue(z) as int) else HexValue(z))
  {
    var t := sign + u;
    if sign == "" {
      assert t == u && t[0] == '0';
    } else {
      assert t[0] == sign[0] && t[1..] == u;
    }
    assert Unsigned(t) == u;
  }

  /** Without the "0x" prefix, parsing with no radix is parsing in base 10. */
  lemma AnyRadixIsDecimal(s: string)
    requires !HasHexPrefix(Unsigned(TrimStart(s)))
    ensures ParseIntAnyRadix(s) == ParseInt(s)
  {
  }

  /** "1", the default admin id, is 1 with no radix too. */
  lemma AnyRadixOne()
    ensures ParseIntAnyRadix("1") == Some(1)
  {
    var one := "1";
    TrimStartNoSpace(one);
    assert !HasHexPrefix(Unsigned(one));
    ParseIntOne();
  }

  /** "0x10" is 16 with no radix, and 0 in base 10. */
  lemma HexVersusDecimal()
    ensures ParseIntAnyRadix("0x10") == Some(16)
    ensures ParseInt("0x10") == Some(0)
  {
    HexSixteen();
    DecimalZero();
  }

  lemma HexSixteen()
    ensures ParseIntAnyRadix("0x10") == Some(16)
  {
    var s, z := "0x10", "10";
    TrimStartNoSpace(s);
    assert HasHexPrefix(s) && s[2..] == z;
    HexPrefixStopsAt(z, []);
    assert z + [] == z;
    assert z[..1] == "1" && "1"[..0] == [];
    assert HexValue(z) == 16;
  }

  lemma DecimalZero()
    ensures ParseInt("0x10") == Some(0)
  {
    var s := "0x10";
    TrimStartNoSpace(s);
    assert s == "0" + s[1..];
    DigitPrefixStopsAt("0", s[1..]);
    assert "0"[..0] == [];
    assert DigitsValue("0") == 0;
  }

  // ---------------------------------------------------------------------------
  // toFixed(2) of a value held in whole hundredths, and reading it back

  /** `(n / 100).toFixed(2)` for a value of `n` hundredths, `n >= 0`: the digits of `n`, padded
      with zeros to at least three, with a point before the last two. */
  function FixedText(n: nat): string {
    var m := NatText(n);
    var p := if |m| <= 2 then seq(3 - |m|, _ => '0') + m else m;
    p[..|p| - 2] + "." + p[|p| - 2..]
  }

  /** The same text, read as integer part, point, two-digit fraction. */
  lemma FixedTextParts(n: nat)
    ensures FixedText(n) == NatText(n / 100) + "." + Digits2(n % 100)
  {
    if n < 10 {
      FixedTextOneDigit(n);
    } else if n < 100 {
      FixedTextTwoDigits(n);
    } else {
      FixedTextManyDigits(n);
    }
  }

  lemma FixedTextOneDigit(n: nat)
    requires n < 10
    ensures FixedText(n) == NatText(n / 100) + "." + Digits2(n % 100)
  {
    var m := NatText(n);
    assert m == [DigitChar(n)];
    var p := seq(2, _ => '0') + m;
    assert p == ['0', '0', DigitChar(n)];
    assert NatText(n / 100) == ['0'];
    assert Digits2(n % 100) == ['0', DigitChar(n)];
    assert FixedText(n) == p[..1] + "." + p[1..];
  }

  lemma FixedTextTwoDigits(n: nat)
    requires 10 <= n < 100
    ensures FixedText(n) == NatText(n / 100) + "." + Digits2(n % 100)
  {
    var m := NatText(n);
    assert NatText(n / 10) == [DigitChar(n / 10)];
    assert m == [DigitChar(n / 10), DigitChar(n % 10)];
    var p := seq(1, _ => '0') + m;
    assert p == ['0', DigitChar(n / 10), DigitChar(n % 10)];
    assert NatText(n / 100) == ['0'];
    assert FixedText(n) == p[..1] + "." + p[1..];
  }

  /** The tens and units digits of `n` seen through `/ 10` and `% 100`. */
  lemma DecimalPlaces(n: nat)
    ensures (n / 10) / 10 == n / 100
    ensures (n % 100) / 10 == (n / 10) % 10
    ensures (n % 100) % 10 == n % 10
  {
    var a, r := n / 100, n % 100;
    var b, c := r / 10, r % 10;
    assert n == 100 * a + 10 * b + c;
    assert n / 10 == 10 * a + b;
    assert n % 10 == c;
  }

  lemma FixedTextManyDigits(n: nat)
    requires n >= 100
    ensures FixedText(n) == NatText(n / 100) + "." + Digits2(n % 100)
  {
    var m := NatText(n);
    var q := NatText(n / 10);
    var d2 := Digits2(n % 100);
    DecimalPlaces(n);
    assert m == q + [DigitChar(n % 10)];
    assert q == NatText(n / 100) + [DigitChar((n / 10) % 10)];
    assert d2 == [DigitChar((n / 10) % 10), DigitChar(n % 10)];
    assert m == NatText(n / 100) + d2;
    assert |m| >= 3;
    assert m[..|m| - 2] == NatText(n / 100);
    assert m[|m| - 2..] == d2;
  }

  /** Reads a decimal as the table shows it, an optional '-', digits, a point and one or two
      fraction digits ("1.67", "0.0"), into whole hundredths. */
  function FixedValue(s: string): Option<int> {
    if s != [] && s[0] == '-' then
      match UnsignedFixedValue(s[1..])
      case Some(v) => Some(-(v as int))
      case None => None
    else UnsignedFixedValue(s)
  }

  function UnsignedFixedValue(s: string): Option<nat> {
    var parts := Split(s, '.');
    if |parts| != 2 then None
    else
      var whole, fraction := parts[0], parts[1];
      if whole == [] || !AllDigits(whole) || !AllDigits(fraction)
         || fraction == [] || |fraction| > 2 then None
      else if |fraction| == 1 then Some(100 * DigitsValue(whole) + 10 * DigitsValue(fraction))
      else Some(100 * DigitsValue(whole) + DigitsValue(fraction))
  }

  lemma NoPointInDigits(s: string)
    requires AllDigits(s)
    ensures '.' !in s
  {
  }

  /** What toFixed(2) writes reads back as the same number of hundredths. */
  lemma UnsignedFixedRoundTrip(n: nat)
    ensures UnsignedFixedValue(FixedText(n)) == Some(n)
  {
    FixedTextParts(n);
    var a, b := NatText(n / 100), Digits2(n % 100);
    NoPointInDigits(a);
    NoPointInDigits(b);
    SplitJoin([a, b], '.');
    assert Join([a, b], '.') == a + "." + b;
    assert Split(FixedText(n), '.') == [a, b];
    assert 100 * (n / 100) + n % 100 == n;
  }

  /** The same, with and without a minus sign in front. */
  lemma FixedTextRoundTrip(n: nat)
    ensures FixedValue(FixedText(n)) == Some(n)
    ensures FixedValue("-" + FixedText(n)) == Some(-(n as int))
  {
    UnsignedFixedRoundTrip(n);
    FixedTextParts(n);
    var a := NatText(n / 100);
    assert FixedText(n)[0] == a[0] && IsDigit(a[0]);
    assert ("-" + FixedText(n))[1..] == FixedText(n);
  }

  // ---------------------------------------------------------------------------
  // Default sort order of strings

  /** The comparison the default `sort()` uses on strings: character by character,
      a proper prefix first. */
  predicate StrLess(a: string, b: string) {
    if a == [] then b != []
    else if b == [] then false
    else if a[0] != b[0] then a[0] < b[0]
    else StrLess(a[1..], b[1..])
  }

  lemma {:induction false} StrLessIrreflexive(a: string)
    ensures !StrLess(a, a)
  {
    if a != [] {
      StrLessIrreflexive(a[1..]);
    }
  }

  lemma {:induction false} StrLessAsymmetric(a: string, b: string)
    requires StrLess(a, b)
    ensures !StrLess(b, a)
  {
    if a != [] && b != [] && a[0] == b[0] {
      StrLessAsymmetric(a[1..], b[1..]);
    }
  }

  lemma {:induction false} StrLessTransitive(a: string, b: string, c: string)
    requires StrLess(a, b) && StrLess(b, c)
    ensures StrLess(a, c)
  {
    if a != [] && b != [] && c != [] && a[0] == b[0] && b[0] == c[0] {
      StrLessTransitive(a[1..], b[1..], c[1..]);
    }
  }

  lemma {:induction false} StrLessTotal(a: string, b: string)
    requires a != b
    ensures StrLess(a, b) || StrLess(b, a)
  {
    if a != [] && b != [] && a[0] == b[0] {
      assert a == [a[0]] + a[1..] && b == [b[0]] + b[1..];
      StrLessTotal(a[1..], b[1..]);
    }
  }
}
