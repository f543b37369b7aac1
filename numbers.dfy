/** The two JavaScript string-to-number conversions the inventory code relies on:
    `parseInt(s)` (a prefix parser) and `Number(s)` (a whole-string parser),
    restricted to integers, with NaN as `None`. Also a decimal printer, used to
    state the round trips. */
module Numbers {
  import opened Values

  /** The characters JavaScript trims and `\s` matches: WhiteSpace and
      LineTerminator (tab, LF, VT, FF, CR, space, NBSP, the Zs block, LS, PS, BOM). */
  predicate IsSpace(c: char) {
    if c < '\U{80}' then c == ' ' || '\t' <= c <= '\r'
    else
      || c == '\U{A0}' || c == '\U{1680}' || ('\U{2000}' <= c <= '\U{200A}')
      || c == '\U{2028}' || c == '\U{2029}' || c == '\U{202F}' || c == '\U{205F}'
      || c == '\U{3000}' || c == '\U{FEFF}'
  }

  predicate AllSpace(w: string) {
    forall i :: 0 <= i < |w| ==> IsSpace(w[i])
  }

  /** Removes leading white space. */
  function TrimStart(s: string): (r: string)
    ensures |r| <= |s| && r == s[|s| - |r|..]
    ensures AllSpace(s[..|s| - |r|])
    ensures r == [] || !IsSpace(r[0])
  {
    if s != [] && IsSpace(s[0]) then
      var r := TrimStart(s[1..]);
      assert s[..|s| - |r|] == [s[0]] + s[1..][..|s| - 1 - |r|];
      r
    else s
  }

  /** Removes trailing white space. */
  function TrimEnd(s: string): (r: string)
    ensures |r| <= |s| && r == s[..|r|]
    ensures AllSpace(s[|r|..])
    ensures r == [] || !IsSpace(r[|r| - 1])
  {
    if s != [] && IsSpace(s[|s| - 1]) then
      var r := TrimEnd(s[..|s| - 1]);
      assert s[|r|..] == s[..|s| - 1][|r|..] + [s[|s| - 1]];
      r
    else s
  }

  /** `String.prototype.trim`. */
  function Trim(s: string): string {
    TrimEnd(TrimStart(s))
  }

  /** The value of `c` as a digit in radix up to 36 (`0`-`9`, then `a`-`z` or `A`-`Z`). */
  function DigitValue(c: char): Option<nat> {
    if '0' <= c <= '9' then Some(c as int - '0' as int)
    else if 'a' <= c <= 'z' then Some(c as int - 'a' as int + 10)
    else if 'A' <= c <= 'Z' then Some(c as int - 'A' as int + 10)
    else None
  }

  predicate IsDigit(c: char, radix: nat) {
    DigitValue(c).Some? && DigitValue(c).value < radix
  }

  predicate AllDigits(s: string, radix: nat) {
    forall i :: 0 <= i < |s| ==> IsDigit(s[i], radix)
  }

  /** The length of the longest prefix of `s` made of digits in `radix`. */
  function DigitSpan(s: string, radix: nat): (n: nat)
    ensures n <= |s|
    ensures AllDigits(s[..n], radix)
    ensures n < |s| ==> !IsDigit(s[n], radix)
  {
    if s != [] && IsDigit(s[0], radix) then 1 + DigitSpan(s[1..], radix) else 0
  }

  /** The number a digit string denotes, most significant digit first. */
  function DigitsValue(ds: string, radix: nat): nat
    requires AllDigits(ds, radix)
  {
    if ds == [] then 0
    else DigitsValue(ds[..|ds| - 1], radix) * radix + DigitValue(ds[|ds| - 1]).value
  }

  /** The value of the longest digit run at the start of `v`; NaN when there is none. */
  function ReadDigits(v: string, radix: nat): Option<nat> {
    var n := DigitSpan(v, radix);
    if n == 0 then None else Some(DigitsValue(v[..n], radix))
  }

  /** The value of `v` when it is all digits (and not empty); NaN otherwise. */
  function WholeDigits(v: string, radix: nat): Option<nat> {
    if v != [] && DigitSpan(v, radix) == |v| then Some(DigitsValue(v, radix)) else None
  }

  function Negate(m: Option<nat>): Option<int> {
    match m
    case None => None
    case Some(k) => Some(-(k as int))
  }

  function AsInt(m: Option<nat>): Option<int> {
    match m
    case None => None
    case Some(k) => Some(k)
  }

  predicate HasHexPrefix(u: string) {
    |u| >= 2 && u[0] == '0' && (u[1] == 'x' || u[1] == 'X')
  }

  /** What `parseInt` reads after the sign: a `0x`/`0X` prefix selects radix 16. */
  function ParseMagnitude(u: string): Option<nat> {
    if HasHexPrefix(u) then ReadDigits(u[2..], 16) else ReadDigits(u, 10)
  }

  /** `parseInt(s)` with no radix: skip leading white space, read an optional
      sign, read `0x`/`0X` as radix 16, then the longest run of digits; no
      digits is NaN. */
  function ParseInt(s: string): Option<int> {
    ParseSigned(TrimStart(s))
  }

  /** What `parseInt` reads once leading white space is gone. */
  function ParseSigned(t: string): Option<int> {
    if t != [] && t[0] == '-' then Negate(ParseMagnitude(t[1..]))
    else if t != [] && t[0] == '+' then AsInt(ParseMagnitude(t[1..]))
    else AsInt(ParseMagnitude(t))
  }

  /** The radix a `0x`, `0o` or `0b` prefix (either case) selects, if `t` has one. */
  function RadixPrefix(t: string): Option<nat> {
    if |t| < 2 || t[0] != '0' then None
    else if t[1] == 'x' || t[1] == 'X' then Some(16)
    else if t[1] == 'o' || t[1] == 'O' then Some(8)
    else if t[1] == 'b' || t[1] == 'B' then Some(2)
    else None
  }

  /** `Number(s)` for a string, on the integer forms: surrounding white space is
      ignored, the empty string is 0, a signed run of decimal digits is its
      value, `0x`/`0o`/`0b` followed by digits of that radix (and no sign) is
      their value; anything else is NaN. */
  function StringToNumber(s: string): Option<int> {
    NumberOfTrimmed(Trim(s))
  }

  /** What `Number` reads once surrounding white space is gone. */
  function NumberOfTrimmed(t: string): Option<int> {
    if t == [] then Some(0)
    else if RadixPrefix(t).Some? then AsInt(WholeDigits(t[2..], RadixPrefix(t).value))
    else if t[0] == '-' then Negate(WholeDigits(t[1..], 10))
    else if t[0] == '+' then AsInt(WholeDigits(t[1..], 10))
    else AsInt(WholeDigits(t, 10))
  }

  /** The decimal digit for `d < 10`. */
  function DigitChar(d: nat): (c: char)
    requires d < 10
    ensures IsDigit(c, 10) && DigitValue(c) == Some(d)
  {
    ['0', '1', '2', '3', '4', '5', '6', '7', '8', '9'][d]
  }

  /** The shortest decimal numeral of `n`: digits only, no leading zero. */
  function NatToString(n: nat): (r: string)
    ensures r != [] && AllDigits(r, 10)
    ensures r[0] == '0' ==> n == 0
  {
    if n < 10 then [DigitChar(n)] else NatToString(n / 10) + [DigitChar(n % 10)]
  }

  /** `String(n)` for an integer. */
  function IntToString(n: int): (r: string)
    ensures r != [] && !IsSpace(r[0]) && !IsSpace(r[|r| - 1])
  {
    if n < 0 then "-" + NatToString(-n) else NatToString(n)
  }

  lemma {:induction false} DigitsValueOfNatToString(n: nat)
    ensures DigitsValue(NatToString(n), 10) == n
  {
    var r := NatToString(n);
    if n >= 10 {
      DigitsValueOfNatToString(n / 10);
      assert r[..|r| - 1] == NatToString(n / 10);
    }
  }

  /** A digit run followed by a non-digit (or nothing) is read up to its end. */
  lemma {:induction false} DigitSpanStopsAfter(ds: string, rest: string, radix: nat)
    requires AllDigits(ds, radix)
    requires rest == [] || !IsDigit(rest[0], radix)
    ensures DigitSpan(ds + rest, radix) == |ds|
  {
    if ds != [] {
      assert (ds + rest)[1..] == ds[1..] + rest;
      DigitSpanStopsAfter(ds[1..], rest, radix);
    }
  }

  /** Leading white space never changes what `TrimStart` returns. */
  lemma {:induction false} TrimStartSkipsSpace(w: string, s: string)
    requires AllSpace(w)
    requires s == [] || !IsSpace(s[0])
    ensures TrimStart(w + s) == s
  {
    if w != [] {
      assert (w + s)[1..] == w[1..] + s;
      TrimStartSkipsSpace(w[1..], s);
    }
  }

  /** Trailing white space never changes what `TrimEnd` returns. */
  lemma {:induction false} TrimEndSkipsSpace(s: string, w: string)
    requires AllSpace(w)
    requires s == [] || !IsSpace(s[|s| - 1])
    ensures TrimEnd(s + w) == s
  {
    if w != [] {
      assert (s + w)[..|s + w| - 1] == s + w[..|w| - 1];
      TrimEndSkipsSpace(s, w[..|w| - 1]);
    }
  }

  lemma ReadDigitsOfNatToString(m: nat, rest: string)
    requires rest == [] || !IsDigit(rest[0], 10)
    ensures ReadDigits(NatToString(m) + rest, 10) == Some(m)
    ensures WholeDigits(NatToString(m), 10) == Some(m)
  {
    var ds := NatToString(m);
    DigitSpanStopsAfter(ds, rest, 10);
    DigitSpanStopsAfter(ds, [], 10);
    assert ds + [] == ds;
    assert (ds + rest)[..|ds|] == ds;
    DigitsValueOfNatToString(m);
  }

  /** A printed natural never looks like a `0x` prefix unless it is `0` and
      `x` follows it. */
  lemma NatToStringNotHex(m: nat, rest: string)
    requires m == 0 && rest != [] ==> rest[0] != 'x' && rest[0] != 'X'
    ensures !HasHexPrefix(NatToString(m) + rest)
    ensures RadixPrefix(NatToString(m)) == None
  {
    var ds := NatToString(m);
    if ds[0] == '0' {
      assert m == 0 && |ds| == 1;
      assert |ds + rest| >= 2 ==> (ds + rest)[1] == rest[0];
    }
  }

  lemma MagnitudeOfNatToString(m: nat, rest: string)
    requires rest == [] || (!IsDigit(rest[0], 10) && (m == 0 ==> rest[0] != 'x' && rest[0] != 'X'))
    ensures ParseMagnitude(NatToString(m) + rest) == Some(m)
  {
    ReadDigitsOfNatToString(m, rest);
    NatToStringNotHex(m, rest);
  }

  /** A leading minus sign negates what follows it. */
  lemma ParseSignedMinus(u: string)
    ensures ParseSigned("-" + u) == Negate(ParseMagnitude(u))
  {
    var x := "-" + u;
    assert x[0] == '-' && x[1..] == u;
  }

  lemma ParseSignedOfNegative(m: nat, rest: string)
    requires rest == [] || (!IsDigit(rest[0], 10) && (m == 0 ==> rest[0] != 'x' && rest[0] != 'X'))
    ensures ParseSigned("-" + NatToString(m) + rest) == Some(-(m as int))
  {
    var ds := NatToString(m);
    MagnitudeOfNatToString(m, rest);
    assert "-" + ds + rest == "-" + (ds + rest);
    ParseSignedMinus(ds + rest);
  }

  /** Without a sign, the magnitude is read from the first character on. */
  lemma ParseSignedUnsigned(u: string)
    requires u != [] && IsDigit(u[0], 10)
    ensures ParseSigned(u) == AsInt(ParseMagnitude(u))
  {
  }

  lemma ParseSignedOfNatural(m: nat, rest: string)
    requires rest == [] || (!IsDigit(rest[0], 10) && (m == 0 ==> rest[0] != 'x' && rest[0] != 'X'))
    ensures ParseSigned(NatToString(m) + rest) == Some(m)
  {
    var ds := NatToString(m);
    MagnitudeOfNatToString(m, rest);
    assert IsDigit((ds + rest)[0], 10);
    ParseSignedUnsigned(ds + rest);
  }

  lemma ParseSignedOfPrinted(n: int, rest: string)
    requires rest == [] || (!IsDigit(rest[0], 10) && (n == 0 ==> rest[0] != 'x' && rest[0] != 'X'))
    ensures ParseSigned(IntToString(n) + rest) == Some(n)
  {
    if n < 0 {
      var m: nat := -n;
      ParseSignedOfNegative(m, rest);
      assert IntToString(n) + rest == "-" + NatToString(m) + rest;
    } else {
      ParseSignedOfNatural(n, rest);
    }
  }

  /** `parseInt` reads back what `String` prints, whatever white space comes
      before it and whatever non-digit text comes after it (only a printed
      `0` followed by `x` would read as a hex prefix instead). */
  lemma ParseIntRoundTrip(w: string, n: int, rest: string)
    requires AllSpace(w)
    requires rest == [] || (!IsDigit(rest[0], 10) && (n == 0 ==> rest[0] != 'x' && rest[0] != 'X'))
    ensures ParseInt(w + IntToString(n) + rest) == Some(n)
  {
    var x := IntToString(n) + rest;
    assert w + IntToString(n) + rest == w + x;
    TrimStartSkipsSpace(w, x);
    ParseSignedOfPrinted(n, rest);
  }

  lemma NumberOfPrinted(n: int)
    ensures NumberOfTrimmed(IntToString(n)) == Some(n)
  {
    var m: nat := if n < 0 then -n else n;
    var ds := NatToString(m);
    ReadDigitsOfNatToString(m, []);
    NatToStringNotHex(m, []);
    if n < 0 {
      var x := "-" + ds;
      assert x[0] == '-' && x[1..] == ds;
      assert RadixPrefix(x) == None;
      assert NumberOfTrimmed(x) == Some(n);
      assert IntToString(n) == x;
    }
  }

  /** After the sign, a `0x`/`0X` prefix with no hex digit after it, or no
      prefix and no decimal digit, leaves `parseInt` nothing to read. */
  lemma MagnitudeWithoutDigits(prefix: string, rest: string)
    requires prefix == "" || prefix == "0x" || prefix == "0X"
    requires rest == [] || !IsDigit(rest[0], if prefix == "" then 10 else 16)
    ensures ParseMagnitude(prefix + rest) == None
  {
    var u := prefix + rest;
    if prefix != "" {
      assert HasHexPrefix(u) && u[2..] == rest;
    } else if rest != [] {
      assert !HasHexPrefix(u);
    }
  }

  /** The same once leading white space is gone, with an optional sign. */
  lemma SignedWithoutDigits(sign: string, prefix: string, rest: string)
    requires sign == "" || sign == "-" || sign == "+"
    requires prefix == "" || prefix == "0x" || prefix == "0X"
    requires rest == [] || !IsDigit(rest[0], if prefix == "" then 10 else 16)
    requires sign == "" && prefix == "" && rest != [] ==> rest[0] != '-' && rest[0] != '+'
    ensures ParseSigned(sign + prefix + rest) == None
  {
    MagnitudeWithoutDigits(prefix, rest);
    var t := sign + prefix + rest;
    if sign != "" {
      assert t[0] == sign[0] && t[1..] == prefix + rest;
    } else {
      assert t == prefix + rest;
    }
  }

  /** Text with no digit for `parseInt` to read is NaN: after its leading
      white space an optional sign, then an optional `0x`/`0X`, then nothing
      or a character that is not a digit of the radix the prefix selects
      (`""`, `"abc"`, `"-"`, `"+abc"`, `"- 5"`, `"0x"`, `"-0xg"`). */
  lemma ParseIntWithoutDigits(w: string, sign: string, prefix: string, rest: string)
    requires AllSpace(w)
    requires sign == "" || sign == "-" || sign == "+"
    requires prefix == "" || prefix == "0x" || prefix == "0X"
    requires rest == [] || !IsDigit(rest[0], if prefix == "" then 10 else 16)
    requires sign == "" && prefix == "" && rest != [] ==> !IsSpace(rest[0]) && rest[0] != '-' && rest[0] != '+'
    ensures ParseInt(w + sign + prefix + rest) == None
  {
    var t := sign + prefix + rest;
    assert w + sign + prefix + rest == w + t;
    assert t == [] || !IsSpace(t[0]) by {
      if sign != "" {
        assert t[0] == sign[0];
      } else if prefix != "" {
        assert t[0] == '0';
      } else {
        assert t == rest;
      }
    }
    TrimStartSkipsSpace(w, t);
    SignedWithoutDigits(sign, prefix, rest);
  }

  /** `Number` reads back what `String` prints, with white space on either side. */
  lemma NumberRoundTrip(w1: string, n: int, w2: string)
    requires AllSpace(w1) && AllSpace(w2)
    ensures StringToNumber(w1 + IntToString(n) + w2) == Some(n)
  {
    TrimOfPadded(w1, IntToString(n), w2);
    NumberOfPrinted(n);
  }

  /** White space around a text that neither starts nor ends with white
      space is what `Trim` removes. */
  lemma TrimOfPadded(w1: string, x: string, w2: string)
    requires AllSpace(w1) && AllSpace(w2)
    requires x != [] && !IsSpace(x[0]) && !IsSpace(x[|x| - 1])
    ensures Trim(w1 + x + w2) == x
  {
    assert w1 + x + w2 == w1 + (x + w2);
    TrimStartSkipsSpace(w1, x + w2);
    TrimEndSkipsSpace(x, w2);
  }

  /** `Number` refuses a digit run followed by text that is not part of a
      number, wherever the run starts after an optional sign. */
  lemma NumberOfTrimmedStops(sign: string, ds: string, rest: string)
    requires sign == "" || sign == "-" || sign == "+"
    requires ds != [] && AllDigits(ds, 10)
    requires rest != [] && !IsDigit(rest[0], 10)
    requires sign == "" && ds == "0" ==> rest[0] !in "xXoObB"
    ensures NumberOfTrimmed(sign + ds + rest) == None
  {
    var u := ds + rest;
    DigitSpanStopsAfter(ds, rest, 10);
    if sign != "" {
      assert sign + ds + rest == [sign[0]] + u;
      SignedStops(sign[0], u);
    } else {
      assert sign + ds + rest == u;
      assert RadixPrefix(u) == None by {
        assert |ds| >= 2 ==> IsDigit(u[1], 10);
        assert ds == "0" ==> u[1] == rest[0];
      }
    }
  }

  /** A sign followed by text that is not a whole digit run is NaN. */
  lemma SignedStops(sign: char, u: string)
    requires sign == '-' || sign == '+'
    requires WholeDigits(u, 10) == None
    ensures NumberOfTrimmed([sign] + u) == None
  {
    var t := [sign] + u;
    assert t[0] == sign && t[1..] == u;
  }

  /** `Number` needs the whole trimmed string to be a number: a signed digit
      run followed by any other text is NaN, with white space around or not
      (`"12abc"`, `"-0x1A"`, `" 5 kg "`). Text that JavaScript reads as a
      fraction or an exponent (`.` or `e` right after the digits) is not
      covered, since the model has no fractions. */
  lemma NumberRejectsTrailingText(w1: string, sign: string, ds: string, rest: string, w2: string)
    requires AllSpace(w1) && AllSpace(w2)
    requires sign == "" || sign == "-" || sign == "+"
    requires ds != [] && AllDigits(ds, 10)
    requires rest != [] && !IsDigit(rest[0], 10) && rest[0] !in ".eE"
    requires !IsSpace(rest[|rest| - 1])
    requires sign == "" && ds == "0" ==> rest[0] !in "xXoObB"
    ensures StringToNumber(w1 + sign + ds + rest + w2) == None
  {
    var t := sign + ds + rest;
    assert w1 + sign + ds + rest + w2 == w1 + t + w2;
    assert t[0] == if sign != "" then sign[0] else ds[0];
    assert t[|t| - 1] == rest[|rest| - 1];
    TrimOfPadded(w1, t, w2);
    NumberOfTrimmedStops(sign, ds, rest);
  }

  /** The two conversions disagree on text after a number: `parseInt` keeps
      the numeric prefix, `Number` needs the whole string to be a number. */
  lemma TrailingTextDisagreement()
    ensures ParseInt("12abc") == Some(12) && StringToNumber("12abc") == None
  {
    ParseIntRoundTrip("", 12, "abc");
    assert IntToString(12) == "12";
    assert "" + "12" + "abc" == "12abc";
    var t := "12abc";
    assert TrimStart(t) == t && TrimEnd(t) == t;
    assert RadixPrefix(t) == None;
    assert !IsDigit(t[2], 10);
    assert DigitSpan(t, 10) < |t|;
  }

  /** They also disagree on the empty string: NaN for `parseInt`, 0 for `Number`. */
  lemma EmptyTextDisagreement()
    ensures ParseInt("") == None && StringToNumber("") == Some(0)
  {
    var e: string := [];
    assert TrimStart(e) == e && Trim(e) == e;
    assert ParseSigned(e) == None;
  }

  /** `parseInt` reads a `0x` prefix after a sign; `Number` refuses a sign before it. */
  lemma HexPrefix()
    ensures ParseInt("-0x1A") == Some(-26) && StringToNumber("-0x1A") == None
  {
    var t := "-0x1A";
    assert TrimStart(t) == t && TrimEnd(t) == t;
    assert t[1..] == "0x1A" && "0x1A"[2..] == "1A";
    var d := "1A";
    assert DigitSpan(d[1..], 16) == 1 && DigitSpan(d, 16) == 2;
    assert d[..2] == d && d[..1] == "1";
    assert DigitsValue(d, 16) == 26;
    assert !IsDigit('x', 10);
    assert DigitSpan(t[1..], 10) == 1;
  }
}
