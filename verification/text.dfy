/** The JavaScript string operations the pages rely on: `trim`, the
    truthiness of a string, `startsWith`, printing a non-negative integer
    in a template literal, and the global `parseInt` (section 19.2.5 of
    ECMA-262). */
module Text {
  import opened Tables

  /** WhiteSpace and LineTerminator code points of ECMA-262 (sections 12.2
      and 12.3): exactly what `trim` strips and `parseInt` skips. */
  predicate IsWhitespace(c: char) {
    || c == '\t' || c == '\n' || c == '\U{000B}' || c == '\U{000C}' || c == '\r'
    || c == ' ' || c == '\U{00A0}' || c == '\U{1680}'
    || ('\U{2000}' <= c <= '\U{200A}')
    || c == '\U{2028}' || c == '\U{2029}' || c == '\U{202F}' || c == '\U{205F}'
    || c == '\U{3000}' || c == '\U{FEFF}'
  }

  ghost predicate AllWhitespace(s: string) {
    forall i :: 0 <= i < |s| ==> IsWhitespace(s[i])
  }

  lemma {:induction false} WhitespaceCons(c: char, t: string)
    requires IsWhitespace(c) && AllWhitespace(t)
    ensures AllWhitespace([c] + t)
  {
    forall i | 0 <= i < |[c] + t|
      ensures IsWhitespace(([c] + t)[i])
    {
      if i > 0 {
        assert ([c] + t)[i] == t[i - 1];
      }
    }
  }

  lemma {:induction false} WhitespaceSnoc(t: string, c: char)
    requires AllWhitespace(t) && IsWhitespace(c)
    ensures AllWhitespace(t + [c])
  {
    forall i | 0 <= i < |t + [c]|
      ensures IsWhitespace((t + [c])[i])
    {
      if i < |t| {
        assert (t + [c])[i] == t[i];
      }
    }
  }

  /** `trimStart`: drops the leading white space, keeps the rest as is. */
  function TrimStart(s: string): (r: string)
    ensures |r| <= |s| && r == s[|s| - |r|..]
    ensures |r| > 0 ==> !IsWhitespace(r[0])
    ensures AllWhitespace(s[..|s| - |r|])
  {
    if |s| > 0 && IsWhitespace(s[0]) then
      var r := TrimStart(s[1..]);
      var lead := s[1..][..|s[1..]| - |r|];
      assert s[..|s| - |r|] == [s[0]] + lead;
      WhitespaceCons(s[0], lead);
      r
    else s
  }

  /** `trimEnd`: drops the trailing white space, keeps the rest as is. */
  function TrimEnd(s: string): (r: string)
    ensures |r| <= |s| && r == s[..|r|]
    ensures |r| > 0 ==> !IsWhitespace(r[|r| - 1])
    ensures AllWhitespace(s[|r|..])
  {
    if |s| > 0 && IsWhitespace(s[|s| - 1]) then
      var r := TrimEnd(s[..|s| - 1]);
      var trail := s[..|s| - 1][|r|..];
      assert s[|r|..] == trail + [s[|s| - 1]];
      WhitespaceSnoc(trail, s[|s| - 1]);
      r
    else s
  }

  /** `s.trim()`: the middle of `s` left after removing white space at
      both ends. */
  function Trim(s: string): (r: string)
    ensures |r| > 0 ==> !IsWhitespace(r[0]) && !IsWhitespace(r[|r| - 1])
    ensures r == "" <==> AllWhitespace(s)
  {
    var t := TrimStart(s);
    var r := TrimEnd(t);
    TrimEmptyIffBlank(s, t, r);
    r
  }

  lemma {:induction false} TrimEmptyIffBlank(s: string, t: string, r: string)
    requires t == TrimStart(s) && r == TrimEnd(t)
    ensures |r| > 0 ==> !IsWhitespace(r[0])
    ensures r == "" <==> AllWhitespace(s)
  {
    if |r| > 0 {
      assert r[0] == t[0];
    }
    if r == "" {
      // TrimEnd left nothing of t, and TrimStart leaves no white space in
      // front, so nothing remained after the leading white space.
      assert t[|r|..] == t;
      assert t == "";
      assert s[..|s|] == s;
    }
  }

  /** What `trim` keeps is one contiguous piece of the input, starting
      where the leading white space ends. */
  lemma {:induction false} TrimIsSlice(s: string)
    ensures SliceAt(s, Trim(s), |s| - |TrimStart(s)|)
  {
    var t := TrimStart(s);
    TrimUnfold(s);
    SliceOfSlice(s, t, Trim(s), |s| - |t|);
  }

  lemma {:induction false} TrimUnfold(s: string)
    ensures Trim(s) == TrimEnd(TrimStart(s))
  {
  }

  /** What `trim` removes is white space, at the two ends. */
  lemma {:induction false} TrimDropsWhitespace(s: string)
    ensures var lead := |s| - |TrimStart(s)|; var r := Trim(s);
      lead + |r| <= |s| && AllWhitespace(s[..lead]) && AllWhitespace(s[lead + |r|..])
  {
    var t := TrimStart(s);
    var r := TrimEnd(t);
    TrimUnfold(s);
    SliceOfSlice(s, t, r, |s| - |t|);
  }

  lemma {:induction false} SliceOfSlice(s: string, t: string, r: string, lead: nat)
    requires lead <= |s| && t == s[lead..] && |r| <= |t| && r == t[..|r|]
    ensures r == s[lead..lead + |r|] && t[|r|..] == s[lead + |r|..]
    ensures SliceAt(s, r, lead)
  {
  }

  /** `r` is the piece of `s` that starts at `lead`. */
  predicate SliceAt(s: string, r: string, lead: int) {
    0 <= lead && lead + |r| <= |s| && r == s[lead..lead + |r|]
  }

  /** `!s.trim()`: the string is empty once trimmed. */
  predicate IsBlank(s: string) {
    Trim(s) == ""
  }

  lemma {:induction false} TrimIdempotent(s: string)
    ensures Trim(Trim(s)) == Trim(s)
  {
  }

  /** `s || null`: the empty string is falsy, any other string is kept. */
  function NullIfEmpty(s: string): (r: Option<string>)
    ensures r.None? <==> s == ""
    ensures r.Some? ==> r.value == s
  {
    if s == "" then None else Some(s)
  }

  /** `s || fallback` for a string `s`. */
  function OrElse(s: string, fallback: string): (r: string)
    ensures s != "" ==> r == s
    ensures s == "" ==> r == fallback
  {
    if s == "" then fallback else s
  }

  /** `s.startsWith(prefix)`, compared code unit by code unit. */
  predicate StartsWith(s: string, prefix: string) {
    |prefix| <= |s| && s[..|prefix|] == prefix
  }

  function DigitChar(d: nat): (c: char)
    requires d < 10
    ensures '0' <= c <= '9'
  {
    ['0', '1', '2', '3', '4', '5', '6', '7', '8', '9'][d]
  }

  /** A non-negative integer as a template literal prints it: decimal
      digits with no sign and no leading zero. */
  function NatToString(n: nat): (r: string)
    ensures |r| > 0
    ensures forall i :: 0 <= i < |r| ==> '0' <= r[i] <= '9'
    ensures |r| > 1 ==> r[0] != '0'
    decreases n
  {
    if n < 10 then [DigitChar(n)] else NatToString(n / 10) + [DigitChar(n % 10)]
  }

  /** The value of `c` as a digit in base `radix` (2..36), as `parseInt`
      reads it: letters of either case stand for 10 and up. */
  function DigitValue(c: char, radix: nat): (r: Option<nat>)
    ensures r.Some? ==> r.value < radix
  {
    var v: int :=
      if '0' <= c <= '9' then c as int - '0' as int
      else if 'a' <= c <= 'z' then c as int - 'a' as int + 10
      else if 'A' <= c <= 'Z' then c as int - 'A' as int + 10
      else radix;
    if 0 <= v < radix then Some(v) else None
  }

  /** The length of the longest prefix of `s` made of base-`radix` digits. */
  function DigitRun(s: string, radix: nat): (n: nat)
    ensures n <= |s|
    ensures forall i :: 0 <= i < n ==> DigitValue(s[i], radix).Some?
    ensures n < |s| ==> DigitValue(s[n], radix).None?
  {
    if |s| == 0 || DigitValue(s[0], radix).None? then 0 else 1 + DigitRun(s[1..], radix)
  }

  /** The number the digit string `ds` denotes in base `radix`; it is only
      applied to runs of digits, so a non-digit never contributes. */
  function DigitsValue(ds: string, radix: nat): nat
  {
    if |ds| == 0 then 0
    else DigitsValue(ds[..|ds| - 1], radix) * radix + DigitValue(ds[|ds| - 1], radix).GetOr(0)
  }

  /** The optional sign `parseInt` reads after the white space. */
  datatype Signed = Signed(negative: bool, body: string)

  function SplitSign(t: string): Signed {
    if |t| > 0 && t[0] == '-' then Signed(true, t[1..])
    else if |t| > 0 && t[0] == '+' then Signed(false, t[1..])
    else Signed(false, t)
  }

  /** Without a radix argument, `parseInt` reads a `0x` or `0X` prefix as
      base 16 and everything else as base 10. */
  function SplitRadix(u: string): (nat, string) {
    if |u| >= 2 && u[0] == '0' && (u[1] == 'x' || u[1] == 'X') then (16, u[2..]) else (10, u)
  }

  /** The number the longest run of leading digits denotes; none if the
      run is empty. */
  function LeadingNumber(v: string, radix: nat): Option<nat> {
    var n := DigitRun(v, radix);
    if n == 0 then None else Some(DigitsValue(v[..n], radix))
  }

  /** The global `parseInt(s)` with no radix argument, `None` standing for
      NaN: skip leading white space, read an optional sign and radix
      prefix, then the longest run of digits; no digits at all gives NaN.
      A negative zero is the integer 0 here. */
  function ParseInt(s: string): (r: Option<int>)
  {
    var sg := SplitSign(TrimStart(s));
    var (radix, v) := SplitRadix(sg.body);
    match LeadingNumber(v, radix)
    case None => None
    case Some(m) => Some(if sg.negative then -(m as int) else m)
  }

  lemma {:induction false} DigitsOfNatToString(n: nat)
    ensures var s := NatToString(n);
      (forall i :: 0 <= i < |s| ==> DigitValue(s[i], 10).Some?) && DigitsValue(s, 10) == n
    decreases n
  {
    var s := NatToString(n);
    if n < 10 {
      DigitCharValue(n);
    } else {
      var p := NatToString(n / 10);
      DigitsOfNatToString(n / 10);
      DigitCharValue(n % 10);
      assert s == p + [DigitChar(n % 10)];
      assert s[..|s| - 1] == p;
      assert forall i :: 0 <= i < |s| ==> DigitValue(s[i], 10).Some? by {
        forall i | 0 <= i < |s|
          ensures DigitValue(s[i], 10).Some?
        {
          if i < |p| {
            assert s[i] == p[i];
          }
        }
      }
      assert DigitsValue(s, 10) == DigitsValue(p, 10) * 10 + n % 10;
    }
  }

  lemma {:induction false} DigitCharValue(d: nat)
    requires d < 10
    ensures DigitValue(DigitChar(d), 10) == Some(d)
  {
  }

  ghost predicate DecimalDigits(s: string) {
    forall i :: 0 <= i < |s| ==> '0' <= s[i] <= '9'
  }

  lemma {:induction false} DecimalDigitsHaveValues(s: string)
    requires DecimalDigits(s)
    ensures forall i :: 0 <= i < |s| ==> DigitValue(s[i], 10).Some?
    ensures DigitRun(s, 10) == |s|
  {
  }

  lemma {:induction false} DecimalDigitsNotTrimmed(s: string)
    requires |s| > 0 && DecimalDigits(s)
    ensures TrimStart(s) == s && SplitSign(s) == Signed(false, s) && SplitRadix(s) == (10, s)
  {
    assert !IsWhitespace(s[0]);
  }

  /** A non-empty run of decimal digits reads back as the number it
      denotes. */
  lemma {:induction false} ParseIntDigits(s: string)
    requires |s| > 0 && DecimalDigits(s)
    ensures forall i :: 0 <= i < |s| ==> DigitValue(s[i], 10).Some?
    ensures ParseInt(s) == Some(DigitsValue(s, 10))
  {
    DecimalDigitsHaveValues(s);
    DecimalDigitsNotTrimmed(s);
    assert s[..|s|] == s;
    assert LeadingNumber(s, 10) == Some(DigitsValue(s, 10));
  }

  /** Printing a non-negative integer and reading it back with `parseInt`
      gives the same integer. */
  lemma {:induction false} ParseIntNatToString(n: nat)
    ensures ParseInt(NatToString(n)) == Some(n)
  {
    DigitsOfNatToString(n);
    ParseIntDigits(NatToString(n));
  }

  lemma {:induction false} MinusNotTrimmed(s: string)
    ensures TrimStart("-" + s) == "-" + s && SplitSign("-" + s) == Signed(true, s)
  {
    var t := "-" + s;
    assert !IsWhitespace(t[0]);
    assert t[1..] == s;
  }

  /** How `parseInt` reads a string once its sign and radix are known. */
  lemma {:induction false} ParseIntParts(t: string, s: string, negative: bool, m: nat)
    requires TrimStart(t) == t && SplitSign(t) == Signed(negative, s)
    requires SplitRadix(s) == (10, s) && LeadingNumber(s, 10) == Some(m)
    ensures ParseInt(t) == Some(if negative then -(m as int) else m)
  {
  }

  /** The same with a leading minus sign. */
  lemma {:induction false} ParseIntNegative(n: nat)
    ensures ParseInt("-" + NatToString(n)) == Some(-(n as int))
  {
    var s := NatToString(n);
    LeadingOfNatToString(n);
    MinusNotTrimmed(s);
    ParseIntParts("-" + s, s, true, n);
  }

  /** `parseInt` stops at the first character that is not a digit: a
      printed number followed by such a character reads back as the
      number. */
  lemma {:induction false} ParseIntLeading(n: nat, rest: string)
    requires |rest| > 0 && DigitValue(rest[0], 10).None? && rest[0] != 'x' && rest[0] != 'X'
    ensures ParseInt(NatToString(n) + rest) == Some(n)
  {
    var p := NatToString(n);
    var s := p + rest;
    assert s[0] == p[0];
    assert LeadingNumber(s, 10) == Some(n) by {
      DigitsOfNatToString(n);
      DigitRunAppend(p, rest);
      assert s[..|p|] == p;
    }
    assert TrimStart(s) == s by {
      assert !IsWhitespace(s[0]);
    }
    assert SplitRadix(s) == (10, s) by {
      if |p| == 1 {
        assert s[1] == rest[0];
      } else {
        assert s[1] == p[1];
      }
    }
    ParseIntParts(s, s, false, n);
  }

  lemma {:induction false} DigitRunAppend(p: string, rest: string)
    requires forall i :: 0 <= i < |p| ==> DigitValue(p[i], 10).Some?
    requires |rest| > 0 && DigitValue(rest[0], 10).None?
    ensures DigitRun(p + rest, 10) == |p|
  {
    if |p| > 0 {
      assert (p + rest)[1..] == p[1..] + rest;
      DigitRunAppend(p[1..], rest);
    }
  }

  /** The digits of a printed number carry no radix prefix and read back as
      the number. */
  lemma {:induction false} LeadingOfNatToString(n: nat)
    ensures var s := NatToString(n); SplitRadix(s) == (10, s) && LeadingNumber(s, 10) == Some(n)
  {
    var s := NatToString(n);
    DigitsOfNatToString(n);
    DecimalDigitsHaveValues(s);
    DecimalDigitsNotTrimmed(s);
    assert s[..|s|] == s;
  }
}
