/** Python's conversions between `int` and decimal text: `str(n)` and
    `int(s)` in base 10. */
module PythonInt {
  import opened Wrappers
  import opened PythonStr

  predicate IsDigit(c: char) { '0' <= c <= '9' }

  predicate AllDigits(s: string) {
    forall i :: 0 <= i < |s| ==> IsDigit(s[i])
  }

  function DigitValue(c: char): nat
    requires IsDigit(c)
  {
    c as int - '0' as int
  }

  function DigitChar(d: nat): (c: char)
    requires d < 10
    ensures IsDigit(c) && DigitValue(c) == d
  {
    ('0' as int + d) as char
  }

  /** `k` zero digits. */
  function Zeros(k: nat): (z: string)
    ensures |z| == k && AllDigits(z)
  {
    seq(k, _ => '0')
  }

  /** The number that a string of decimal digits denotes; leading zeros are
      allowed and the empty string denotes 0. */
  function DigitsValue(s: string): nat
    requires AllDigits(s)
  {
    if s == [] then 0 else DigitsValue(s[..|s| - 1]) * 10 + DigitValue(s[|s| - 1])
  }

  /** The decimal digits of `n` without leading zeros (`str(n)` for n >= 0);
      they denote `n`, and only 0 itself is written with a leading `0`. */
  function DecimalDigits(n: nat): (d: string)
    ensures d != "" && AllDigits(d) && DigitsValue(d) == n
    ensures d[0] == '0' ==> d == "0"
  {
    if n < 10 then [DigitChar(n)]
    else
      var prefix := DecimalDigits(n / 10);
      var d := prefix + [DigitChar(n % 10)];
      assert d[..|d| - 1] == prefix;
      d
  }

  lemma {:induction false} LeadingDigitPositive(s: string)
    requires s != "" && AllDigits(s) && s[0] != '0'
    ensures DigitsValue(s) >= 1
  {
    if |s| > 1 {
      LeadingDigitPositive(s[..|s| - 1]);
    }
  }

  /** Reading digits and writing them back gives the same text exactly when
      the text has no superfluous leading zero. */
  lemma {:induction false} DecimalDigitsOfValue(s: string)
    requires s != "" && AllDigits(s)
    requires s[0] == '0' ==> s == "0"
    ensures DecimalDigits(DigitsValue(s)) == s
  {
    if |s| > 1 {
      var prefix := s[..|s| - 1];
      LeadingDigitPositive(prefix);
      DecimalDigitsOfValue(prefix);
      assert s == prefix + [s[|s| - 1]];
    }
  }

  /** Leading zeros do not change the value of a digit string. */
  lemma {:induction false} LeadingZerosIgnored(k: nat, s: string)
    requires AllDigits(s)
    ensures DigitsValue(Zeros(k) + s) == DigitsValue(s)
  {
    if s == [] {
      assert Zeros(k) + s == Zeros(k);
      ZerosValue(k);
    } else {
      var prefix := s[..|s| - 1];
      assert (Zeros(k) + s)[..|Zeros(k) + s| - 1] == Zeros(k) + prefix;
      LeadingZerosIgnored(k, prefix);
    }
  }

  lemma {:induction false} ZerosValue(k: nat)
    ensures DigitsValue(Zeros(k)) == 0
  {
    if k > 0 {
      assert Zeros(k)[..k - 1] == Zeros(k - 1);
      ZerosValue(k - 1);
    }
  }

  /** `str(n)` */
  function IntToStr(n: int): string {
    if n < 0 then "-" + DecimalDigits(-n) else DecimalDigits(n)
  }

  // ---------------------------------------------------------------------
  // The whitespace int() skips
  // ---------------------------------------------------------------------

  /** The characters `int()` skips around a literal. CPython turns every
      non-ASCII whitespace character into a space before parsing, then
      skips the ASCII whitespace `\t \n \v \f \r` and space. The ASCII
      separators U+001C to U+001F count as whitespace for `str.split()` but
      are not skipped here. */
  predicate IntSpace(c: char) {
    IsSpace(c) && !('\U{001C}' <= c <= '\U{001F}')
  }

  predicate AllIntSpace(s: string) {
    forall i :: 0 <= i < |s| ==> IntSpace(s[i])
  }


  function TrimLeft(s: string): (r: string)
    ensures |r| <= |s| && r == s[|s| - |r|..] && AllIntSpace(s[..|s| - |r|])
    ensures r == [] || !IntSpace(r[0])
  {
    if s != [] && IntSpace(s[0]) then
      var t := s[1..];
      var r := TrimLeft(t);
      assert s[|s| - |r|..] == t[|t| - |r|..];
      assert AllIntSpace(s[..|s| - |r|]) by {
        forall i | 0 < i < |s| - |r| ensures IntSpace(s[i]) {
          assert s[i] == t[..|t| - |r|][i - 1];
        }
      }
      r
    else s
  }

  function TrimRight(s: string): (r: string)
    ensures |r| <= |s| && r == s[..|r|] && AllIntSpace(s[|r|..])
    ensures r == [] || !IntSpace(r[|r| - 1])
  {
    if s != [] && IntSpace(s[|s| - 1]) then
      var t := s[..|s| - 1];
      var r := TrimRight(t);
      assert s[|r|..] == t[|r|..] + [s[|s| - 1]];
      r
    else s
  }

  /** `s` with the whitespace `int()` skips removed from both ends. */
  function Trim(s: string): (r: string)
    ensures r == [] || (!IntSpace(r[0]) && !IntSpace(r[|r| - 1]))
  {
    TrimRight(TrimLeft(s))
  }

  lemma {:induction false} TrimLeftPadded(a: string, t: string)
    requires AllIntSpace(a)
    requires t == [] || !IntSpace(t[0])
    ensures TrimLeft(a + t) == t
  {
    if a != [] {
      assert (a + t)[1..] == a[1..] + t;
      TrimLeftPadded(a[1..], t);
    }
  }

  lemma {:induction false} TrimRightPadded(t: string, b: string)
    requires AllIntSpace(b)
    requires t == [] || !IntSpace(t[|t| - 1])
    ensures TrimRight(t + b) == t
  {
    if b != [] {
      assert (t + b)[..|t + b| - 1] == t + b[..|b| - 1];
      TrimRightPadded(t, b[..|b| - 1]);
    }
  }

  /** Trimming removes exactly the surrounding whitespace. */
  lemma TrimPadded(a: string, t: string, b: string)
    requires AllIntSpace(a) && AllIntSpace(b)
    requires t != [] && !IntSpace(t[0]) && !IntSpace(t[|t| - 1])
    ensures Trim(a + t + b) == t
  {
    assert a + t + b == a + (t + b);
    TrimLeftPadded(a, t + b);
    TrimRightPadded(t, b);
  }

  // ---------------------------------------------------------------------
  // int(s)
  // ---------------------------------------------------------------------

  /** Position `i` of `b` holds a digit, or an underscore with a digit on
      either side. */
  predicate DigitOrJoiner(b: string, i: int)
    requires 0 <= i < |b|
  {
    || IsDigit(b[i])
    || (b[i] == '_' && 0 < i < |b| - 1 && IsDigit(b[i - 1]) && IsDigit(b[i + 1]))
  }

  /** The digits part of an integer literal: digits, optionally grouped by
      single underscores, starting and ending with a digit. */
  predicate IsDigitRun(b: string) {
    b != "" && forall i :: 0 <= i < |b| ==> DigitOrJoiner(b, i)
  }

  lemma {:induction false} DigitsOrUnderscores(s: string)
    requires forall i :: 0 <= i < |s| ==> IsDigit(s[i]) || s[i] == '_'
    ensures AllDigits(Remove(s, '_'))
  {
    if s != [] {
      DigitsOrUnderscores(s[1..]);
    }
  }

  function RunValue(b: string): nat
    requires IsDigitRun(b)
  {
    assert forall i :: 0 <= i < |b| ==> IsDigit(b[i]) || b[i] == '_' by {
      forall i | 0 <= i < |b| ensures IsDigit(b[i]) || b[i] == '_' {
        assert DigitOrJoiner(b, i);
      }
    }
    DigitsOrUnderscores(b);
    DigitsValue(Remove(b, '_'))
  }

  /** What `int()` can accept once the whitespace is trimmed: not empty, a
      sign or a digit first, and only digits and underscores after it. */
  predicate LiteralChars(t: string) {
    && t != ""
    && forall i :: 0 <= i < |t| ==> || IsDigit(t[i]) || t[i] == '_'
                                    || (i == 0 && (t[i] == '+' || t[i] == '-'))
  }

  /** An integer literal: an optional sign, then a digit run. */
  predicate SignedRun(t: string) {
    || IsDigitRun(t)
    || (t != [] && (t[0] == '+' || t[0] == '-') && IsDigitRun(t[1..]))
  }

  /** `int(s)`: surrounding whitespace is ignored, an optional sign is
      followed by a digit run. `None` stands for the ValueError Python
      raises on any other text: a lone sign, an underscore at either end of
      the digits or next to another one, or any other character. Only
      literal characters are accepted, and a negative value needs the
      `-`. */
  function ParseInt(s: string): (r: Option<int>)
    ensures r.Some? ==> LiteralChars(Trim(s))
    ensures r.Some? && r.value < 0 ==> Trim(s)[0] == '-'
  {
    ParseLiteral(Trim(s))
  }

  /** `int()` of text whose surrounding whitespace is already trimmed. */
  function ParseLiteral(t: string): (r: Option<int>)
    ensures r.Some? ==> LiteralChars(t)
    ensures r.Some? && r.value < 0 ==> t[0] == '-'
  {
    if t != [] && (t[0] == '+' || t[0] == '-') then
      var body := t[1..];
      if IsDigitRun(body) then
        SignedRunChars(t);
        var v: int := RunValue(body);
        Some(if t[0] == '-' then -v else v)
      else None
    else if IsDigitRun(t) then
      RunChars(t);
      Some(RunValue(t))
    else None
  }

  /** `int()` accepts exactly the text that is an integer literal once its
      surrounding whitespace is trimmed. */
  lemma ParseIntAccepts(s: string)
    ensures ParseInt(s).Some? <==> SignedRun(Trim(s))
  {
    LiteralAccepts(Trim(s));
  }

  lemma LiteralAccepts(t: string)
    ensures ParseLiteral(t).Some? <==> SignedRun(t)
  {
    if t != [] && (t[0] == '+' || t[0] == '-') {
      assert !DigitOrJoiner(t, 0);
    }
  }

  lemma RunChars(t: string)
    requires IsDigitRun(t)
    ensures LiteralChars(t)
  {
    forall i | 0 <= i < |t| ensures IsDigit(t[i]) || t[i] == '_' {
      assert DigitOrJoiner(t, i);
    }
  }

  lemma SignedRunChars(t: string)
    requires t != [] && (t[0] == '+' || t[0] == '-') && IsDigitRun(t[1..])
    ensures LiteralChars(t)
  {
    var body := t[1..];
    forall i | 0 < i < |t| ensures IsDigit(t[i]) || t[i] == '_' {
      assert t[i] == body[i - 1] && DigitOrJoiner(body, i - 1);
    }
  }

  lemma DigitsAreRun(d: string)
    requires d != "" && AllDigits(d)
    ensures IsDigitRun(d) && RunValue(d) == DigitsValue(d)
  {
    assert forall i :: 0 <= i < |d| ==> DigitOrJoiner(d, i);
    RemoveAbsent(d, '_');
  }

  /** `int()` reads back what `str()` writes, whatever whitespace it skips
      surrounds it. */
  lemma ParseIntStr(a: string, n: int, b: string)
    requires AllIntSpace(a) && AllIntSpace(b)
    ensures ParseInt(a + IntToStr(n) + b) == Some(n)
  {
    var t := IntToStr(n);
    assert t != [] && !IntSpace(t[0]) && !IntSpace(t[|t| - 1]) by {
      if n < 0 {
        assert t[1..] == DecimalDigits(-n);
        assert t[|t| - 1] == DecimalDigits(-n)[|t| - 2];
      }
    }
    TrimPadded(a, t, b);
    ParseTrimmed(a + t + b, n);
  }

  lemma ParseTrimmed(s: string, n: int)
    requires Trim(s) == IntToStr(n)
    ensures ParseInt(s) == Some(n)
  {
    if n < 0 {
      assert Trim(s)[1..] == DecimalDigits(-n);
      DigitsAreRun(DecimalDigits(-n));
    } else {
      DigitsAreRun(DecimalDigits(n));
    }
  }

  /** `int()` also takes an explicit `+` or `-` and leading zeros: a sign,
      any number of zeros and the digits of `n` read as `n` or `-n`. */
  lemma ParseIntPadded(a: string, sign: string, k: nat, n: nat, b: string)
    requires AllIntSpace(a) && AllIntSpace(b)
    requires sign == "" || sign == "+" || sign == "-"
    ensures ParseInt(a + sign + Zeros(k) + DecimalDigits(n) + b) == Some(if sign == "-" then -(n as int) else n)
  {
    var s := a + sign + Zeros(k) + DecimalDigits(n) + b;
    var body := Zeros(k) + DecimalDigits(n);
    var t := sign + body;
    assert IsDigitRun(body) && Trim(s) == t by {
      PaddedRun(sign, k, n, t);
      Regroup(a, sign, Zeros(k), DecimalDigits(n), b);
      TrimPadded(a, t, b);
    }
    assert RunValue(body) == n by {
      PaddedRun(sign, k, n, t);
      LeadingZerosIgnored(k, DecimalDigits(n));
    }
    SignedLiteral(t, sign, body, n);
  }

  lemma Regroup(a: string, sign: string, zeros: string, digits: string, b: string)
    ensures a + sign + zeros + digits + b == a + (sign + (zeros + digits)) + b
  {
  }

  lemma PaddedRun(sign: string, k: nat, n: nat, t: string)
    requires sign == "" || sign == "+" || sign == "-"
    requires t == sign + (Zeros(k) + DecimalDigits(n))
    ensures t != [] && !IntSpace(t[0]) && !IntSpace(t[|t| - 1])
    ensures IsDigitRun(Zeros(k) + DecimalDigits(n))
    ensures RunValue(Zeros(k) + DecimalDigits(n)) == DigitsValue(Zeros(k) + DecimalDigits(n))
  {
    var body := Zeros(k) + DecimalDigits(n);
    DigitsAreRun(body);
    assert IsDigit(body[0]) && IsDigit(body[|body| - 1]);
    assert t[|t| - 1] == body[|body| - 1];
    assert t[0] == (if sign == "" then body[0] else sign[0]);
    LiteralNotSpace(t[0]);
    LiteralNotSpace(t[|t| - 1]);
  }

  lemma LiteralNotSpace(c: char)
    requires IsDigit(c) || c == '+' || c == '-'
    ensures !IntSpace(c)
  {
  }

  /** A trimmed literal of an optional sign and a digit run reads as the
      run's value, negated after a `-`. */
  lemma SignedLiteral(t: string, sign: string, body: string, n: nat)
    requires sign == "" || sign == "+" || sign == "-"
    requires IsDigitRun(body) && RunValue(body) == n
    requires t == sign + body
    ensures ParseLiteral(t) == Some(if sign == "-" then -(n as int) else n)
  {
    if sign == "" {
      assert t == body && DigitOrJoiner(body, 0);
    } else {
      assert t[0] == sign[0] && t[1..] == body;
    }
  }

  lemma ConcatDigits(groups: seq<string>)
    requires forall i :: 0 <= i < |groups| ==> AllDigits(groups[i])
    ensures AllDigits(Concat(groups))
  {
    if groups != [] {
      ConcatDigits(groups[1..]);
    }
  }

  /** The value of digit groups read one after the other. */
  function GroupedValue(groups: seq<string>): nat
    requires forall i :: 0 <= i < |groups| ==> AllDigits(groups[i])
  {
    ConcatDigits(groups);
    DigitsValue(Concat(groups))
  }

  /** Digit groups joined by single underscores form a digit run, whose
      value is that of the digits without the underscores. */
  lemma {:induction false} JoinedRun(groups: seq<string>)
    requires |groups| >= 1
    requires forall i :: 0 <= i < |groups| ==> groups[i] != "" && AllDigits(groups[i])
    ensures IsDigitRun(Join(groups, "_"))
    ensures RunValue(Join(groups, "_")) == GroupedValue(groups)
  {
    var run := Join(groups, "_");
    if |groups| == 1 {
      DigitsAreRun(groups[0]);
    } else {
      var g := groups[0];
      var rest := Join(groups[1..], "_");
      JoinedRun(groups[1..]);
      assert run == g + "_" + rest;
      assert IsDigit(rest[0]) by {
        assert DigitOrJoiner(rest, 0);
      }
      forall i | 0 <= i < |run| ensures DigitOrJoiner(run, i) {
        if i < |g| {
          assert run[i] == g[i];
        } else if i == |g| {
          assert run[i - 1] == g[|g| - 1] && run[i + 1] == rest[0];
        } else {
          var k := i - |g| - 1;
          assert DigitOrJoiner(rest, k);
          assert run[i] == rest[k];
          if !IsDigit(rest[k]) {
            assert run[i - 1] == rest[k - 1] && run[i + 1] == rest[k + 1];
          }
        }
      }
    }
    forall i | 0 <= i < |groups| ensures Free(groups[i], '_') {
      DigitsFree(groups[i]);
    }
    RemoveJoin(groups, '_');
  }

  lemma DigitsFree(d: string)
    requires AllDigits(d)
    ensures Free(d, '_')
  {
    forall i | 0 <= i < |d| ensures d[i] != '_' {
      assert IsDigit(d[i]);
    }
  }

  /** `int()` accepts digits grouped by single underscores, after an
      optional sign and with skipped whitespace around them, and reads the
      digits without the underscores. */
  lemma ParseIntGrouped(a: string, sign: string, groups: seq<string>, b: string, n: nat)
    requires AllIntSpace(a) && AllIntSpace(b)
    requires sign == "" || sign == "+" || sign == "-"
    requires |groups| >= 1
    requires forall i :: 0 <= i < |groups| ==> groups[i] != "" && AllDigits(groups[i])
    requires n == GroupedValue(groups)
    ensures ParseInt(a + sign + Join(groups, "_") + b) == Some(if sign == "-" then -(n as int) else n)
  {
    var body := Join(groups, "_");
    assert IsDigitRun(body) && RunValue(body) == n by {
      JoinedRun(groups);
    }
    ParseIntRun(a, sign, body, b, n);
  }

  /** A sign and a digit run, with skipped whitespace around them, read as
      the run's value, negated after a `-`. */
  lemma ParseIntRun(a: string, sign: string, body: string, b: string, n: nat)
    requires AllIntSpace(a) && AllIntSpace(b)
    requires sign == "" || sign == "+" || sign == "-"
    requires IsDigitRun(body) && RunValue(body) == n
    ensures Trim(a + sign + body + b) == sign + body
    ensures ParseInt(a + sign + body + b) == Some(if sign == "-" then -(n as int) else n)
  {
    var s := a + sign + body + b;
    var t := sign + body;
    assert Trim(s) == t by {
      GroupedEnds(sign, body, t);
      Associate(a, sign, body, b);
      TrimPadded(a, t, b);
    }
    SignedLiteral(t, sign, body, n);
  }

  lemma Associate(a: string, sign: string, body: string, b: string)
    ensures a + sign + body + b == a + (sign + body) + b
  {
  }

  lemma GroupedEnds(sign: string, body: string, t: string)
    requires sign == "" || sign == "+" || sign == "-"
    requires IsDigitRun(body) && t == sign + body
    ensures t != [] && !IntSpace(t[0]) && !IntSpace(t[|t| - 1])
  {
    assert DigitOrJoiner(body, 0) && DigitOrJoiner(body, |body| - 1);
    assert t[|t| - 1] == body[|body| - 1];
    LiteralNotSpace(body[0]);
    LiteralNotSpace(body[|body| - 1]);
    if sign != "" {
      assert t[0] == sign[0];
      LiteralNotSpace(sign[0]);
    } else {
      assert t[0] == body[0];
    }
  }

  /** Text that is no literal and has nothing to trim is refused. */
  lemma RefusedLiteral(s: string)
    requires s != [] && !IntSpace(s[0]) && !IntSpace(s[|s| - 1])
    requires !SignedRun(s)
    ensures ParseInt(s) == None
  {
    var t := Trim(s);
    assert t == s by {
      TrimPadded("", s, "");
      assert "" + s + "" == s;
    }
    LiteralAccepts(t);
    assert ParseLiteral(t) == None;
  }

  /** A lone sign is refused. */
  lemma ExampleLoneSign()
    ensures ParseInt("+") == None
  {
    assert !SignedRun("+") by {
      assert "+"[1..] == "" && !DigitOrJoiner("+", 0);
    }
    RefusedLiteral("+");
  }

  /** An underscore before the digits is refused. */
  lemma ExampleLeadingUnderscore()
    ensures ParseInt("_5") == None
  {
    assert !SignedRun("_5") by {
      assert !DigitOrJoiner("_5", 0);
    }
    RefusedLiteral("_5");
  }

  /** An underscore after the digits is refused. */
  lemma ExampleTrailingUnderscore()
    ensures ParseInt("5_") == None
  {
    assert !SignedRun("5_") by {
      assert !DigitOrJoiner("5_", 1);
    }
    RefusedLiteral("5_");
  }

  /** Two underscores in a row are refused. */
  lemma ExampleDoubleUnderscore()
    ensures ParseInt("1__0") == None
  {
    assert !SignedRun("1__0") by {
      assert !DigitOrJoiner("1__0", 1);
    }
    RefusedLiteral("1__0");
  }

  /** `int()` of blank text raises. */
  lemma ParseIntBlank(s: string)
    requires AllIntSpace(s)
    ensures ParseInt(s) == None
  {
  }

  /** Digits grouped by an underscore: `int("1_000")` is 1000. */
  lemma ExampleUnderscore(s: string)
    requires s == "1_000"
    ensures ParseInt(s) == Some(1000)
  {
    UnderscoreParts(s);
    TrimPadded("", s, "");
    assert "" + s + "" == s;
    assert Trim(s) == s;
    assert !(s[0] == '+' || s[0] == '-');
    assert ParseInt(s) == Some(RunValue(s));
  }

  lemma UnderscoreParts(s: string)
    requires s == "1_000"
    ensures IsDigitRun(s) && RunValue(s) == 1000
  {
    assert forall i :: 0 <= i < |s| ==> DigitOrJoiner(s, i);
    assert s == Join(["1", "000"], "_");
    RemoveJoin(["1", "000"], '_');
    var d := Concat(["1", "000"]);
    assert d == "1000";
    assert DigitsValue(d[..1]) == 1;
    assert d[..2][..1] == d[..1];
    assert DigitsValue(d[..2]) == 10;
    assert d[..3][..2] == d[..2];
    assert DigitsValue(d[..3]) == 100;
    assert d[..3] == d[..|d| - 1];
  }

  /** A U+001C character in front of a number is not skipped. */
  lemma ExampleFileSeparatorRefused(s: string)
    requires s == "\U{001C}5"
    ensures ParseInt(s) == None
  {
    assert !SignedRun(s) by {
      assert !DigitOrJoiner(s, 0);
    }
    RefusedLiteral(s);
  }

  /** A no-break space in front of a number is skipped. */
  lemma ExampleNoBreakSpace(s: string)
    requires s == "\U{00A0}5"
    ensures ParseInt(s) == Some(5)
  {
    NoBreakSpaceText(s);
    ParseIntPadded("\U{00A0}", "", 0, 5, "");
  }

  lemma NoBreakSpaceText(s: string)
    requires s == "\U{00A0}5"
    ensures "\U{00A0}" + "" + Zeros(0) + DecimalDigits(5) + "" == s
    ensures AllIntSpace("\U{00A0}")
  {
  }
}
