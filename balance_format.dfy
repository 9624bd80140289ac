/** The amount shown by `!LootBal`: the summed balance rendered with
    Python's `"{:,}"` thousands separator, then rewritten so that `-`
    separates the thousands and `,` marks the decimal point, with a zero or
    missing sum shown as `-0-`. */
module BalanceFormat {
  import opened Wrappers
  import opened PythonStr
  import opened PythonInt

  /** The value of `SUM(Amount)` as the database driver hands it over: SQL
      NULL (no matching row), or an exact decimal written as a sign, the
      coefficient digits and the number of digits after the decimal point.
      A whole-number sum has scale 0. */
  datatype Total = Null | Number(negative: bool, coefficient: nat, scale: nat)

  /** A Python `int` sum. */
  function FromInt(n: int): (t: Total)
    ensures t.Number? && t.scale == 0
    ensures (if t.negative then -(t.coefficient as int) else t.coefficient as int) == n
  {
    Number(n < 0, if n < 0 then -n else n, 0)
  }

  /** `total_amount == 0`: a zero of any scale and sign. */
  predicate IsZero(t: Total) {
    t.Number? && t.coefficient == 0
  }

  // ---------------------------------------------------------------------
  // Thousands grouping
  // ---------------------------------------------------------------------

  /** Groups of digits as the `,` format option lays them out: counted from
      the right in threes, so only the first group may be shorter. */
  predicate WellGrouped(groups: seq<string>) {
    && |groups| >= 1
    && 1 <= |groups[0]| <= 3
    && (forall i :: 0 < i < |groups| ==> |groups[i]| == 3)
    && (forall i :: 0 <= i < |groups| ==> AllDigits(groups[i]))
  }

  /** The digit string `d` cut into its thousands groups. */
  function Chunks(d: string): (groups: seq<string>)
    requires d != "" && AllDigits(d)
    ensures WellGrouped(groups) && Concat(groups) == d
    decreases |d|
  {
    if |d| <= 3 then
      assert Concat([d]) == d + Concat([]);
      [d]
    else
      var head := Chunks(d[..|d| - 3]);
      var last := d[|d| - 3..];
      assert AllDigits(last) by {
        forall i | 0 <= i < |last| ensures IsDigit(last[i]) {
          assert last[i] == d[|d| - 3 + i];
        }
      }
      ConcatSnoc(head, last);
      assert d[..|d| - 3] + last == d;
      head + [last]
  }

  lemma DigitsFree(s: string, c: char)
    requires AllDigits(s) && !IsDigit(c)
    ensures Free(s, c)
  {
  }

  lemma GroupsFree(groups: seq<string>, c: char)
    requires WellGrouped(groups) && !IsDigit(c)
    ensures forall i :: 0 <= i < |groups| ==> Free(groups[i], c)
  {
    forall i | 0 <= i < |groups| ensures Free(groups[i], c) {
      DigitsFree(groups[i], c);
    }
  }

  // ---------------------------------------------------------------------
  // Decimal point placement
  // ---------------------------------------------------------------------

  /** How many digits of the coefficient stand before the decimal point
      (zero or negative when the number is below one). */
  function LeftDigits(coefficient: nat, scale: nat): int {
    |DecimalDigits(coefficient)| - scale
  }

  /** The `G` presentation type, which `Decimal` uses when the format names
      none, writes the number out in full unless it would need more than
      five zeros after the decimal point before the first digit. */
  predicate Positional(coefficient: nat, scale: nat) {
    LeftDigits(coefficient, scale) > -6
  }

  /** The digits before the decimal point. */
  function IntPart(coefficient: nat, scale: nat): (r: string)
    ensures r != "" && AllDigits(r)
  {
    var digits := DecimalDigits(coefficient);
    var left := LeftDigits(coefficient, scale);
    if left <= 0 then "0" else digits[..left]
  }

  /** The digits after the decimal point: exactly `scale` of them, and with
      the integer part they spell the coefficient. */
  function FracPart(coefficient: nat, scale: nat): (r: string)
    ensures |r| == scale && AllDigits(r)
    ensures AllDigits(IntPart(coefficient, scale) + r)
    ensures DigitsValue(IntPart(coefficient, scale) + r) == coefficient
  {
    var digits := DecimalDigits(coefficient);
    var left := LeftDigits(coefficient, scale);
    if left <= 0 then
      var r := Zeros(-left) + digits;
      PaddedValue(-left, digits);
      r
    else
      var r := digits[left..];
      assert IntPart(coefficient, scale) + r == digits;
      r
  }

  /** Zeros after a leading `0` leave the value of the digits alone. */
  lemma PaddedValue(k: nat, digits: string)
    requires AllDigits(digits)
    ensures AllDigits("0" + (Zeros(k) + digits))
    ensures DigitsValue("0" + (Zeros(k) + digits)) == DigitsValue(digits)
  {
    assert "0" + (Zeros(k) + digits) == Zeros(k + 1) + digits;
    LeadingZerosIgnored(k + 1, digits);
  }

  function Sign(negative: bool): string {
    if negative then "-" else ""
  }

  /** What follows the integer digits in the hyphenated output: nothing for
      a whole number, otherwise `,` and the fraction digits. */
  function FracSuffix(frac: string): string {
    if frac == "" then "" else "," + frac
  }

  /** `"{:,}".format(x)` for a number `x`: sign, grouped integer part and
      `.` with the fraction digits; below the positional range the number
      is written as one digit, the remaining digits after `.`, and `E-` with
      the exponent. */
  function CommaFormat(negative: bool, coefficient: nat, scale: nat): (r: string)
    ensures r != ""
    ensures negative ==> r[0] == '-'
    ensures !negative ==> IsDigit(r[0])
  {
    var digits := DecimalDigits(coefficient);
    var left := LeftDigits(coefficient, scale);
    if Positional(coefficient, scale) then
      var frac := FracPart(coefficient, scale);
      var groups := Chunks(IntPart(coefficient, scale));
      JoinPrefix(groups, ",");
      assert IsDigit(Join(groups, ",")[0]) by {
        assert Join(groups, ",")[0] == groups[0][0];
      }
      Sign(negative) + Join(groups, ",")
        + (if frac == "" then "" else "." + frac)
    else
      Sign(negative) + [digits[0]] + (if |digits| > 1 then "." + digits[1..] else "")
        + "E-" + DecimalDigits(1 - left)
  }

  /** `format_with_hyphens(number)`: empty for `None`; otherwise the `,`
      rendering with every `,` turned into `-` and then every `.` into `,`.
      No `.` survives, and only `None` gives the empty text. */
  function FormatWithHyphens(t: Total): (r: string)
    ensures r == "" <==> t.Null?
    ensures Free(r, '.')
  {
    match t
    case Null => ""
    case Number(negative, coefficient, scale) =>
      var s := CommaFormat(negative, coefficient, scale);
      assert |s| > 0 by {
        if Positional(coefficient, scale) {
          JoinPrefix(Chunks(IntPart(coefficient, scale)), ",");
        }
      }
      Replace(Replace(s, ',', '-'), '.', ',')
  }

  /** The amount the reply reports: `-0-` for a zero or missing sum,
      otherwise the hyphenated rendering. */
  function ReportedAmount(t: Total): (r: string)
    ensures r != ""
    ensures r == "-0-" <==> t.Null? || IsZero(t)
    ensures !(t.Null? || IsZero(t)) ==> r == FormatWithHyphens(t)
  {
    var formatted := FormatWithHyphens(t);
    if IsZero(t) || t.Null? then "-0-"
    else
      NonZeroNotMarker(t);
      formatted
  }

  // ---------------------------------------------------------------------
  // Shape of the output
  // ---------------------------------------------------------------------

  /** The first rewrite turns the thousands separators into `-` and leaves
      the sign and the fraction alone. */
  lemma RewriteSeparators(sign: string, groups: seq<string>, tail: string)
    requires Free(sign, ',') && Free(tail, ',')
    requires forall i :: 0 <= i < |groups| ==> Free(groups[i], ',')
    ensures Replace(sign + Join(groups, ",") + tail, ',', '-') == sign + Join(groups, "-") + tail
  {
    ReplaceAppend(sign + Join(groups, ","), tail, ',', '-');
    ReplaceAppend(sign, Join(groups, ","), ',', '-');
    ReplaceAbsent(sign, ',', '-');
    ReplaceJoin(groups, ',', '-');
    ReplaceAbsent(tail, ',', '-');
  }

  /** The second rewrite turns the decimal point into `,` and touches
      nothing else. */
  lemma RewritePoint(head: string, frac: string)
    requires Free(head, '.') && Free(frac, '.')
    ensures Replace(head + (if frac == "" then "" else "." + frac), '.', ',')
         == head + FracSuffix(frac)
  {
    ReplaceAbsent(head, '.', ',');
    if frac != "" {
      PointToComma(head, "." + frac, frac);
    } else {
      assert head + "" == head;
    }
  }

  lemma PointToComma(head: string, tail: string, frac: string)
    requires Free(head, '.') && Free(frac, '.') && tail == "." + frac
    ensures Replace(head + tail, '.', ',') == head + ("," + frac)
  {
    ReplaceAppend(head, tail, '.', ',');
    ReplaceAbsent(head, '.', ',');
    ReplaceAppend(".", frac, '.', ',');
    ReplaceAbsent(frac, '.', ',');
  }

  /** In the positional range the output is the sign, the integer digits in
      `-`-separated thousands groups and, when there is a fraction, `,` and
      the fraction digits. */
  lemma PositionalForm(negative: bool, coefficient: nat, scale: nat)
    requires Positional(coefficient, scale)
    ensures FormatWithHyphens(Number(negative, coefficient, scale))
         == Sign(negative) + Join(Chunks(IntPart(coefficient, scale)), "-")
            + FracSuffix(FracPart(coefficient, scale))
  {
    var sign := Sign(negative);
    var groups := Chunks(IntPart(coefficient, scale));
    var frac := FracPart(coefficient, scale);
    var tail := if frac == "" then "" else "." + frac;
    assert CommaFormat(negative, coefficient, scale) == sign + Join(groups, ",") + tail;
    GroupsFree(groups, ',');
    GroupsFree(groups, '.');
    DigitsFree(frac, ',');
    DigitsFree(frac, '.');
    RewriteSeparators(sign, groups, tail);
    JoinFree(groups, "-", '.');
    RewritePoint(sign + Join(groups, "-"), frac);
  }

  /** For a whole number n >= 0 the output holds no `,`; dropping the `-`
      separators leaves the decimal digits of n; and the pieces between the
      separators are digit groups, the first of one to three digits and
      every later one of exactly three. */
  lemma NonNegativeIntFormat(n: nat)
    ensures Free(FormatWithHyphens(FromInt(n)), ',')
    ensures Remove(FormatWithHyphens(FromInt(n)), '-') == DecimalDigits(n)
    ensures WellGrouped(SplitOn(FormatWithHyphens(FromInt(n)), '-'))
  {
    var groups := Chunks(IntPart(n, 0));
    assert IntPart(n, 0) == DecimalDigits(n);
    PositionalForm(false, n, 0);
    assert FormatWithHyphens(FromInt(n)) == Join(groups, "-");
    GroupsFree(groups, ',');
    GroupsFree(groups, '-');
    JoinFree(groups, "-", ',');
    RemoveJoin(groups, '-');
    SplitOnJoin(groups, '-');
  }

  /** A negative whole number is written as `-` followed by the writing of
      its magnitude. */
  lemma NegativeIntFormat(n: int)
    requires n < 0
    ensures FormatWithHyphens(FromInt(n)) == "-" + FormatWithHyphens(FromInt(-n))
  {
    var m: nat := -n;
    assert FromInt(n) == Number(true, m, 0);
    assert FromInt(-n) == Number(false, m, 0);
    PositionalForm(true, m, 0);
    PositionalForm(false, m, 0);
    var joined := Join(Chunks(IntPart(m, 0)), "-");
    assert Sign(true) + joined + FracSuffix(FracPart(m, 0)) == "-" + (Sign(false) + joined + FracSuffix(FracPart(m, 0)));
  }

  // ---------------------------------------------------------------------
  // Reading the format back
  // ---------------------------------------------------------------------

  /** Reads positional text in the hyphenated format: an optional `-`, then
      thousands groups separated by `-`, then optionally `,` and at least
      one fraction digit. */
  function ReadHyphenated(s: string): Option<Total> {
    var negative := s != "" && s[0] == '-';
    match ReadUnsigned(if negative then s[1..] else s)
    case None => None
    case Some((coefficient, scale)) => Some(Number(negative, coefficient, scale))
  }

  /** The coefficient and scale of an unsigned hyphenated number. */
  function ReadUnsigned(body: string): Option<(nat, nat)> {
    var parts := SplitOn(body, ',');
    var groups := SplitOn(parts[0], '-');
    var frac := if |parts| == 2 then parts[1] else "";
    if |parts| > 2 || !WellGrouped(groups) || (|parts| == 2 && frac == "") || !AllDigits(frac) then None
    else
      ConcatDigits(groups);
      Some((DigitsValue(Concat(groups) + frac), |frac|))
  }

  lemma JoinPrefix(pieces: seq<string>, sep: string)
    requires |pieces| >= 1
    ensures |Join(pieces, sep)| >= |pieces[0]|
    ensures Join(pieces, sep)[..|pieces[0]|] == pieces[0]
  {
  }

  lemma ReadUnsignedSplit(body: string, joined: string, groups: seq<string>, frac: string)
    requires WellGrouped(groups) && AllDigits(frac)
    requires SplitOn(body, ',') == (if frac == "" then [joined] else [joined, frac])
    requires SplitOn(joined, '-') == groups
    requires AllDigits(Concat(groups) + frac)
    ensures ReadUnsigned(body) == Some((DigitsValue(Concat(groups) + frac), |frac|))
  {
  }

  lemma SplitFraction(joined: string, frac: string)
    requires Free(joined, ',') && AllDigits(frac) && frac != ""
    ensures SplitOn(joined + "," + frac, ',') == [joined, frac]
  {
    DigitsFree(frac, ',');
    SplitOnTwo(joined, frac, ',');
    assert joined + "," + frac == joined + [','] + frac;
  }

  lemma ReadUnsignedWhole(joined: string, groups: seq<string>)
    requires WellGrouped(groups)
    requires Free(joined, ',') && SplitOn(joined, '-') == groups
    requires AllDigits(Concat(groups) + "")
    ensures ReadUnsigned(joined) == Some((DigitsValue(Concat(groups) + ""), 0))
  {
    SplitOnOne(joined, ',');
    ReadUnsignedSplit(joined, joined, groups, "");
  }

  lemma ReadUnsignedFraction(joined: string, groups: seq<string>, frac: string)
    requires WellGrouped(groups) && AllDigits(frac) && frac != ""
    requires Free(joined, ',') && SplitOn(joined, '-') == groups
    requires AllDigits(Concat(groups) + frac)
    ensures ReadUnsigned(joined + "," + frac) == Some((DigitsValue(Concat(groups) + frac), |frac|))
  {
    SplitFraction(joined, frac);
    ReadUnsignedSplit(joined + "," + frac, joined, groups, frac);
  }

  /** Thousands groups joined by `-` hold no `,` and split back into the
      same groups. */
  lemma JoinedGroups(groups: seq<string>)
    requires WellGrouped(groups)
    ensures Free(Join(groups, "-"), ',') && SplitOn(Join(groups, "-"), '-') == groups
  {
    GroupsFree(groups, ',');
    JoinFree(groups, "-", ',');
    GroupsFree(groups, '-');
    SplitOnJoin(groups, '-');
  }

  /** Text made of `-`-separated groups, optionally followed by `,` and the
      fraction digits, reads back as those digits and the fraction length. */
  lemma ReadUnsignedJoined(joined: string, groups: seq<string>, frac: string)
    requires WellGrouped(groups) && AllDigits(frac)
    requires Free(joined, ',') && SplitOn(joined, '-') == groups
    requires AllDigits(Concat(groups) + frac)
    ensures ReadUnsigned(joined + FracSuffix(frac))
         == Some((DigitsValue(Concat(groups) + frac), |frac|))
  {
    if frac == "" {
      assert joined + FracSuffix(frac) == joined;
      ReadUnsignedWhole(joined, groups);
    } else {
      assert joined + FracSuffix(frac) == joined + "," + frac;
      ReadUnsignedFraction(joined, groups, frac);
    }
  }

  lemma GroupDigits(groups: seq<string>, frac: string)
    requires WellGrouped(groups) && AllDigits(frac)
    ensures AllDigits(Concat(groups) + frac)
  {
    ConcatDigits(groups);
  }

  /** With its sign in front, such text reads back as a signed number. */
  lemma ReadSignedJoined(negative: bool, joined: string, groups: seq<string>, frac: string)
    requires WellGrouped(groups) && AllDigits(frac)
    requires Free(joined, ',') && SplitOn(joined, '-') == groups
    requires joined != "" && IsDigit(joined[0])
    requires AllDigits(Concat(groups) + frac)
    ensures ReadHyphenated(Sign(negative) + joined + FracSuffix(frac))
         == Some(Number(negative, DigitsValue(Concat(groups) + frac), |frac|))
  {
    ReadUnsignedJoined(joined, groups, frac);
    var body := joined + FracSuffix(frac);
    assert body[0] == joined[0];
    ReadSigned(negative, body, DigitsValue(Concat(groups) + frac), |frac|);
    Associative(Sign(negative), joined, FracSuffix(frac));
  }

  /** A sign in front of an unsigned number that starts with a digit is
      read as that sign. */
  lemma ReadSigned(negative: bool, body: string, coefficient: nat, scale: nat)
    requires body != "" && IsDigit(body[0])
    requires ReadUnsigned(body) == Some((coefficient, scale))
    ensures ReadHyphenated(Sign(negative) + body) == Some(Number(negative, coefficient, scale))
  {
    assert (Sign(negative) + body)[|Sign(negative)|..] == body;
  }

  lemma Associative(x: string, y: string, z: string)
    ensures x + y + z == x + (y + z)
  {
  }

  /** Reading back text assembled from a sign, thousands groups and fraction
      digits recovers the sign, the digits and the number of fraction
      digits. */
  lemma ReadAssembled(negative: bool, groups: seq<string>, frac: string)
    requires WellGrouped(groups) && AllDigits(frac)
    ensures AllDigits(Concat(groups) + frac)
    ensures ReadHyphenated(Sign(negative) + Join(groups, "-") + FracSuffix(frac))
         == Some(Number(negative, DigitsValue(Concat(groups) + frac), |frac|))
  {
    GroupDigits(groups, frac);
    JoinedGroups(groups);
    JoinPrefix(groups, "-");
    ReadSignedJoined(negative, Join(groups, "-"), groups, frac);
  }

  /** Nothing is lost in the positional range: the text read back gives the
      same sign, coefficient and scale. */
  lemma ReadFormatted(negative: bool, coefficient: nat, scale: nat)
    requires Positional(coefficient, scale)
    ensures ReadHyphenated(FormatWithHyphens(Number(negative, coefficient, scale)))
         == Some(Number(negative, coefficient, scale))
  {
    var intPart := IntPart(coefficient, scale);
    var frac := FracPart(coefficient, scale);
    PositionalForm(negative, coefficient, scale);
    ReadAssembled(negative, Chunks(intPart), frac);
    assert (frac == "") == (scale == 0);
  }

  /** Distinct positional sums are always reported differently. */
  lemma FormatInjective(x: Total, y: Total)
    requires x.Number? && Positional(x.coefficient, x.scale)
    requires y.Number? && Positional(y.coefficient, y.scale)
    requires FormatWithHyphens(x) == FormatWithHyphens(y)
    ensures x == y
  {
    ReadFormatted(x.negative, x.coefficient, x.scale);
    ReadFormatted(y.negative, y.coefficient, y.scale);
  }

  // ---------------------------------------------------------------------
  // The reported amount
  // ---------------------------------------------------------------------

  /** No non-zero sum is rendered as `-0-`, so the reply's marker for a
      zero or missing sum cannot be mistaken for an amount. */
  lemma NonZeroNotMarker(t: Total)
    requires t.Number? && !IsZero(t)
    ensures FormatWithHyphens(t) != "-0-"
  {
    if Positional(t.coefficient, t.scale) {
      ReadFormatted(t.negative, t.coefficient, t.scale);
      HyphenZeroUnreadable();
    } else {
      ScientificLength(t.negative, t.coefficient, t.scale);
    }
  }

  /** `-0-` is not the rendering of any positional sum: its second group
      is empty. */
  lemma HyphenZeroUnreadable()
    ensures ReadHyphenated("-0-") == None
  {
    var body := "0-";
    assert "-0-"[1..] == body;
    SplitOnOne(body, ',');
    assert body == "0" + "-" + "";
    SplitOnTwo("0", "", '-');
  }

  /** Outside the positional range the text holds at least a digit, `E`,
      `-` and an exponent digit. */
  lemma ScientificLength(negative: bool, coefficient: nat, scale: nat)
    requires !Positional(coefficient, scale)
    ensures |FormatWithHyphens(Number(negative, coefficient, scale))| >= 4
  {
  }

  // ---------------------------------------------------------------------
  // Examples
  // ---------------------------------------------------------------------

  /** A whole number n >= 0 is written as the thousands groups of its
      decimal digits joined by `-`. */
  lemma WholeFormat(n: nat)
    ensures FormatWithHyphens(FromInt(n)) == Join(Chunks(DecimalDigits(n)), "-")
  {
    assert IntPart(n, 0) == DecimalDigits(n);
    PositionalForm(false, n, 0);
    assert FracSuffix(FracPart(n, 0)) == "";
  }

  /** One more digit on the right of a number's decimal digits. */
  lemma AppendDigit(n: nat, prefix: string, last: char)
    requires n >= 10 && DecimalDigits(n / 10) == prefix
    requires last == DigitChar(n % 10)
    ensures DecimalDigits(n) == prefix + [last]
  {
  }

  lemma ExampleMissingAndZero()
    ensures ReportedAmount(Null) == "-0-"
    ensures ReportedAmount(FromInt(0)) == "-0-"
  {
  }

  lemma ExampleTwentyThousand()
    ensures FormatWithHyphens(FromInt(20000)) == "20-000"
    ensures ReportedAmount(FromInt(20000)) == "20-000"
  {
    assert DecimalDigits(2) == "2";
    AppendDigit(20, "2", '0');
    AppendDigit(200, "20", '0');
    AppendDigit(2000, "200", '0');
    AppendDigit(20000, "2000", '0');
    var d := "20000";
    assert Chunks(d) == ["20", "000"] by {
      assert d[..|d| - 3] == "20" && d[|d| - 3..] == "000";
    }
    WholeFormat(20000);
  }

  lemma ExampleNegative()
    ensures FormatWithHyphens(FromInt(-1234)) == "-1-234"
  {
    assert DecimalDigits(1) == "1";
    AppendDigit(12, "1", '2');
    AppendDigit(123, "12", '3');
    AppendDigit(1234, "123", '4');
    var d := "1234";
    assert Chunks(d) == ["1", "234"] by {
      assert d[..|d| - 3] == "1" && d[|d| - 3..] == "234";
    }
    WholeFormat(1234);
    NegativeIntFormat(-1234);
  }

  lemma ExampleFraction()
    ensures FormatWithHyphens(Number(false, 123456, 2)) == "1-234,56"
  {
    assert DecimalDigits(1) == "1";
    AppendDigit(12, "1", '2');
    AppendDigit(123, "12", '3');
    AppendDigit(1234, "123", '4');
    AppendDigit(12345, "1234", '5');
    AppendDigit(123456, "12345", '6');
    var d := "123456";
    assert IntPart(123456, 2) == "1234" by {
      assert d[..4] == "1234";
    }
    assert FracPart(123456, 2) == "56" by {
      assert d[4..] == "56";
    }
    var i := "1234";
    assert Chunks(i) == ["1", "234"] by {
      assert i[..|i| - 3] == "1" && i[|i| - 3..] == "234";
    }
    PositionalForm(false, 123456, 2);
  }
}
