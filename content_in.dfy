/** The `!content_in <time>` command up to the countdown: reading the
    duration as `hours:minutes`, the error reply for any other text, and
    the instant at which the countdown ends. */
module ContentIn {
  import opened Wrappers
  import opened PythonStr
  import opened PythonInt

  /** Why `hours, minutes = map(int, time_str.split(':'))` raised: a piece
      that `int()` rejects, too few pieces, or more than two. */
  datatype UnpackError = InvalidLiteral(literal: string) | NotEnoughValues(got: nat) | TooManyValues

  /** Piece `i` is the first one `int()` rejects among the (at most three)
      pieces the unpacking converts. */
  predicate FirstRejected(pieces: seq<string>, i: int) {
    && 0 <= i < |pieces| && i <= 2
    && ParseInt(pieces[i]).None?
    && (i >= 1 ==> ParseInt(pieces[0]).Some?)
    && (i >= 2 ==> ParseInt(pieces[1]).Some?)
  }

  /** The duration in seconds, or the error the unpacking raises. `map` is
      lazy, so the pieces are converted in order while the two targets are
      filled: the first piece, then the check that a second exists, the
      second piece, and finally a third piece, whose conversion runs before
      the surplus is reported. Minutes are not range-checked and either
      part may be negative. */
  function ParseHoursMinutes(timeStr: string): (r: Result<int, UnpackError>)
    ensures var pieces := SplitOn(timeStr, ':');
            && (r.Ok? <==> |pieces| == 2 && ParseInt(pieces[0]).Some? && ParseInt(pieces[1]).Some?)
            && (r.Ok? ==> r.value == Seconds(ParseInt(pieces[0]).value, ParseInt(pieces[1]).value))
            && (r.Err? && r.error.InvalidLiteral? ==>
                  exists i :: FirstRejected(pieces, i) && pieces[i] == r.error.literal)
    ensures r.Err? && r.error.NotEnoughValues? <==> Free(timeStr, ':') && ParseInt(timeStr).Some?
    ensures r.Err? && r.error.NotEnoughValues? ==> r.error.got == 1
    ensures r.Err? && r.error.TooManyValues? <==>
              && Count(timeStr, ':') >= 2
              && ParseInt(SplitOn(timeStr, ':')[0]).Some?
              && ParseInt(SplitOn(timeStr, ':')[1]).Some?
              && ParseInt(SplitOn(timeStr, ':')[2]).Some?
  {
    var pieces := SplitOn(timeStr, ':');
    assert |pieces| == 1 <==> Free(timeStr, ':') by {
      if |pieces| == 1 {
        assert Join(pieces, [':']) == pieces[0];
      }
      if Free(timeStr, ':') {
        SplitOnOne(timeStr, ':');
      }
    }
    assert |pieces| == 1 ==> pieces[0] == timeStr by {
      if |pieces| == 1 {
        assert Join(pieces, [':']) == pieces[0];
      }
    }
    Unpack(pieces)
  }

  /** The length of `hours` hours and `minutes` minutes, in seconds. */
  function Seconds(hours: int, minutes: int): int {
    hours * 3600 + minutes * 60
  }

  /** Unpacking the converted pieces into `hours, minutes`: the first piece
      `int()` rejects decides the error; failing that, one piece is too few
      and three or more too many. */
  function Unpack(pieces: seq<string>): (r: Result<int, UnpackError>)
    requires |pieces| >= 1
    ensures r.Ok? <==> |pieces| == 2 && ParseInt(pieces[0]).Some? && ParseInt(pieces[1]).Some?
    ensures r.Ok? ==> r.value == Seconds(ParseInt(pieces[0]).value, ParseInt(pieces[1]).value)
    ensures r.Err? && r.error.InvalidLiteral? ==>
              exists i :: FirstRejected(pieces, i) && pieces[i] == r.error.literal
    ensures r.Err? && r.error.NotEnoughValues? <==> |pieces| == 1 && ParseInt(pieces[0]).Some?
    ensures r.Err? && r.error.NotEnoughValues? ==> r.error.got == 1
    ensures r.Err? && r.error.TooManyValues? <==>
              && |pieces| >= 3
              && ParseInt(pieces[0]).Some? && ParseInt(pieces[1]).Some? && ParseInt(pieces[2]).Some?
  {
    match ParseInt(pieces[0])
    case None =>
      assert FirstRejected(pieces, 0);
      Err(InvalidLiteral(pieces[0]))
    case Some(hours) =>
      if |pieces| < 2 then Err(NotEnoughValues(|pieces|))
      else
        match ParseInt(pieces[1])
        case None =>
          assert FirstRejected(pieces, 1);
          Err(InvalidLiteral(pieces[1]))
        case Some(minutes) =>
          if |pieces| == 2 then Ok(Seconds(hours, minutes))
          else
            match ParseInt(pieces[2])
            case None =>
              assert FirstRejected(pieces, 2);
              Err(InvalidLiteral(pieces[2]))
            case Some(_) => Err(TooManyValues)
  }

  const IntLiteralPrefix := "invalid literal for int() with base 10: "
  /** The message up to the rejected literal, opening quote included. */
  const InvalidLiteralPrefix := IntLiteralPrefix + "'"
  /** Written in two parts: the verifier cannot index into a single string
      literal of 45 characters or more. */
  const NotEnoughPrefix := "not enough values " + "to unpack (expected 2, got "
  const TooManyText := "too many values to unpack (expected 2)"
  /** The `.200` precision of the `%.200R` that writes the literal. */
  const ReprWidth := 200

  /** `repr` of the literal as the message writes it: in single quotes. */
  function Quoted(literal: string): string {
    "'" + literal + "'"
  }

  /** A precision of `ReprWidth`: the text cut to its first `ReprWidth`
      characters. */
  function Cut(r: string): (c: string)
    ensures |c| == if |r| <= ReprWidth then |r| else ReprWidth
    ensures c == r[..|c|]
  {
    if |r| <= ReprWidth then r else r[..ReprWidth]
  }

  /** The first letter of each kind of error text. */
  function Kind(e: UnpackError): char {
    match e
    case InvalidLiteral(_) => 'i'
    case NotEnoughValues(_) => 'n'
    case TooManyValues => 't'
  }

  /** The text of the exception: Python's messages for a rejected literal
      and for the two unpacking mismatches. Each kind starts with its own
      letter. A literal of up to 198 characters is quoted whole; a longer
      one is cut after its first 199 characters, the closing quote with
      it. The number of values got is written out in `str()` form. */
  function ErrorText(e: UnpackError): (text: string)
    ensures text != "" && text[0] == Kind(e)
    ensures e.InvalidLiteral? ==> InvalidLiteralPrefix <= text
    ensures e.InvalidLiteral? && |e.literal| + 2 <= ReprWidth ==> text == InvalidLiteralPrefix + e.literal + "'"
    ensures e.InvalidLiteral? && |e.literal| + 2 > ReprWidth ==> text == InvalidLiteralPrefix + e.literal[..ReprWidth - 1]
    ensures e.NotEnoughValues? ==>
              && NotEnoughPrefix <= text && text[|text| - 1] == ')'
              && text[|NotEnoughPrefix|..|text| - 1] == IntToStr(e.got)
    ensures e.TooManyValues? ==> text == TooManyText
  {
    match e
    case InvalidLiteral(literal) =>
      var quoted := Quoted(literal);
      var text := IntLiteralPrefix + Cut(quoted);
      assert text[0] == IntLiteralPrefix[0] == 'i';
      if |quoted| <= ReprWidth then
        assert text == InvalidLiteralPrefix + literal + "'";
        text
      else
        assert Cut(quoted) == "'" + literal[..ReprWidth - 1];
        assert text == InvalidLiteralPrefix + literal[..ReprWidth - 1];
        text
    case NotEnoughValues(got) =>
      var head := NotEnoughPrefix + IntToStr(got);
      var text := head + ")";
      assert text[0] == head[0] == NotEnoughPrefix[0] == 'n';
      assert text[..|NotEnoughPrefix|] == NotEnoughPrefix;
      assert text[|NotEnoughPrefix|..|text| - 1] == IntToStr(got);
      text
    case TooManyValues => TooManyText
  }

  /** The reply to the command message when the time is not understood. */
  function ErrorReply(e: UnpackError): string {
    "Error occurred: " + ErrorText(e)
  }

  /** A character `repr` writes as itself inside single quotes: printable
      ASCII other than the backslash, which it escapes, and the single
      quote, which makes it escape or change the quotes. */
  predicate ReprPlain(c: char) {
    ' ' <= c <= '~' && c != '\\' && c != '\''
  }

  /** A literal whose `repr` is its single-quoted self, short enough for
      that quoted form to fit the precision. */
  predicate ShownWhole(e: UnpackError) {
    e.InvalidLiteral? ==>
      && |e.literal| + 2 <= ReprWidth
      && forall i :: 0 <= i < |e.literal| ==> ReprPlain(e.literal[i])
  }

  /** The reply tells the errors apart: two errors whose literals are shown
      whole get the same reply exactly when they are the same error. */
  lemma ErrorReplyIdentifies(e: UnpackError, other: UnpackError)
    requires ShownWhole(e) && ShownWhole(other)
    ensures ErrorReply(e) == ErrorReply(other) <==> e == other
  {
    if ErrorReply(e) == ErrorReply(other) {
      var prefix := "Error occurred: ";
      assert ErrorText(e) == ErrorReply(e)[|prefix|..];
      assert ErrorText(other) == ErrorReply(other)[|prefix|..];
      ErrorTextIdentifies(e, other);
    }
  }

  lemma ErrorTextIdentifies(e: UnpackError, other: UnpackError)
    requires ShownWhole(e) && ShownWhole(other)
    requires ErrorText(e) == ErrorText(other)
    ensures e == other
  {
    var text := ErrorText(e);
    if e.InvalidLiteral? && other.InvalidLiteral? {
      assert e.literal == text[|InvalidLiteralPrefix|..|text| - 1];
      assert other.literal == text[|InvalidLiteralPrefix|..|text| - 1];
    }
    if e.NotEnoughValues? && other.NotEnoughValues? {
      NumberAlone(e.got);
      NumberAlone(other.got);
    }
  }

  /** Literals too long to be shown whole are told apart only by their
      first 199 characters: two that agree there get the same reply. */
  lemma CutLiteralsCollide(literal: string, other: string)
    requires |literal| + 2 > ReprWidth && |other| + 2 > ReprWidth
    requires literal[..ReprWidth - 1] == other[..ReprWidth - 1]
    ensures ErrorReply(InvalidLiteral(literal)) == ErrorReply(InvalidLiteral(other))
  {
  }

  /** 199 `x` and the same followed by `y` are different literals with the
      same reply. */
  lemma ExampleCutLiterals(literal: string)
    requires literal == seq(199, i => 'x')
    ensures InvalidLiteral(literal) != InvalidLiteral(literal + "y")
    ensures ErrorReply(InvalidLiteral(literal)) == ErrorReply(InvalidLiteral(literal + "y"))
  {
    assert |literal + "y"| != |literal|;
    assert (literal + "y")[..ReprWidth - 1] == literal[..ReprWidth - 1];
    CutLiteralsCollide(literal, literal + "y");
  }

  // ---------------------------------------------------------------------
  // Which texts are accepted
  // ---------------------------------------------------------------------

  /** An accepted time holds exactly one `:`. */
  lemma AcceptedHasOneColon(timeStr: string)
    requires ParseHoursMinutes(timeStr).Ok?
    ensures Count(timeStr, ':') == 1
  {
  }

  /** The text `str()` gives for a number holds no `:`. */
  lemma IntTextFree(n: int)
    ensures Free(IntToStr(n), ':')
  {
    var d := DecimalDigits(if n < 0 then -n else n);
    forall i | 0 <= i < |d| ensures d[i] != ':' {
      assert IsDigit(d[i]);
    }
    if n < 0 {
      var t := IntToStr(n);
      assert t == "-" + d;
      forall i | 0 <= i < |t| ensures t[i] != ':' {
        if i > 0 {
          assert t[i] == d[i - 1];
        }
      }
    }
  }

  lemma SpaceFree(s: string)
    requires AllIntSpace(s)
    ensures Free(s, ':')
  {
    forall i | 0 <= i < |s| ensures s[i] != ':' {
      assert IntSpace(s[i]);
    }
  }

  /** Any two numbers written out, each with any whitespace `int()` skips
      around it, and joined by `:` are read back as that many hours and
      minutes. */
  lemma ReadHoursMinutes(a: string, hours: int, b: string, c: string, minutes: int, d: string)
    requires AllIntSpace(a) && AllIntSpace(b) && AllIntSpace(c) && AllIntSpace(d)
    ensures ParseHoursMinutes((a + IntToStr(hours) + b) + ":" + (c + IntToStr(minutes) + d))
         == Ok(Seconds(hours, minutes))
  {
    var h := a + IntToStr(hours) + b;
    var m := c + IntToStr(minutes) + d;
    NumberPiece(a, hours, b);
    NumberPiece(c, minutes, d);
    SplitOnTwo(h, m, ':');
    ParseTwoPieces(h + ":" + m, h, m, hours, minutes);
  }

  /** A number written out with whitespace around it holds no `:` and
      reads back as that number. */
  lemma NumberPiece(a: string, n: int, b: string)
    requires AllIntSpace(a) && AllIntSpace(b)
    ensures Free(a + IntToStr(n) + b, ':')
    ensures ParseInt(a + IntToStr(n) + b) == Some(n)
  {
    IntTextFree(n);
    SpaceFree(a);
    SpaceFree(b);
    FreeAppend(a, IntToStr(n), ':');
    FreeAppend(a + IntToStr(n), b, ':');
    ParseIntStr(a, n, b);
  }

  /** The same for a number written without whitespace. */
  lemma NumberAlone(n: int)
    ensures Free(IntToStr(n), ':')
    ensures ParseInt(IntToStr(n)) == Some(n)
  {
    IntTextFree(n);
    ParseIntStr("", n, "");
    assert "" + IntToStr(n) + "" == IntToStr(n);
  }

  lemma ParseTwoPieces(text: string, h: string, m: string, hours: int, minutes: int)
    requires SplitOn(text, ':') == [h, m]
    requires ParseInt(h) == Some(hours) && ParseInt(m) == Some(minutes)
    ensures ParseHoursMinutes(text) == Ok(Seconds(hours, minutes))
  {
    UnpackTwo(SplitOn(text, ':'), hours, minutes);
  }

  lemma UnpackTwo(pieces: seq<string>, hours: int, minutes: int)
    requires |pieces| == 2 && ParseInt(pieces[0]) == Some(hours) && ParseInt(pieces[1]) == Some(minutes)
    ensures Unpack(pieces) == Ok(Seconds(hours, minutes))
  {
  }

  lemma ParseThreePieces(x: string, y: string, z: string)
    requires Free(x, ':') && Free(y, ':') && Free(z, ':')
    requires ParseInt(x).Some? && ParseInt(y).Some? && ParseInt(z).Some?
    ensures ParseHoursMinutes(Join([x, y, z], [':'])) == Err(TooManyValues)
  {
    SplitThree(x, y, z);
    UnpackThree(Join([x, y, z], [':']), x, y, z);
  }

  lemma SplitThree(x: string, y: string, z: string)
    requires Free(x, ':') && Free(y, ':') && Free(z, ':')
    ensures SplitOn(Join([x, y, z], [':']), ':') == [x, y, z]
  {
    var pieces := [x, y, z];
    forall i | 0 <= i < |pieces| ensures Free(pieces[i], ':') {
      assert pieces[i] == x || pieces[i] == y || pieces[i] == z;
    }
    SplitOnJoin(pieces, ':');
  }

  lemma UnpackThree(text: string, x: string, y: string, z: string)
    requires SplitOn(text, ':') == [x, y, z]
    requires ParseInt(x).Some? && ParseInt(y).Some? && ParseInt(z).Some?
    ensures ParseHoursMinutes(text) == Err(TooManyValues)
  {
  }

  /** The `hh:mm:ss` form is refused: three numbers joined by `:` are one
      value too many. */
  lemma HoursMinutesSecondsRefused(hours: int, minutes: int, seconds: int)
    ensures ParseHoursMinutes(Join([IntToStr(hours), IntToStr(minutes), IntToStr(seconds)], [':']))
         == Err(TooManyValues)
  {
    NumberAlone(hours);
    NumberAlone(minutes);
    NumberAlone(seconds);
    ParseThreePieces(IntToStr(hours), IntToStr(minutes), IntToStr(seconds));
  }

  lemma ParseOnePiece(text: string)
    requires SplitOn(text, ':') == [text] && ParseInt(text).Some?
    ensures ParseHoursMinutes(text) == Err(NotEnoughValues(1))
  {
  }

  /** A lone number, without `:`, is one value short. */
  lemma BareNumberRefused(n: int)
    ensures ParseHoursMinutes(IntToStr(n)) == Err(NotEnoughValues(1))
  {
    NumberAlone(n);
    SplitOnOne(IntToStr(n), ':');
    ParseOnePiece(IntToStr(n));
  }

  /** `h:m` with both numbers written by `str()` reads back as `h` hours and
      `m` minutes. */
  lemma ReadWrittenHoursMinutes(hours: int, minutes: int)
    ensures ParseHoursMinutes(IntToStr(hours) + ":" + IntToStr(minutes)) == Ok(Seconds(hours, minutes))
  {
    NumberAlone(hours);
    NumberAlone(minutes);
    SplitOnTwo(IntToStr(hours), IntToStr(minutes), ':');
    ParseTwoPieces(IntToStr(hours) + ":" + IntToStr(minutes), IntToStr(hours), IntToStr(minutes), hours, minutes);
  }

  lemma ExampleOverlongMinutes(text: string)
    requires text == "1:75"
    ensures ParseHoursMinutes(text) == Ok(8100)
  {
    ReadWrittenHoursMinutes(1, 75);
    WrittenOneSeventyFive();
    assert Seconds(1, 75) == 8100;
  }

  lemma WrittenOneSeventyFive()
    ensures IntToStr(1) + ":" + IntToStr(75) == "1:75"
  {
    assert IntToStr(1) == "1";
    assert IntToStr(75) == "75" by {
      assert DecimalDigits(75) == DecimalDigits(7) + [DigitChar(5)];
    }
  }

  /** Hours written with a leading zero, as in `01:30`. */
  lemma ExampleLeadingZero(text: string)
    requires text == "01:30"
    ensures ParseHoursMinutes(text) == Ok(5400)
  {
    LeadingZeroParts(text);
    ParseIntPadded("", "", 1, 1, "");
    NumberAlone(30);
    SplitOnTwo("01", "30", ':');
    ParseTwoPieces(text, "01", "30", 1, 30);
  }

  lemma LeadingZeroParts(text: string)
    requires text == "01:30"
    ensures "" + "" + Zeros(1) + DecimalDigits(1) + "" == "01"
    ensures IntToStr(30) == "30"
    ensures "01" + [':'] + "30" == text
    ensures Free("01", ':') && AllIntSpace("")
    ensures Seconds(1, 30) == 5400
  {
    assert DecimalDigits(30) == DecimalDigits(3) + [DigitChar(0)];
  }

  lemma ExampleBare(text: string)
    requires text == "90"
    ensures ParseHoursMinutes(text) == Err(NotEnoughValues(1))
  {
    assert IntToStr(90) == "90" by {
      assert DecimalDigits(9) == "9";
    }
    BareNumberRefused(90);
  }

  lemma ExampleSeconds(text: string)
    requires text == "1:2:3"
    ensures ParseHoursMinutes(text) == Err(TooManyValues)
  {
    assert IntToStr(1) == "1" && IntToStr(2) == "2" && IntToStr(3) == "3";
    assert Join(["1", "2", "3"], [':']) == "1:2:3";
    HoursMinutesSecondsRefused(1, 2, 3);
  }

  /** When the minutes piece is what `int()` rejects, the error quotes that
      piece. */
  lemma SecondPieceRejected(text: string, h: string, m: string)
    requires SplitOn(text, ':') == [h, m]
    requires ParseInt(h).Some? && ParseInt(m).None?
    ensures ParseHoursMinutes(text) == Err(InvalidLiteral(m))
  {
  }

  lemma ExampleEmptyMinutes(text: string)
    requires text == "1:"
    ensures ParseHoursMinutes(text) == Err(InvalidLiteral(""))
  {
    assert ParseInt("1").Some? && Free("1", ':') by {
      NumberAlone(1);
      assert IntToStr(1) == "1";
    }
    assert SplitOn(text, ':') == ["1", ""] by {
      SplitOnTwo("1", "", ':');
      assert "1" + [':'] + "" == text;
    }
    ParseIntBlank("");
    SecondPieceRejected(text, "1", "");
  }

  // ---------------------------------------------------------------------
  // The end of the countdown
  // ---------------------------------------------------------------------

  const MicrosPerSecond := 1_000_000
  const SecondsPerDay := 86_400
  /** The largest day count a `timedelta` may hold. */
  const MaxDeltaDays := 999_999_999
  /** Days from 0001-01-01 up to and excluding 10000-01-01: `datetime`
      covers exactly these. */
  const DaysInRange := 3_652_059

  /** The first instant past `datetime.max`, counted in microseconds from
      0001-01-01 00:00:00. */
  const EndOfTime := DaysInRange * SecondsPerDay * MicrosPerSecond

  /** `utcnow() + timedelta(seconds=total)` with instants counted in
      microseconds from 0001-01-01: the `timedelta` refuses more than
      `MaxDeltaDays` days either way, and the sum must stay within the
      years 1 to 9999. Either failure is an `OverflowError`. The `timedelta`
      limit never decides the outcome: the end exists exactly when it falls
      within the range of `datetime`, and it lies the given number of
      seconds after now. */
  function EndTime(now: int, seconds: int): (end: Option<int>)
    requires 0 <= now < EndOfTime
    ensures end.Some? <==> 0 <= now + seconds * MicrosPerSecond < EndOfTime
    ensures end.Some? ==> end.value - now == seconds * MicrosPerSecond
  {
    var days := seconds / SecondsPerDay;
    assert 0 <= now + seconds * MicrosPerSecond < EndOfTime ==> -MaxDeltaDays <= days <= MaxDeltaDays by {
      if 0 <= now + seconds * MicrosPerSecond < EndOfTime {
        assert -EndOfTime < seconds * MicrosPerSecond < EndOfTime;
        assert -DaysInRange * SecondsPerDay < seconds < DaysInRange * SecondsPerDay;
        assert -DaysInRange <= days <= DaysInRange;
      }
    }
    if days < -MaxDeltaDays || days > MaxDeltaDays then None
    else
      var end := now + seconds * MicrosPerSecond;
      if end < 0 || end >= EndOfTime then None
      else Some(end)
  }

  /** What `!content_in` ends up with: the end instant, or why it failed. */
  datatype ContentError = BadTime(cause: UnpackError) | Overflow

  /** The end of the countdown for `timeStr` read at `now`: it exists
      exactly when the text gives a duration and that duration from now
      stays within the range of `datetime`. */
  function ContentIn(timeStr: string, now: int): (r: Result<int, ContentError>)
    requires 0 <= now < EndOfTime
    ensures r.Err? && r.error.BadTime? <==> ParseHoursMinutes(timeStr).Err?
    ensures r.Err? && r.error.BadTime? ==> ParseHoursMinutes(timeStr).error == r.error.cause
    ensures r.Ok? <==> && ParseHoursMinutes(timeStr).Ok?
                       && 0 <= now + ParseHoursMinutes(timeStr).value * MicrosPerSecond < EndOfTime
    ensures r.Ok? ==> r.value - now == ParseHoursMinutes(timeStr).value * MicrosPerSecond
  {
    match ParseHoursMinutes(timeStr)
    case Err(e) => Err(BadTime(e))
    case Ok(seconds) =>
      match EndTime(now, seconds)
      case None => Err(Overflow)
      case Some(end) => Ok(end)
  }

  /** `h:m` written with numbers gives an end `h` hours and `m` minutes
      after now, as long as that stays within the range of `datetime`. */
  lemma ContentInEnd(hours: int, minutes: int, now: int)
    requires 0 <= now < EndOfTime
    requires 0 <= now + Seconds(hours, minutes) * MicrosPerSecond < EndOfTime
    ensures ContentIn(IntToStr(hours) + ":" + IntToStr(minutes), now)
         == Ok(now + Seconds(hours, minutes) * MicrosPerSecond)
  {
    ReadWrittenHoursMinutes(hours, minutes);
  }
}
