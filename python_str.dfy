/** The parts of Python's built-in `str` type that the bot's commands rely on:
    `isspace`, `lower`, `upper`, `capitalize`, `split()`, `split(sep)`,
    `sep.join` and one-character `replace`. */
module PythonStr {

  /** `c.isspace()`: the characters CPython treats as whitespace. */
  predicate IsSpace(c: char) {
    || ('\t' <= c <= '\r')
    || ('\U{001C}' <= c <= ' ')
    || c == '\U{0085}' || c == '\U{00A0}' || c == '\U{1680}'
    || ('\U{2000}' <= c <= '\U{200A}')
    || c == '\U{2028}' || c == '\U{2029}' || c == '\U{202F}'
    || c == '\U{205F}' || c == '\U{3000}'
  }

  predicate NoSpace(s: string) {
    forall i :: 0 <= i < |s| ==> !IsSpace(s[i])
  }

  predicate AllSpace(s: string) {
    forall i :: 0 <= i < |s| ==> IsSpace(s[i])
  }

  /** `s` holds no occurrence of `c`. */
  predicate Free(s: string, c: char) {
    forall i :: 0 <= i < |s| ==> s[i] != c
  }

  /** `s.count(c)` */
  function Count(s: string, c: char): nat {
    if s == [] then 0 else (if s[0] == c then 1 else 0) + Count(s[1..], c)
  }

  /** `"".join(pieces)` */
  function Concat(pieces: seq<string>): string {
    if pieces == [] then "" else pieces[0] + Concat(pieces[1..])
  }

  /** `sep.join(pieces)` */
  function Join(pieces: seq<string>, sep: string): string {
    if pieces == [] then ""
    else if |pieces| == 1 then pieces[0]
    else pieces[0] + sep + Join(pieces[1..], sep)
  }

  lemma {:induction false} ConcatSnoc(pieces: seq<string>, last: string)
    ensures Concat(pieces + [last]) == Concat(pieces) + last
  {
    if pieces == [] {
      assert pieces + [last] == [last];
    } else {
      assert (pieces + [last])[1..] == pieces[1..] + [last];
      ConcatSnoc(pieces[1..], last);
    }
  }

  lemma FreeAppend(a: string, b: string, c: char)
    requires Free(a, c) && Free(b, c)
    ensures Free(a + b, c)
  {
  }

  /** A join holds a character only if a piece or the separator does. */
  lemma {:induction false} JoinFree(pieces: seq<string>, sep: string, c: char)
    requires forall i :: 0 <= i < |pieces| ==> Free(pieces[i], c)
    requires Free(sep, c)
    ensures Free(Join(pieces, sep), c)
  {
    if |pieces| > 1 {
      JoinFree(pieces[1..], sep, c);
      FreeAppend(pieces[0], sep, c);
      FreeAppend(pieces[0] + sep, Join(pieces[1..], sep), c);
    }
  }

  // ---------------------------------------------------------------------
  // Case mapping
  // ---------------------------------------------------------------------

  function LowerChar(c: char): char {
    if 'A' <= c <= 'Z' then (c as int + 32) as char else c
  }

  function UpperChar(c: char): char {
    if 'a' <= c <= 'z' then (c as int - 32) as char else c
  }

  predicate IsUpperLetter(c: char) { 'A' <= c <= 'Z' }

  predicate IsLowerLetter(c: char) { 'a' <= c <= 'z' }

  /** `s.lower()` */
  function Lower(s: string): string {
    seq(|s|, i requires 0 <= i < |s| => LowerChar(s[i]))
  }

  /** `s.capitalize()`: the first character upper-cased, every other one
      lower-cased. The result is the one spelling of `s`, up to case, that
      starts with no lower-case letter and has no upper-case letter after. */
  function Capitalize(s: string): (r: string)
    ensures |r| == |s| && Lower(r) == Lower(s)
    ensures |r| > 0 ==> !IsLowerLetter(r[0])
    ensures forall i :: 0 < i < |r| ==> !IsUpperLetter(r[i])
  {
    if s == [] then "" else [UpperChar(s[0])] + Lower(s[1..])
  }

  /** The capitalised form depends on nothing but the lower-cased text. */
  lemma CapitalizeIgnoresCase(s: string, t: string)
    ensures Capitalize(s) == Capitalize(t) <==> Lower(s) == Lower(t)
  {
    if Lower(s) == Lower(t) && s != [] {
      assert LowerChar(s[0]) == Lower(s)[0] == Lower(t)[0] == LowerChar(t[0]);
      assert Lower(s[1..]) == Lower(s)[1..] == Lower(t)[1..] == Lower(t[1..]);
    }
  }

  /** Capitalising twice is capitalising once. */
  lemma CapitalizeIdempotent(s: string)
    ensures Capitalize(Capitalize(s)) == Capitalize(s)
  {
    CapitalizeIgnoresCase(Capitalize(s), s);
  }

  // ---------------------------------------------------------------------
  // One-character replace and removal
  // ---------------------------------------------------------------------

  /** `s.replace(from, to)` for one-character `from` and `to`. */
  function Replace(s: string, from: char, to: char): string {
    seq(|s|, i requires 0 <= i < |s| => if s[i] == from then to else s[i])
  }

  lemma ReplaceAppend(a: string, b: string, from: char, to: char)
    ensures Replace(a + b, from, to) == Replace(a, from, to) + Replace(b, from, to)
  {
  }

  lemma ReplaceAbsent(s: string, from: char, to: char)
    requires Free(s, from)
    ensures Replace(s, from, to) == s
  {
  }

  /** Replacing the separator of a join re-joins with the new separator. */
  lemma {:induction false} ReplaceJoin(pieces: seq<string>, from: char, to: char)
    requires forall i :: 0 <= i < |pieces| ==> Free(pieces[i], from)
    ensures Replace(Join(pieces, [from]), from, to) == Join(pieces, [to])
  {
    if |pieces| == 1 {
      ReplaceAbsent(pieces[0], from, to);
    } else if |pieces| > 1 {
      ReplaceJoin(pieces[1..], from, to);
      ReplaceAbsent(pieces[0], from, to);
      ReplaceAppend(pieces[0] + [from], Join(pieces[1..], [from]), from, to);
      ReplaceAppend(pieces[0], [from], from, to);
    }
  }

  /** `s.replace(c, "")` */
  function Remove(s: string, c: char): (r: string)
    ensures Free(r, c)
  {
    if s == [] then ""
    else (if s[0] == c then "" else [s[0]]) + Remove(s[1..], c)
  }

  lemma {:induction false} RemoveAppend(a: string, b: string, c: char)
    ensures Remove(a + b, c) == Remove(a, c) + Remove(b, c)
  {
    if a == [] {
      assert a + b == b;
    } else {
      assert (a + b)[1..] == a[1..] + b;
      RemoveAppend(a[1..], b, c);
    }
  }

  lemma {:induction false} RemoveAbsent(s: string, c: char)
    requires Free(s, c)
    ensures Remove(s, c) == s
  {
    if s != [] {
      RemoveAbsent(s[1..], c);
    }
  }

  /** Removing the separator of a join concatenates the pieces. */
  lemma {:induction false} RemoveJoin(pieces: seq<string>, c: char)
    requires forall i :: 0 <= i < |pieces| ==> Free(pieces[i], c)
    ensures Remove(Join(pieces, [c]), c) == Concat(pieces)
  {
    if |pieces| == 1 {
      RemoveAbsent(pieces[0], c);
    } else if |pieces| > 1 {
      RemoveJoin(pieces[1..], c);
      RemoveAbsent(pieces[0], c);
      RemoveAppend(pieces[0] + [c], Join(pieces[1..], [c]), c);
      RemoveAppend(pieces[0], [c], c);
    }
  }

  // ---------------------------------------------------------------------
  // split(sep): every separator splits, empty pieces are kept
  // ---------------------------------------------------------------------

  /** `s.split(sep)` for a one-character separator. */
  function SplitOn(s: string, sep: char): (pieces: seq<string>)
    ensures |pieces| == Count(s, sep) + 1
    ensures forall i :: 0 <= i < |pieces| ==> Free(pieces[i], sep)
    ensures Join(pieces, [sep]) == s
    decreases |s|
  {
    if s == [] then [""]
    else
      var rest := SplitOn(s[1..], sep);
      assert s == [s[0]] + s[1..];
      if s[0] == sep then
        var pieces := [""] + rest;
        assert pieces[1..] == rest;
        pieces
      else
        var first := [s[0]] + rest[0];
        assert Free(first, sep);
        var pieces := [first] + rest[1..];
        assert pieces[1..] == rest[1..];
        assert |rest| > 1 ==> Join(rest, [sep]) == rest[0] + [sep] + Join(rest[1..], [sep]);
        assert |rest| > 1 ==> Join(pieces, [sep]) == first + [sep] + Join(rest[1..], [sep]);
        pieces
  }

  lemma {:induction false} SplitOnPrefix(w: string, t: string, sep: char)
    requires Free(w, sep)
    ensures SplitOn(w + t, sep) == [w + SplitOn(t, sep)[0]] + SplitOn(t, sep)[1..]
  {
    var rest := SplitOn(t, sep);
    if w == [] {
      assert w + t == t && w + rest[0] == rest[0];
      assert [rest[0]] + rest[1..] == rest;
    } else {
      assert (w + t)[0] == w[0] != sep;
      assert (w + t)[1..] == w[1..] + t;
      assert Free(w[1..], sep) by {
        forall i | 0 <= i < |w[1..]| ensures w[1..][i] != sep {
          assert w[1..][i] == w[i + 1];
        }
      }
      SplitOnPrefix(w[1..], t, sep);
      assert [w[0]] + (w[1..] + rest[0]) == w + rest[0];
    }
  }

  /** `sep.join` followed by `split(sep)` gives back the pieces. */
  lemma {:induction false} SplitOnJoin(pieces: seq<string>, sep: char)
    requires |pieces| >= 1
    requires forall i :: 0 <= i < |pieces| ==> Free(pieces[i], sep)
    ensures SplitOn(Join(pieces, [sep]), sep) == pieces
  {
    if |pieces| == 1 {
      SplitOnPrefix(pieces[0], "", sep);
      assert pieces[0] + "" == pieces[0];
    } else {
      var tail := Join(pieces[1..], [sep]);
      SplitOnJoin(pieces[1..], sep);
      assert Join(pieces, [sep]) == pieces[0] + ([sep] + tail);
      SplitOnPrefix(pieces[0], [sep] + tail, sep);
      assert ([sep] + tail)[0] == sep && ([sep] + tail)[1..] == tail;
      assert SplitOn([sep] + tail, sep) == [""] + pieces[1..];
      assert pieces[0] + "" == pieces[0];
      assert [pieces[0]] + pieces[1..] == pieces;
    }
  }

  lemma SplitOnOne(a: string, sep: char)
    requires Free(a, sep)
    ensures SplitOn(a, sep) == [a]
  {
    SplitOnJoin([a], sep);
  }

  lemma SplitOnTwo(a: string, b: string, sep: char)
    requires Free(a, sep) && Free(b, sep)
    ensures SplitOn(a + [sep] + b, sep) == [a, b]
  {
    var pieces := [a, b];
    assert Join(pieces, [sep]) == a + [sep] + b;
    SplitOnJoin(pieces, sep);
  }

  // ---------------------------------------------------------------------
  // split(): runs of whitespace separate, empty pieces are dropped
  // ---------------------------------------------------------------------

  /** The longest prefix of `s` that holds no whitespace. */
  function LeadingWord(s: string): (w: string)
    ensures |w| <= |s| && w == s[..|w|] && NoSpace(w)
    ensures |w| < |s| ==> IsSpace(s[|w|])
  {
    if s == [] || IsSpace(s[0]) then "" else [s[0]] + LeadingWord(s[1..])
  }

  /** `s.split()` */
  function SplitWhitespace(s: string): (words: seq<string>)
    ensures forall i :: 0 <= i < |words| ==> words[i] != "" && NoSpace(words[i])
    decreases |s|
  {
    if s == [] then []
    else if IsSpace(s[0]) then SplitWhitespace(s[1..])
    else
      var w := LeadingWord(s);
      [w] + SplitWhitespace(s[|w|..])
  }

  lemma {:induction false} SplitWhitespaceAllSpace(s: string)
    requires AllSpace(s)
    ensures SplitWhitespace(s) == []
  {
    if s != [] {
      SplitWhitespaceAllSpace(s[1..]);
    }
  }

  /** Leading whitespace does not change the split. */
  lemma {:induction false} SplitWhitespaceSkipsSpace(sp: string, s: string)
    requires AllSpace(sp)
    ensures SplitWhitespace(sp + s) == SplitWhitespace(s)
  {
    if sp == [] {
      assert sp + s == s;
    } else {
      assert (sp + s)[0] == sp[0] && IsSpace(sp[0]);
      assert (sp + s)[1..] == sp[1..] + s;
      assert AllSpace(sp[1..]) by {
        forall i | 0 <= i < |sp[1..]| ensures IsSpace(sp[1..][i]) {
          assert sp[1..][i] == sp[i + 1];
        }
      }
      SplitWhitespaceSkipsSpace(sp[1..], s);
    }
  }

  lemma {:induction false} LeadingWordOf(w: string, rest: string)
    requires NoSpace(w)
    requires rest == [] || IsSpace(rest[0])
    ensures LeadingWord(w + rest) == w
  {
    if w != [] {
      assert (w + rest)[1..] == w[1..] + rest;
      LeadingWordOf(w[1..], rest);
    }
  }

  /** A word ended by whitespace (or the end of the text) is the first piece. */
  lemma SplitWhitespaceWord(w: string, rest: string)
    requires w != "" && NoSpace(w)
    requires rest == [] || IsSpace(rest[0])
    ensures SplitWhitespace(w + rest) == [w] + SplitWhitespace(rest)
  {
    LeadingWordOf(w, rest);
    assert (w + rest)[|w|..] == rest;
  }

  /** Words separated by arbitrary runs of whitespace, with optional
      whitespace before the first and after the last. */
  function Interleave(gaps: seq<string>, words: seq<string>): string
    requires |gaps| == |words| + 1
  {
    if words == [] then gaps[0]
    else gaps[0] + words[0] + Interleave(gaps[1..], words[1..])
  }

  /** `split()` recovers the words however the whitespace between them was
      laid out: the pieces are exactly the maximal non-blank runs. */
  lemma {:induction false} SplitWhitespaceInterleave(gaps: seq<string>, words: seq<string>)
    requires |gaps| == |words| + 1
    requires forall i :: 0 <= i < |gaps| ==> AllSpace(gaps[i])
    requires forall i :: 0 < i < |words| ==> gaps[i] != ""
    requires forall i :: 0 <= i < |words| ==> words[i] != "" && NoSpace(words[i])
    ensures SplitWhitespace(Interleave(gaps, words)) == words
  {
    if words == [] {
      SplitWhitespaceAllSpace(gaps[0]);
    } else {
      var rest := Interleave(gaps[1..], words[1..]);
      if |words| > 1 {
        assert gaps[1..][0] == gaps[1] && gaps[1] != "";
        assert rest[0] == gaps[1][0];
      } else {
        assert rest == gaps[1];
      }
      assert Interleave(gaps, words) == gaps[0] + (words[0] + rest);
      SplitWhitespaceSkipsSpace(gaps[0], words[0] + rest);
      SplitWhitespaceWord(words[0], rest);
      SplitWhitespaceInterleave(gaps[1..], words[1..]);
    }
  }

  /** A word followed by a space is the first piece; the rest splits on its
      own. */
  lemma SplitAfterWord(w: string, rest: string)
    requires w != "" && NoSpace(w)
    ensures SplitWhitespace(w + " " + rest) == [w] + SplitWhitespace(rest)
  {
    assert w + " " + rest == w + (" " + rest);
    SplitWhitespaceWord(w, " " + rest);
    SplitWhitespaceSkipsSpace(" ", rest);
  }

  /** Two words with whitespace around and between them split into those
      two words. */
  lemma SplitTwoWords(before: string, first: string, between: string, second: string, after: string)
    requires AllSpace(before) && AllSpace(between) && AllSpace(after) && between != ""
    requires first != "" && NoSpace(first) && second != "" && NoSpace(second)
    ensures SplitWhitespace(before + first + between + second + after) == [first, second]
  {
    var gaps := [before, between, after];
    var words := [first, second];
    assert Interleave(gaps[2..], words[2..]) == after;
    assert Interleave(gaps[1..], words[1..]) == between + second + after;
    assert Interleave(gaps, words) == before + first + (between + second + after);
    assert before + first + (between + second + after) == before + first + between + second + after;
    SplitWhitespaceInterleave(gaps, words);
  }
}
