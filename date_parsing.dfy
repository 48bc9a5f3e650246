/**
 * `parseDate`, used on the birth-date cell of an Excel import: a
 * "Month D YYYY" string is rewritten as "YYYY-MM-DD" by hand; anything else is
 * handed to the host's `new Date(…)`, which is a parameter here.
 */
module DateParsing {
  import opened Common

  /** Every character of s satisfies p. */
  predicate All(s: string, p: char -> bool)
  {
    forall i :: 0 <= i < |s| ==> p(s[i])
  }

  /** The length of the longest prefix of s whose characters satisfy p. */
  function Span(s: string, p: char -> bool): (n: nat)
    ensures n <= |s|
    ensures All(s[..n], p)
    ensures n < |s| ==> !p(s[n])
  {
    if s == [] || !p(s[0]) then 0
    else
      var rest := Span(s[1..], p);
      assert forall i :: 1 <= i < 1 + rest ==> s[i] == s[1..][i - 1];
      1 + rest
  }

  /** A prefix of satisfying characters stopped by the end or by a failing one is the span. */
  lemma SpanIs(s: string, p: char -> bool, k: nat)
    requires k <= |s| && All(s[..k], p) && (k < |s| ==> !p(s[k]))
    ensures Span(s, p) == k
  {
    var n := Span(s, p);
    forall i | 0 <= i < k ensures p(s[i]) {
      assert s[..k][i] == s[i];
    }
    forall i | 0 <= i < n ensures p(s[i]) {
      assert s[..n][i] == s[i];
    }
  }

  /** The three groups of `/^(\w+)\s+(\d{1,2})\s+(\d{4})$/`. */
  datatype DateMatch = DateMatch(month: string, day: string, year: string)

  /** The year group: exactly four digits up to the end of the text. */
  function MatchYear(month: string, day: string, t: string): (m: Option<DateMatch>)
    ensures m.Some? ==> m.value.month == month && m.value.day == day && |m.value.year| == 4 && AllDigits(m.value.year)
  {
    if |t| == 4 && AllDigits(t) then Some(DateMatch(month, day, t)) else None
  }

  /** The blanks before the year. */
  function MatchAfterDay(month: string, day: string, t: string): (m: Option<DateMatch>)
    ensures m.Some? ==> m.value.month == month && m.value.day == day && |m.value.year| == 4 && AllDigits(m.value.year)
  {
    var g := Span(t, IsJsWhitespace);
    if g == 0 then None else MatchYear(month, day, t[g..])
  }

  /** The day group: one or two digits, followed by something other than a digit. */
  function MatchDay(month: string, t: string): (m: Option<DateMatch>)
    ensures m.Some? ==> m.value.month == month && 1 <= |m.value.day| <= 2 && AllDigits(m.value.day) && |m.value.year| == 4 && AllDigits(m.value.year)
  {
    var d := Span(t, IsDigit);
    if d == 0 || d > 2 then None else MatchAfterDay(month, t[..d], t[d..])
  }

  /** The blanks before the day. */
  function MatchAfterMonth(month: string, t: string): (m: Option<DateMatch>)
    ensures m.Some? ==> m.value.month == month && 1 <= |m.value.day| <= 2 && AllDigits(m.value.day) && |m.value.year| == 4 && AllDigits(m.value.year)
  {
    var g := Span(t, IsJsWhitespace);
    if g == 0 then None else MatchDay(month, t[g..])
  }

  /**
   * `s.match(/^(\w+)\s+(\d{1,2})\s+(\d{4})$/)`. No character is both a word
   * character and a blank, and no digit is a blank, so each group ends where
   * its class ends: the match, when there is one, is found by reading the
   * classes in turn.
   */
  function MatchDate(s: string): (m: Option<DateMatch>)
    ensures m.Some? ==> |m.value.month| >= 1 && 1 <= |m.value.day| <= 2 && AllDigits(m.value.day) && |m.value.year| == 4 && AllDigits(m.value.year)
  {
    var w := Span(s, IsWordChar);
    if w == 0 then None else MatchAfterMonth(s[..w], s[w..])
  }

  /** The pattern stated directly: s is the month word, blanks, the day, blanks and the year. */
  predicate Shape(s: string, m: DateMatch, blanks1: string, blanks2: string)
  {
    && s == m.month + blanks1 + m.day + blanks2 + m.year
    && |m.month| >= 1 && All(m.month, IsWordChar)
    && |blanks1| >= 1 && All(blanks1, IsJsWhitespace)
    && 1 <= |m.day| <= 2 && AllDigits(m.day)
    && |blanks2| >= 1 && All(blanks2, IsJsWhitespace)
    && |m.year| == 4 && AllDigits(m.year)
  }

  lemma Regroup(a: string, b: string, c: string, d: string, e: string)
    ensures a + (b + c + d + e) == a + b + c + d + e
  {
    assert b + c + d + e == b + (c + (d + e));
    assert a + b + c + d + e == a + (b + (c + (d + e)));
  }

  lemma WordCharsAreNotBlank(c: char)
    ensures IsWordChar(c) ==> !IsJsWhitespace(c)
  {
  }

  lemma AfterDaySound(month: string, day: string, t: string) returns (blanks2: string)
    requires MatchAfterDay(month, day, t).Some?
    ensures var m := MatchAfterDay(month, day, t).value;
            && m.month == month && m.day == day && t == blanks2 + m.year
            && |blanks2| >= 1 && All(blanks2, IsJsWhitespace) && |m.year| == 4 && AllDigits(m.year)
  {
    var g := Span(t, IsJsWhitespace);
    blanks2 := t[..g];
    assert t == blanks2 + t[g..];
  }

  lemma DaySound(month: string, t: string) returns (blanks2: string)
    requires MatchDay(month, t).Some?
    ensures var m := MatchDay(month, t).value;
            && m.month == month && t == m.day + (blanks2 + m.year)
            && |blanks2| >= 1 && All(blanks2, IsJsWhitespace)
  {
    var d := Span(t, IsDigit);
    blanks2 := AfterDaySound(month, t[..d], t[d..]);
    assert t == t[..d] + t[d..];
  }

  lemma AfterMonthSound(month: string, t: string) returns (blanks1: string, blanks2: string)
    requires MatchAfterMonth(month, t).Some?
    ensures var m := MatchAfterMonth(month, t).value;
            && m.month == month && t == blanks1 + m.day + blanks2 + m.year
            && |blanks1| >= 1 && All(blanks1, IsJsWhitespace)
            && |blanks2| >= 1 && All(blanks2, IsJsWhitespace)
  {
    var rest;
    blanks1, rest := LeadingBlanks(month, t);
    var m := MatchAfterMonth(month, t).value;
    blanks2 := DaySound(month, rest);
    Regroup4(blanks1, m.day, blanks2, m.year);
  }

  /** The blanks `MatchAfterMonth` skips, and the text it hands to `MatchDay`. */
  lemma LeadingBlanks(month: string, t: string) returns (blanks1: string, rest: string)
    requires MatchAfterMonth(month, t).Some?
    ensures t == blanks1 + rest && |blanks1| >= 1 && All(blanks1, IsJsWhitespace)
    ensures MatchAfterMonth(month, t) == MatchDay(month, rest)
  {
    var g := Span(t, IsJsWhitespace);
    blanks1, rest := t[..g], t[g..];
    assert t == blanks1 + rest;
  }

  lemma Regroup4(a: string, b: string, c: string, d: string)
    ensures a + (b + (c + d)) == a + b + c + d
  {
    assert a + (b + (c + d)) == (a + b) + (c + d);
    assert (a + b) + (c + d) == ((a + b) + c) + d;
  }

  /** What `MatchDate` finds has the shape of the pattern. */
  lemma MatchDateSound(s: string) returns (blanks1: string, blanks2: string)
    requires MatchDate(s).Some?
    ensures Shape(s, MatchDate(s).value, blanks1, blanks2)
  {
    var w := Span(s, IsWordChar);
    var month, t := s[..w], s[w..];
    blanks1, blanks2 := AfterMonthSound(month, t);
    var m := MatchDate(s).value;
    assert m == MatchAfterMonth(month, t).value;
    assert s == month + t;
    Regroup(month, blanks1, m.day, blanks2, m.year);
  }

  lemma AfterDayComplete(month: string, day: string, blanks2: string, year: string)
    requires |blanks2| >= 1 && All(blanks2, IsJsWhitespace) && |year| == 4 && AllDigits(year)
    ensures MatchAfterDay(month, day, blanks2 + year) == Some(DateMatch(month, day, year))
  {
    var t := blanks2 + year;
    assert t[..|blanks2|] == blanks2 && t[|blanks2|] == year[0];
    SpanIs(t, IsJsWhitespace, |blanks2|);
    assert t[|blanks2|..] == year;
  }

  lemma DayComplete(month: string, day: string, blanks2: string, year: string)
    requires 1 <= |day| <= 2 && AllDigits(day)
    requires |blanks2| >= 1 && All(blanks2, IsJsWhitespace) && |year| == 4 && AllDigits(year)
    ensures MatchDay(month, day + blanks2 + year) == Some(DateMatch(month, day, year))
  {
    var t := day + (blanks2 + year);
    assert t == day + blanks2 + year;
    assert t[..|day|] == day && t[|day|] == blanks2[0];
    SpanIs(t, IsDigit, |day|);
    assert t[|day|..] == blanks2 + year;
    AfterDayComplete(month, day, blanks2, year);
  }

  lemma AfterMonthComplete(month: string, blanks1: string, rest: string, day: string, blanks2: string, year: string)
    requires rest == day + blanks2 + year
    requires |blanks1| >= 1 && All(blanks1, IsJsWhitespace)
    requires 1 <= |day| <= 2 && AllDigits(day)
    requires |blanks2| >= 1 && All(blanks2, IsJsWhitespace) && |year| == 4 && AllDigits(year)
    ensures MatchAfterMonth(month, blanks1 + rest) == Some(DateMatch(month, day, year))
  {
    var t := blanks1 + rest;
    assert t[..|blanks1|] == blanks1 && t[|blanks1|] == day[0];
    SpanIs(t, IsJsWhitespace, |blanks1|);
    assert t[|blanks1|..] == rest;
    DayComplete(month, day, blanks2, year);
  }

  /** Every string of the pattern's shape is matched, with exactly those groups. */
  lemma MatchDateComplete(s: string, m: DateMatch, blanks1: string, blanks2: string)
    requires Shape(s, m, blanks1, blanks2)
    ensures MatchDate(s) == Some(m)
  {
    var rest := m.day + blanks2 + m.year;
    var t := blanks1 + rest;
    assert s == m.month + t;
    assert s[..|m.month|] == m.month;
    WordCharsAreNotBlank(blanks1[0]);
    assert s[|m.month|] == blanks1[0];
    SpanIs(s, IsWordChar, |m.month|);
    assert s[|m.month|..] == t;
    AfterMonthComplete(m.month, blanks1, rest, m.day, blanks2, m.year);
  }

  /** `monthNames[name]`: the exact, case-sensitive English month names. */
  function MonthNumber(name: string): (mm: Option<string>)
    ensures mm.Some? ==> |mm.value| == 2 && AllDigits(mm.value) && 1 <= DigitsValue(mm.value) <= 12
  {
    if name == "January" then Some("01")
    else if name == "February" then Some("02")
    else if name == "March" then Some("03")
    else if name == "April" then Some("04")
    else if name == "May" then Some("05")
    else if name == "June" then Some("06")
    else if name == "July" then Some("07")
    else if name == "August" then Some("08")
    else if name == "September" then Some("09")
    else if name == "October" then Some("10")
    else if name == "November" then Some("11")
    else if name == "December" then Some("12")
    else None
  }

  /** Month names are made of word characters. */
  lemma MonthNamesAreWords(name: string)
    requires MonthNumber(name).Some?
    ensures |name| >= 3 && All(name, IsWordChar)
  {
  }

  /** `day.padStart(2, '0')` on a day of one or two digits. */
  function PadDay(day: string): (padded: string)
    requires 1 <= |day| <= 2
    ensures |padded| == 2 && padded[2 - |day|..] == day
    ensures |day| == 1 ==> padded[0] == '0'
    ensures AllDigits(day) ==> AllDigits(padded)
  {
    if |day| == 1 then "0" + day else day
  }

  /** The template `${year}-${month}-${day}`. */
  function IsoDate(year: string, month: string, day: string): (r: string)
    requires |year| == 4 && |month| == 2 && |day| == 2
    ensures |r| == 10 && r[4] == '-' && r[7] == '-'
    ensures r[..4] == year && r[5..7] == month && r[8..] == day
  {
    year + "-" + month + "-" + day
  }

  /** The hand-written branch: the groups of a match whose first group names a month, as "YYYY-MM-DD". */
  function Reformat(m: DateMatch): (r: Option<string>)
    requires 1 <= |m.day| <= 2 && AllDigits(m.day) && |m.year| == 4 && AllDigits(m.year)
    ensures r.None? <==> MonthNumber(m.month).None?
    ensures r.Some? ==> && |r.value| == 10 && r.value[4] == '-' && r.value[7] == '-'
                        && r.value[..4] == m.year && r.value[5..7] == MonthNumber(m.month).value
                        && r.value[8..] == PadDay(m.day)
                        && AllDigits(r.value[..4]) && AllDigits(r.value[5..7]) && AllDigits(r.value[8..])
  {
    var mm := MonthNumber(m.month);
    if mm.None? then None else Some(IsoDate(m.year, mm.value, PadDay(m.day)))
  }

  /**
   * `parseDate(value)`: null for a falsy value; "YYYY-MM-DD" for a match whose
   * first group names a month; otherwise whatever the host date parser makes of
   * the text (`hostParse`, None for an invalid date).
   */
  function ParseDate(value: Option<string>, hostParse: string -> Option<string>): (r: Option<string>)
    ensures !Truthy(value) ==> r.None?
    ensures Truthy(value) && MatchDate(value.value).Some? && Reformat(MatchDate(value.value).value).Some?
            ==> r == Reformat(MatchDate(value.value).value)
    ensures Truthy(value) && (MatchDate(value.value).None? || Reformat(MatchDate(value.value).value).None?)
            ==> r == hostParse(value.value)
  {
    if !Truthy(value) then None
    else
      var m := MatchDate(value.value);
      if m.Some? && Reformat(m.value).Some? then Reformat(m.value) else hostParse(value.value)
  }

  /**
   * A month name, a day of one or two digits and a four-digit year, separated
   * by blanks, become "YYYY-MM-DD" without consulting the host. The day is
   * copied (padded), not range-checked: any two digits, "00" and "31" after
   * "February" included, come out as the day field.
   */
  lemma ParseDateOfMonthDayYear(name: string, blanks1: string, day: string, blanks2: string, year: string,
                                hostParse: string -> Option<string>)
    requires MonthNumber(name).Some?
    requires |blanks1| >= 1 && All(blanks1, IsJsWhitespace) && |blanks2| >= 1 && All(blanks2, IsJsWhitespace)
    requires 1 <= |day| <= 2 && AllDigits(day) && |year| == 4 && AllDigits(year)
    ensures ParseDate(Some(name + blanks1 + day + blanks2 + year), hostParse)
            == Reformat(DateMatch(name, day, year))
    ensures Reformat(DateMatch(name, day, year)).Some?
  {
    var s := name + blanks1 + day + blanks2 + year;
    var m := DateMatch(name, day, year);
    MonthNamesAreWords(name);
    assert Shape(s, m, blanks1, blanks2);
    MatchDateComplete(s, m, blanks1, blanks2);
    assert MatchDate(s) == Some(m);
    assert s != "";
  }

  /** The month name is case-sensitive: a matched word that is no exact month name goes to the host parser. */
  lemma UnknownMonthGoesToHost(s: string, hostParse: string -> Option<string>)
    requires s != "" && MatchDate(s).Some? && MonthNumber(MatchDate(s).value.month).None?
    ensures ParseDate(Some(s), hostParse) == hostParse(s)
  {
  }
}
