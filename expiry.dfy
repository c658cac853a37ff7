/**
 * The expiry colouring of the client list (`color_vencimiento`): a `Vencimiento`
 * cell holds a day and a month abbreviation without a year ("05-jun"); the
 * current year is appended, the text is read with the `%d-%b-%Y` format, the
 * whole days from now until midnight of that date are counted, and the count
 * picks a red style (2 days or fewer), a yellow style (5 or fewer) or no
 * style.  Anything that does not read as a date gets no style.
 *
 * The clock is an argument: `Instant` is the moment `datetime.now()` returns.
 */
module Expiry {
  import opened Wrappers
  import opened Strings
  import opened Frame
  import opened Calendar

  const RedStyle: string := "background-color: #ff4b4b; color: white"
  const YellowStyle: string := "background-color: #ffeb3b; color: black"
  const NoStyle: string := ""

  /** Microseconds in a day: the resolution of Python's `datetime` and `timedelta`. */
  const MicrosPerDay: int := 86_400_000_000

  /** A local date and time: the date and the microseconds since its midnight. */
  datatype Instant = Instant(date: Date, micros: int)

  predicate ValidInstant(now: Instant)
  {
    ValidDate(now.date) && 0 <= now.micros < MicrosPerDay
  }

  /** A day of a month, as the token names it. */
  datatype MonthDay = MonthDay(month: int, day: int)

  // ---------------------------------------------------------------------------
  // Reading the token: `datetime.strptime(token + "-" + year, "%d-%b-%Y")`
  // ---------------------------------------------------------------------------

  /** The month abbreviations `%b` accepts (C locale), lower-cased. */
  const MonthAbbrevs: seq<string> :=
    ["jan", "feb", "mar", "apr", "may", "jun", "jul", "aug", "sep", "oct", "nov", "dec"]

  function Abbrev(m: int): (s: string)
    requires 1 <= m <= 12
    ensures |s| == 3
  {
    MonthAbbrevs[m - 1]
  }

  /** The month an abbreviation names, or 0 when it names none. */
  function MonthNumber(s: string): (m: int)
    ensures 0 <= m <= 12
    ensures 1 <= m ==> Abbrev(m) == s
    ensures m == 0 ==> forall k :: 1 <= k <= 12 ==> Abbrev(k) != s
  {
    if s == "jan" then 1 else if s == "feb" then 2 else if s == "mar" then 3
    else if s == "apr" then 4 else if s == "may" then 5 else if s == "jun" then 6
    else if s == "jul" then 7 else if s == "aug" then 8 else if s == "sep" then 9
    else if s == "oct" then 10 else if s == "nov" then 11 else if s == "dec" then 12
    else 0
  }

  predicate IsDigit(c: char)
  {
    '0' <= c <= '9'
  }

  function DigitValue(c: char): int
    requires IsDigit(c)
  {
    c as int - '0' as int
  }

  function DigitChar(n: int): (c: char)
    requires 0 <= n <= 9
    ensures IsDigit(c) && DigitValue(c) == n
  {
    "0123456789"[n]
  }

  /**
   * The `%d` field, whose pattern is `3[01]|[12]\d|0[1-9]|[1-9]`: one digit
   * from 1 to 9, or two digits whose value is from 1 to 31.
   */
  function ParseDay(t: string): (r: Option<int>)
    ensures r.Some? ==> 1 <= r.value <= 31
  {
    if |t| == 1 && '1' <= t[0] <= '9' then Some(DigitValue(t[0]))
    else if |t| == 2 && IsDigit(t[0]) && IsDigit(t[1])
            && 1 <= 10 * DigitValue(t[0]) + DigitValue(t[1]) <= 31
    then Some(10 * DigitValue(t[0]) + DigitValue(t[1]))
    else None
  }

  /** The ways `%d` spells day `d`: "5" and "05" for a day below 10, else its two digits. */
  function DayForms(d: int): set<string>
    requires 1 <= d <= 31
  {
    if d < 10 then {[DigitChar(d)], ['0', DigitChar(d)]}
    else {[DigitChar(d / 10), DigitChar(d % 10)]}
  }

  /** The day field reads exactly the spellings of a day. */
  lemma ParseDayForms(t: string, d: int)
    requires 1 <= d <= 31
    ensures ParseDay(t) == Some(d) <==> t in DayForms(d)
  {
    if ParseDay(t) == Some(d) {
      if |t| == 1 {
        assert t == [DigitChar(d)];
      } else if d < 10 {
        assert t == ['0', DigitChar(d)];
      } else {
        assert t == [DigitChar(d / 10), DigitChar(d % 10)];
      }
    }
  }

  /**
   * `strptime(s + "-" + str(year), "%d-%b-%Y")` for a trimmed, lower-cased
   * token `s`: a day field, a dash and a month abbreviation must make up all
   * of `s`, `%Y` needs the year to have four digits, and the day must exist
   * in that month of that year.  `None` stands for the `ValueError`.
   */
  function ParseToken(s: string, year: int): (r: Option<MonthDay>)
    ensures r.Some? ==>
              && 1000 <= year <= 9999
              && ValidDate(Date(year, r.value.month, r.value.day))
  {
    var k := if |s| >= 2 && s[1] == '-' then 1 else 2;
    if |s| <= k || s[k] != '-' then None
    else match ParseDay(s[..k])
      case None => None
      case Some(d) =>
        var m := MonthNumber(s[k + 1..]);
        if m == 0 || !(1000 <= year <= 9999) || d > DaysInMonth(year, m) then None
        else Some(MonthDay(m, d))
  }

  /** The text `%d-%b` reads as `md`: one of the day's spellings, a dash, the month's abbreviation. */
  ghost predicate Spells(s: string, md: MonthDay)
  {
    && 1 <= md.month <= 12 && 1 <= md.day <= 31
    && exists f :: f in DayForms(md.day) && s == f + "-" + Abbrev(md.month)
  }

  /** A token that reads as a date is a spelling of a day that exists in the current year. */
  lemma ParseTokenSound(s: string, year: int)
    requires ParseToken(s, year).Some?
    ensures Spells(s, ParseToken(s, year).value)
  {
    var md := ParseToken(s, year).value;
    var k := if |s| >= 2 && s[1] == '-' then 1 else 2;
    ParseDayForms(s[..k], md.day);
    assert s == s[..k] + "-" + Abbrev(md.month);
  }

  /** Every spelling of every day that exists in the current year reads as that day. */
  lemma ParseTokenComplete(f: string, md: MonthDay, year: int)
    requires 1000 <= year <= 9999 && ValidDate(Date(year, md.month, md.day))
    requires f in DayForms(md.day)
    ensures ParseToken(f + "-" + Abbrev(md.month), year) == Some(md)
  {
    var s := f + "-" + Abbrev(md.month);
    ParseDayForms(f, md.day);
    var k := |f|;
    assert s[..k] == f && s[k] == '-' && s[k + 1..] == Abbrev(md.month);
    assert k == 2 ==> s[1] != '-';
    assert MonthNumber(Abbrev(md.month)) == md.month;
  }

  /** Only tokens of five or six characters can read as a date: one with a year already in it never does. */
  lemma TokenLength(s: string, year: int)
    requires ParseToken(s, year).Some?
    ensures 5 <= |s| <= 6
  {
    ParseTokenSound(s, year);
  }

  /** Tokens that never read as a date: the 30th of February, the 29th outside leap years, and more. */
  lemma RejectedTokens(year: int)
    ensures ParseToken("30-feb", year) == None
    ensures !IsLeapYear(year) ==> ParseToken("29-feb", year) == None
    ensures ParseToken("05-jun-2026", year) == None
    ensures ParseToken("", year) == None
    ensures year < 1000 ==> forall s :: ParseToken(s, year) == None
  {
    TokenLengthRejects("05-jun-2026", year);
  }

  lemma TokenLengthRejects(s: string, year: int)
    requires |s| > 6
    ensures ParseToken(s, year) == None
  {
    if ParseToken(s, year).Some? {
      TokenLength(s, year);
    }
  }

  // ---------------------------------------------------------------------------
  // Counting the days: `(fecha_v - datetime.now()).days`
  // ---------------------------------------------------------------------------

  /** The token's date in the current year. */
  function TargetDate(md: MonthDay, now: Instant): Date
  {
    Date(now.date.year, md.month, md.day)
  }

  /**
   * `timedelta.days` of midnight on `target` minus `now`: the difference in
   * microseconds, divided by a day and rounded down.
   */
  function DaysUntil(target: Date, now: Instant): int
    requires ValidDate(target) && ValidInstant(now)
  {
    ((Ordinal(target) - Ordinal(now.date)) * MicrosPerDay - now.micros) / MicrosPerDay
  }

  /** Rounding down a whole number of days minus part of a day. */
  lemma FloorDays(a: int, t: int)
    requires 0 <= t < MicrosPerDay
    ensures (a * MicrosPerDay - t) / MicrosPerDay == if t == 0 then a else a - 1
  {
    if t == 0 {
      assert a * MicrosPerDay == a * MicrosPerDay + 0;
    } else {
      assert a * MicrosPerDay - t == (a - 1) * MicrosPerDay + (MicrosPerDay - t);
    }
  }

  /**
   * The day count is the difference of the two dates' positions in the year,
   * less one as soon as the current day has begun (any time after midnight).
   */
  lemma DaysUntilSameYear(target: Date, now: Instant)
    requires ValidDate(target) && ValidInstant(now) && target.year == now.date.year
    ensures DaysUntil(target, now)
            == DayOfYear(target) - DayOfYear(now.date) - (if now.micros == 0 then 0 else 1)
  {
    FloorDays(Ordinal(target) - Ordinal(now.date), now.micros);
  }

  // ---------------------------------------------------------------------------
  // The style
  // ---------------------------------------------------------------------------

  /** The style for a day count. */
  function StyleFor(days: int): string
  {
    if days <= 2 then RedStyle
    else if days <= 5 then YellowStyle
    else NoStyle
  }

  /** The token as `color_vencimiento` reads it: `str(val).strip().lower()`. */
  function Normalize(val: Cell): string
  {
    Lower(Strip(Str(val)))
  }

  /** `color_vencimiento(val)` at the moment `now`: always one of the three styles. */
  function ExpiryStyle(val: Cell, now: Instant): (r: string)
    requires ValidInstant(now)
    ensures r == RedStyle || r == YellowStyle || r == NoStyle
  {
    match ParseToken(Normalize(val), now.date.year)
    case None => NoStyle
    case Some(md) => StyleFor(DaysUntil(TargetDate(md, now), now))
  }

  /**
   * The three tiers: with `days` the whole days until the token's date, red
   * exactly when `days <= 2`, yellow exactly when `3 <= days <= 5`, no style
   * exactly when `days > 5`; and no style when the token does not read.
   */
  lemma ExpiryTiers(val: Cell, now: Instant)
    requires ValidInstant(now)
    ensures ParseToken(Normalize(val), now.date.year).None? ==> ExpiryStyle(val, now) == NoStyle
    ensures ParseToken(Normalize(val), now.date.year).Some? ==>
              var md := ParseToken(Normalize(val), now.date.year).value;
              var days := DayOfYear(TargetDate(md, now)) - DayOfYear(now.date)
                          - (if now.micros == 0 then 0 else 1);
              && (ExpiryStyle(val, now) == RedStyle <==> days <= 2)
              && (ExpiryStyle(val, now) == YellowStyle <==> 3 <= days <= 5)
              && (ExpiryStyle(val, now) == NoStyle <==> days > 5)
  {
    var parsed := ParseToken(Normalize(val), now.date.year);
    if parsed.Some? {
      DaysUntilSameYear(TargetDate(parsed.value, now), now);
    }
  }

  /**
   * A token for today, or for a day already past this year, is red: the year
   * is never stored, so a date is always taken in the current year.
   */
  lemma NotAfterTodayIsRed(val: Cell, now: Instant)
    requires ValidInstant(now)
    requires ParseToken(Normalize(val), now.date.year).Some?
    requires !Before(now.date, TargetDate(ParseToken(Normalize(val), now.date.year).value, now))
    ensures ExpiryStyle(val, now) == RedStyle
  {
    var target := TargetDate(ParseToken(Normalize(val), now.date.year).value, now);
    DaysUntilSameYear(target, now);
    if target != now.date {
      DayOfYearIncreases(target, now.date);
    }
  }

  /** Month abbreviations are made of small letters. */
  lemma AbbrevIsLowerCase(m: int)
    requires 1 <= m <= 12
    ensures forall i :: 0 <= i < 3 ==> 'a' <= Abbrev(m)[i] <= 'z'
  {
  }

  /** A token spelled in the canonical lower-case form reads back unchanged. */
  lemma NormalizeSpelling(f: string, md: MonthDay)
    requires 1 <= md.month <= 12 && 1 <= md.day <= 31 && f in DayForms(md.day)
    ensures Normalize(Text(f + "-" + Abbrev(md.month))) == f + "-" + Abbrev(md.month)
  {
    var a := Abbrev(md.month);
    var s := f + "-" + a;
    AbbrevIsLowerCase(md.month);
    assert forall i :: 0 <= i < |f| ==> IsDigit(f[i]);
    assert forall i :: 0 <= i < |s| ==> s[i] == if i < |f| then f[i] else if i == |f| then '-' else a[i - |f| - 1];
    assert !IsSpace(s[0]) && !IsSpace(s[|s| - 1]);
    StripKeeps(s);
    LowerKeeps(s);
  }

  /** Today's own token, in any of its day spellings, is red. */
  lemma TodayIsRed(f: string, now: Instant)
    requires ValidInstant(now) && 1000 <= now.date.year
    requires f in DayForms(now.date.day)
    ensures ExpiryStyle(Text(f + "-" + Abbrev(now.date.month)), now) == RedStyle
  {
    var md := MonthDay(now.date.month, now.date.day);
    NormalizeSpelling(f, md);
    ParseTokenComplete(f, md, now.date.year);
    NotAfterTodayIsRed(Text(f + "-" + Abbrev(now.date.month)), now);
  }

  /**
   * A cell whose trimmed, lower-cased text spells a day of the current year
   * gets the style of the day count to that day.
   */
  lemma StyleOfSpelling(t: string, f: string, md: MonthDay, now: Instant)
    requires ValidInstant(now) && 1000 <= now.date.year
    requires ValidDate(TargetDate(md, now)) && f in DayForms(md.day)
    requires Normalize(Text(t)) == f + "-" + Abbrev(md.month)
    ensures ExpiryStyle(Text(t), now)
            == StyleFor(DayOfYear(TargetDate(md, now)) - DayOfYear(now.date)
                        - (if now.micros == 0 then 0 else 1))
  {
    ParseTokenComplete(f, md, now.date.year);
    ExpiryTiers(Text(t), now);
  }

  /** Trimming and lower-casing: blanks on both sides go and capitals become small letters. */
  lemma NormalizePaddedExample()
    ensures Normalize(Text(" 18-Oct ")) == "18-oct"
  {
    var t := "18-Oct";
    assert Strip(" 18-Oct ") == t by {
      assert " 18-Oct " == " " + t + " ";
      StripPadding(" ", t, " ");
    }
    assert Lower(t) == "18-oct" by {
      LowerAt(t, 3);
      assert Lower(t)[3] == 'o';
    }
  }

  /** Lower-casing: a month written in capitals reads as its abbreviation. */
  lemma NormalizeCapitalsExample()
    ensures Normalize(Text("19-OCT")) == "19-oct"
  {
    var t := "19-OCT";
    assert Strip(t) == t by {
      StripKeeps(t);
    }
    assert Lower(t) == "19-oct" by {
      LowerAt(t, 3);
      LowerAt(t, 4);
      LowerAt(t, 5);
      assert Lower(t)[3] == 'o' && Lower(t)[4] == 'c' && Lower(t)[5] == 't';
    }
  }

  /** Trimming: a trailing line break is dropped. */
  lemma NormalizeLineBreakExample()
    ensures Normalize(Text("21-oct\n")) == "21-oct"
  {
    var t := "21-oct";
    assert "21-oct\n" == "" + t + "\n";
    StripPadding("", t, "\n");
    LowerKeeps(t);
  }

  /** Two digits and "-oct" spell a day of October, and the spelling reads back unchanged. */
  lemma OctoberSpelling(f: string, d: int)
    requires 10 <= d <= 31 && f == [DigitChar(d / 10), DigitChar(d % 10)]
    ensures f + "-" + Abbrev(10) == f + "-oct"
    ensures Normalize(Text(f + "-oct")) == f + "-oct"
  {
    assert Abbrev(10) == "oct";
    NormalizeSpelling(f, MonthDay(10, d));
  }

  /** Day `d` of October 2026, spelled with two digits, read during 15 October 2026 after midnight. */
  lemma OctoberDay(t: string, f: string, d: int, now: Instant)
    requires now.date == Date(2026, 10, 15) && 0 < now.micros < MicrosPerDay
    requires 16 <= d <= 31 && f == [DigitChar(d / 10), DigitChar(d % 10)]
    requires Normalize(Text(t)) == f + "-oct"
    ensures ExpiryStyle(Text(t), now) == StyleFor(d - 16)
  {
    var md := MonthDay(10, d);
    assert f + "-" + Abbrev(10) == f + "-oct" by {
      OctoberSpelling(f, d);
    }
    assert DayOfYear(TargetDate(md, now)) - DayOfYear(now.date) == d - 15;
    StyleOfSpelling(t, f, md, now);
  }

  /** Later than midnight on 15 October 2026, a padded, capitalised "18-Oct" (two days away) is red. */
  lemma TwoDaysAwayIsRed(now: Instant)
    requires now.date == Date(2026, 10, 15) && 0 < now.micros < MicrosPerDay
    ensures ExpiryStyle(Text(" 18-Oct "), now) == RedStyle
  {
    NormalizePaddedExample();
    assert "18" == [DigitChar(1), DigitChar(8)];
    OctoberDay(" 18-Oct ", "18", 18, now);
    assert StyleFor(2) == RedStyle;
  }

  /** Later than midnight on 15 October 2026, "19-OCT" (three days away) is yellow. */
  lemma ThreeDaysAwayIsYellow(now: Instant)
    requires now.date == Date(2026, 10, 15) && 0 < now.micros < MicrosPerDay
    ensures ExpiryStyle(Text("19-OCT"), now) == YellowStyle
  {
    NormalizeCapitalsExample();
    OctoberDay("19-OCT", "19", 19, now);
  }

  /** Later than midnight on 15 October 2026, "21-oct" followed by a line break (five days away) is yellow. */
  lemma FiveDaysAwayIsYellow(now: Instant)
    requires now.date == Date(2026, 10, 15) && 0 < now.micros < MicrosPerDay
    ensures ExpiryStyle(Text("21-oct\n"), now) == YellowStyle
  {
    NormalizeLineBreakExample();
    OctoberDay("21-oct\n", "21", 21, now);
  }

  /** Later than midnight on 15 October 2026, "22-oct" (six days away) gets no style. */
  lemma SixDaysAwayIsPlain(now: Instant)
    requires now.date == Date(2026, 10, 15) && 0 < now.micros < MicrosPerDay
    ensures ExpiryStyle(Text("22-oct"), now) == NoStyle
  {
    OctoberSpelling("22", 22);
    OctoberDay("22-oct", "22", 22, now);
  }
}
