/** `calculate_age` (app.py:51-89): a best-effort reading of the `Date of
    Birth` column that never fails. The blanket `except` becomes the `None`
    of an `Option`, and `datetime.today()` becomes the `today` parameter. */
module Age {
  import opened Wrappers
  import opened Cells
  import opened Text
  import opened Calendar
  import opened Strptime

  /** The clean-up applied to a string date before anything else (app.py:59):
      dots become dashes, surrounding whitespace goes. */
  function Tidy(s: string): string {
    Strip(Replace(s, '.', '-'))
  }

  /** The dashboard's own reading of a two-digit year (app.py:66, 81):
      above 30 is in the 1900s, 30 and below in the 2000s. */
  function CenturyPivot(yy: int): int {
    if yy > 30 then 1900 + yy else 2000 + yy
  }

  /** What app.py makes of a tidied, non-empty string date (app.py:61-74,
      84): a four-digit year, a five-digit string read through its last two
      digits, or the first of the four layouts that parses it. */
  function StringAge(s: string, today: Date): (age: Option<int>)
    ensures ParseDate(s).Some? ==> age == Some(AgeOn(ParseDate(s).value, today))
    ensures age.None? <==> !(IsDigitString(s) && (|s| == 4 || |s| == 5)) && ParseDate(s).None?
  {
    DigitStringNoDate(s);
    if IsDigitString(s) && |s| == 4 then Some(today.year - DigitsValue(s))
    else if IsDigitString(s) && |s| == 5 then Some(today.year - CenturyPivot(DigitsValue(s[3..])))
    else
      var parsed := ParseDate(s);
      if parsed.Some? then Some(AgeOn(parsed.value, today)) else None
  }

  /** The age of someone whose date of birth is recorded as `dob`, or None
      where app.py ends up with None (its `except` included). */
  function CalculateAge(dob: DobCell, today: Date): (age: Option<int>)
    ensures dob.Missing? || dob == Str("") ==> age == None
    ensures age.Some? && dob.Num? ==> 30 <= dob.n
  {
    match dob
    case Missing => None
    case Str(raw) => if raw == "" then None else StringAge(Tidy(raw), today)
    case Num(n) =>
      if 1900 <= n <= today.year then Some(today.year - n)
      else if 30 <= n <= 99 then Some(today.year - CenturyPivot(n))
      else None
    case When(d) => Some(AgeOn(d, today))
  }

  /** Tidying the empty string leaves it empty. */
  lemma TidyEmpty()
    ensures Tidy("") == ""
  {
    assert Replace("", '.', '-') == "";
  }

  /** Replacing a character that does not occur changes nothing. */
  lemma ReplaceAbsent(s: string, from: char, to: char)
    requires from !in s
    ensures Replace(s, from, to) == s
  {
    assert forall i :: 0 <= i < |s| ==> s[i] != from by {
      forall i | 0 <= i < |s|
        ensures s[i] != from
      {
        assert s[i] in s;
      }
    }
  }

  /** A digit string with whitespace around it tidies to itself. */
  lemma TidyPaddedDigits(pre: string, s: string, post: string)
    requires AllSpace(pre) && AllSpace(post)
    requires IsDigitString(s)
    ensures Tidy(pre + s + post) == s
  {
    var t := pre + s + post;
    assert '.' !in t by {
      forall i | 0 <= i < |t|
        ensures t[i] != '.'
      {
        if i < |pre| {
          assert t[i] == pre[i];
        } else if i < |pre| + |s| {
          assert t[i] == s[i - |pre|];
        } else {
          assert t[i] == post[i - |pre| - |s|];
        }
      }
    }
    ReplaceAbsent(t, '.', '-');
    StripPadded(pre, s, post);
  }

  /** A non-empty string is read by `StringAge` once tidied. */
  lemma StringCase(raw: string, today: Date)
    requires raw != ""
    ensures CalculateAge(Str(raw), today) == StringAge(Tidy(raw), today)
  {
  }

  /** The digit-string branches of `StringAge`, as a fact about `s` alone. */
  lemma StringAgeOfDigits(s: string, today: Date)
    requires IsDigitString(s)
    ensures |s| == 4 ==> StringAge(s, today) == Some(today.year - DigitsValue(s))
    ensures |s| == 5 ==> StringAge(s, today) == Some(today.year - CenturyPivot(DigitsValue(s[3..])))
  {
  }

  /** Only a non-empty string tidies to a non-empty one. */
  lemma NonEmptyWhenTidyIs(raw: string)
    requires Tidy(raw) != ""
    ensures raw != ""
  {
    TidyEmpty();
  }

  /** A tidied four-digit string is read as a year. */
  lemma FourDigitsRead(s: string, today: Date)
    requires |s| == 4 && DigitsOnly(s)
    ensures StringAge(s, today)
         == Some(today.year - (1000 * DigitValue(s[0]) + 100 * DigitValue(s[1]) + 10 * DigitValue(s[2]) + DigitValue(s[3])))
  {
    StringAgeOfDigits(s, today);
    FourDigitsValue(s);
  }

  /** The step the string lemmas share: a string whose tidied form
      `StringAge` reads as born in `born` gives the age for `born`. */
  lemma TidiedAge(raw: string, s: string, today: Date, born: int)
    requires Tidy(raw) == s
    requires |s| > 0
    requires StringAge(s, today) == Some(today.year - born)
    ensures CalculateAge(Str(raw), today) == Some(today.year - born)
  {
    NonEmptyWhenTidyIs(raw);
    StringCase(raw, today);
  }

  /** A four-digit year written as a string, once tidied (so with or
      without surrounding whitespace, see `TidyPaddedDigits`), gives this
      year minus that year (app.py:59-63). */
  lemma FourDigitYearString(raw: string, s: string, today: Date)
    requires Tidy(raw) == s
    requires |s| == 4 && DigitsOnly(s)
    ensures CalculateAge(Str(raw), today)
         == Some(today.year - (1000 * DigitValue(s[0]) + 100 * DigitValue(s[1]) + 10 * DigitValue(s[2]) + DigitValue(s[3])))
  {
    FourDigitsRead(s, today);
    TidiedAge(raw, s, today, 1000 * DigitValue(s[0]) + 100 * DigitValue(s[1]) + 10 * DigitValue(s[2]) + DigitValue(s[3]));
  }

  /** A tidied five-digit string is read through its last two digits. */
  lemma FiveDigitsLastTwo(s: string, today: Date)
    requires |s| == 5 && DigitsOnly(s)
    ensures StringAge(s, today) == Some(today.year - CenturyPivot(10 * DigitValue(s[3]) + DigitValue(s[4])))
  {
    StringAgeOfDigits(s, today);
    LastTwoDigits(s);
  }

  /** A five-digit string, once tidied, is read only through its last two
      digits `d`: the birth year is 1900 + d when d > 30 and 2000 + d
      otherwise (app.py:59, 64-67). */
  lemma FiveDigitString(raw: string, s: string, today: Date)
    requires Tidy(raw) == s
    requires |s| == 5 && DigitsOnly(s)
    ensures CalculateAge(Str(raw), today) == Some(today.year - CenturyPivot(10 * DigitValue(s[3]) + DigitValue(s[4])))
  {
    FiveDigitsLastTwo(s, today);
    TidiedAge(raw, s, today, CenturyPivot(10 * DigitValue(s[3]) + DigitValue(s[4])));
  }

  /** The value of the last two of five digits. */
  lemma LastTwoDigits(s: string)
    requires |s| == 5 && DigitsOnly(s)
    ensures DigitsValue(s[3..]) == 10 * DigitValue(s[3]) + DigitValue(s[4])
  {
    var last := s[3..];
    TwoDigitsValue(last);
    assert last[0] == s[3] && last[1] == s[4];
  }

  /** A digit string of any other length (a bare "85", say) matches none of
      the layouts and so gives None. */
  lemma OtherDigitStringsUnknown(raw: string, today: Date)
    requires IsDigitString(Tidy(raw))
    requires |Tidy(raw)| != 4 && |Tidy(raw)| != 5
    ensures CalculateAge(Str(raw), today) == None
  {
    var s := Tidy(raw);
    Strptime.DigitsHaveNoDash(s);
    NoSeparatorNoDate(s);
  }

  /** A string that reads as a date in the first layout that accepts it
      gives the age on that date (app.py:69-74, 84-87). */
  lemma ParsedStringDate(raw: string, today: Date, d: Date)
    requires ParseDate(Tidy(raw)) == Some(d)
    ensures CalculateAge(Str(raw), today) == Some(AgeOn(d, today))
  {
    NonEmptyWhenTidyIs(raw);
    StringCase(raw, today);
  }

  /** A string that is not a four- or five-digit number and matches no
      layout gives None: the final `dob.year` fails on a string and the
      `except` catches it (app.py:84, 88-89). */
  lemma UnparsableStringUnknown(raw: string, today: Date)
    requires var s := Tidy(raw); !(IsDigitString(s) && (|s| == 4 || |s| == 5))
    requires ParseDate(Tidy(raw)) == None
    ensures CalculateAge(Str(raw), today) == None
  {
  }

  /** A number between 1900 and this year is a birth year; otherwise one
      between 30 and 99 is a two-digit year with the pivot at 30 (so 30
      itself is 2030); every other number gives None (app.py:76-82, 84). */
  lemma NumericDateOfBirth(n: int, today: Date)
    ensures 1900 <= n <= today.year ==> CalculateAge(Num(n), today) == Some(today.year - n)
    ensures !(1900 <= n <= today.year) && 30 < n <= 99 ==> CalculateAge(Num(n), today) == Some(today.year - (1900 + n))
    ensures !(1900 <= n <= today.year) && n == 30 ==> CalculateAge(Num(n), today) == Some(today.year - 2030)
    ensures !(1900 <= n <= today.year) && !(30 <= n <= 99) ==> CalculateAge(Num(n), today) == None
  {
  }

  /** A date value gives the number of completed years on `today`: the
      year difference, less one exactly when (today.month, today.day) comes
      before (birth month, birth day) (app.py:84-87). */
  lemma DateValueAge(d: Date, today: Date)
    ensures var age := CalculateAge(When(d), today);
      && age.Some?
      && (age.value == today.year - d.year - 1 <==>
            today.month < d.month || (today.month == d.month && today.day < d.day))
      && (age.value == today.year - d.year <==>
            !(today.month < d.month || (today.month == d.month && today.day < d.day)))
  {
  }

  /** A string already free of dots and outer whitespace is left as it is. */
  lemma TidyPlain(s: string)
    requires '.' !in s
    requires |s| > 0 && !IsSpace(s[0]) && !IsSpace(s[|s| - 1])
    ensures Tidy(s) == s
  {
    ReplaceAbsent(s, '.', '-');
    StripPadded("", s, "");
    assert "" + s + "" == s;
  }

  /** "05-06-15" could be read either way round; the day-first layout is
      tried first, so the person is taken to be born on 5 June 2015
      (app.py:69-74). */
  lemma DayFirstStringDate(raw: string, today: Date)
    requires Tidy(raw) == "05-06-15"
    ensures CalculateAge(Str(raw), today) == Some(AgeOn(Date(2015, 6, 5), today))
  {
    DayFirstLayoutWins();
    ParsedStringDate(raw, today, Date(2015, 6, 5));
  }

  /** Replacing dots leaves a string without dots alone. */
  lemma ReplaceNoDots(s: string)
    requires forall i :: 0 <= i < |s| ==> IsSpace(s[i]) || IsDigit(s[i])
    ensures Replace(s, '.', '-') == s
  {
    assert '.' !in s by {
      forall i | 0 <= i < |s|
        ensures s[i] != '.'
      {
        assert IsSpace(s[i]) || IsDigit(s[i]);
      }
    }
    ReplaceAbsent(s, '.', '-');
  }

  /** Dots between the fields of a date become dashes. */
  lemma ReplaceDottedDate(pre: string, a: string, b: string, c: string, post: string)
    requires AllSpace(pre) && AllSpace(post)
    requires DigitsOnly(a) && DigitsOnly(b) && DigitsOnly(c)
    ensures Replace(pre + a + "." + b + "." + c + post, '.', '-') == pre + a + "-" + b + "-" + c + post
  {
    var dot := ".";
    ReplaceNoDots(pre);
    ReplaceNoDots(a);
    ReplaceNoDots(b);
    ReplaceNoDots(c);
    ReplaceNoDots(post);
    assert Replace(dot, '.', '-') == "-";
    ReplaceConcat(pre, a, '.', '-');
    ReplaceConcat(pre + a, dot, '.', '-');
    ReplaceConcat(pre + a + dot, b, '.', '-');
    ReplaceConcat(pre + a + dot + b, dot, '.', '-');
    ReplaceConcat(pre + a + dot + b + dot, c, '.', '-');
    ReplaceConcat(pre + a + dot + b + dot + c, post, '.', '-');
  }

  /** A date written with dots, between whitespace, tidies to the same date
      written with dashes. */
  lemma TidyDottedDate(pre: string, a: string, b: string, c: string, post: string)
    requires AllSpace(pre) && AllSpace(post)
    requires IsDigitString(a) && DigitsOnly(b) && IsDigitString(c)
    ensures Tidy(pre + a + "." + b + "." + c + post) == a + "-" + b + "-" + c
  {
    ReplaceDottedDate(pre, a, b, c, post);
    DashedDateStrip(pre, a, b, c, post);
  }

  /** Padding around a dashed date is stripped and nothing else is. */
  lemma DashedDateStrip(pre: string, a: string, b: string, c: string, post: string)
    requires AllSpace(pre) && AllSpace(post)
    requires IsDigitString(a) && IsDigitString(c)
    ensures Strip(pre + a + "-" + b + "-" + c + post) == a + "-" + b + "-" + c
  {
    var s := a + "-" + b + "-" + c;
    assert pre + a + "-" + b + "-" + c + post == pre + s + post;
    assert s[0] == a[0];
    assert s[|s| - 1] == c[|c| - 1];
    StripPadded(pre, s, post);
  }

  /** A date written with dashes and no padding is already tidy. */
  lemma TidyPlainDate(a: string, b: string, c: string)
    requires IsDigitString(a) && DigitsOnly(b) && IsDigitString(c)
    ensures Tidy(a + "-" + b + "-" + c) == a + "-" + b + "-" + c
  {
    var s := a + "-" + b + "-" + c;
    assert s == a + (['-'] + b + ['-']) + c;
    assert '.' !in s by {
      forall i | 0 <= i < |s|
        ensures s[i] != '.'
      {
        if i < |a| {
          assert s[i] == a[i];
        } else if i < |a| + 1 + |b| + 1 {
          assert s[i] == '-' || s[i] == b[i - |a| - 1];
        } else {
          assert s[i] == c[i - |a| - |b| - 2];
        }
      }
    }
    TidyPlain(s);
  }

  /** Dots count as dashes and padding is ignored: a date written
      " 15.06.1990 " gives the same age as "15-06-1990" (app.py:59, 69-74). */
  lemma DottedStringDate(pre: string, a: string, b: string, c: string, post: string, today: Date)
    requires AllSpace(pre) && AllSpace(post)
    requires IsDigitString(a) && DigitsOnly(b) && IsDigitString(c)
    ensures CalculateAge(Str(pre + a + "." + b + "." + c + post), today) == CalculateAge(Str(a + "-" + b + "-" + c), today)
  {
    var raw := pre + a + "." + b + "." + c + post;
    var s := a + "-" + b + "-" + c;
    TidyDottedDate(pre, a, b, c, post);
    TidyPlainDate(a, b, c);
    assert |raw| > 0 && |s| > 0;
    assert CalculateAge(Str(raw), today) == StringAge(s, today);
    assert CalculateAge(Str(s), today) == StringAge(s, today);
  }

  /** A day the month does not have fails every layout, and the age is
      unknown (app.py:72-73, 88-89), however the text tidies to it. */
  lemma ImpossibleDateUnknown(raw: string, today: Date)
    requires Tidy(raw) == "31-02-1990"
    ensures CalculateAge(Str(raw), today) == None
  {
    var s := "31-02-1990";
    assert !DigitsOnly(s) by {
      assert s[2] == '-';
    }
    ImpossibleDate();
    UnparsableStringUnknown(raw, today);
  }

  /** Two digits are a year only as a number: the text "85" matches no
      layout and gives None (app.py:61-67, 69-74) ... */
  lemma TwoDigitTextUnknown(raw: string, today: Date)
    requires Tidy(raw) == "85"
    ensures CalculateAge(Str(raw), today) == None
  {
    OtherDigitStringsUnknown(raw, today);
  }

  /** ... while the number 85 is 1985, and the number 30 is 2030
      (app.py:80-82). */
  lemma TwoDigitNumbers(today: Date)
    ensures CalculateAge(Num(85), today) == Some(today.year - 1985)
    ensures CalculateAge(Num(30), today) == Some(today.year - 2030)
  {
  }
}
