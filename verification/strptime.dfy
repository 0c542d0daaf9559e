/** The four date layouts app.py hands to `datetime.strptime` (app.py:69),
    stated from the regular expressions CPython's `_strptime` builds for them:

      %d  `3[01]|[12]\d|0[1-9]|[1-9]| [1-9]`
      %m  `1[0-2]|0[1-9]|[1-9]`
      %Y  `\d\d\d\d`
      %y  `\d\d`, 69..99 read as 19xx and 00..68 as 20xx (the POSIX strptime pivot)

    The expression is matched at the start of the string and any text left
    over is an error. No field can contain the separator `-`, so a match
    exists exactly when the string splits on `-` into three pieces, each of
    which its field accepts whole; the date must then be one `datetime`
    accepts, or the layout fails. */
module Strptime {
  import opened Wrappers
  import opened Cells
  import opened Text
  import opened Calendar

  datatype Layout =
    | DayMonthYear4   // "%d-%m-%Y"
    | DayMonthYear2   // "%d-%m-%y"
    | Year4MonthDay   // "%Y-%m-%d"
    | Year2MonthDay   // "%y-%m-%d"

  /** The layouts in the order app.py tries them. */
  const TriedLayouts: seq<Layout> := [DayMonthYear4, DayMonthYear2, Year4MonthDay, Year2MonthDay]

  predicate IsTwoDigitYear(f: Layout) {
    f == DayMonthYear2 || f == Year2MonthDay
  }

  predicate NonZeroDigit(c: char) {
    '1' <= c <= '9'
  }

  /** `%d`, one regex alternative per branch; `int()` ignores the leading blank. */
  function DayField(t: string): (r: Option<int>)
    ensures r.Some? ==> 1 <= r.value <= 31
  {
    if |t| == 2 && t[0] == '3' && (t[1] == '0' || t[1] == '1') then Some(30 + DigitValue(t[1]))
    else if |t| == 2 && (t[0] == '1' || t[0] == '2') && IsDigit(t[1]) then Some(10 * DigitValue(t[0]) + DigitValue(t[1]))
    else if |t| == 2 && t[0] == '0' && NonZeroDigit(t[1]) then Some(DigitValue(t[1]))
    else if |t| == 1 && NonZeroDigit(t[0]) then Some(DigitValue(t[0]))
    else if |t| == 2 && t[0] == ' ' && NonZeroDigit(t[1]) then Some(DigitValue(t[1]))
    else None
  }

  /** `%m`, one regex alternative per branch. */
  function MonthField(t: string): (r: Option<int>)
    ensures r.Some? ==> 1 <= r.value <= 12
  {
    if |t| == 2 && t[0] == '1' && ('0' <= t[1] <= '2') then Some(10 + DigitValue(t[1]))
    else if |t| == 2 && t[0] == '0' && NonZeroDigit(t[1]) then Some(DigitValue(t[1]))
    else if |t| == 1 && NonZeroDigit(t[0]) then Some(DigitValue(t[0]))
    else None
  }

  /** `%Y`: exactly four digits. Every four-digit text is accepted, and it
      is the year written back out with zero padding. */
  function Year4Field(t: string): (r: Option<int>)
    ensures r.Some? ==> 0 <= r.value <= 9999
    ensures |t| == 4 && DigitsOnly(t) ==> r.Some?
    ensures r.Some? ==> |t| == 4 && ZeroPad(r.value, 4) == t
  {
    if |t| == 4 && DigitsOnly(t) then
      ZeroPadOfDigitsValue(t);
      Some(DigitsValue(t))
    else None
  }

  /** `%y`: exactly two digits, placed in 1969..2068. */
  function Year2Field(t: string): (r: Option<int>)
    ensures r.Some? ==> 1969 <= r.value <= 2068
    ensures r.Some? ==> DigitsOnly(t) && |t| == 2 && r.value % 100 == DigitsValue(t)
    ensures |t| == 2 && DigitsOnly(t) ==> r.Some?
  {
    if |t| == 2 && DigitsOnly(t) then
      var yy := DigitsValue(t);
      Some(if yy <= 68 then 2000 + yy else 1900 + yy)
    else None
  }

  /** The `%d` field accepts one or two digits worth 1 to 31, or a blank
      followed by a digit 1 to 9, and reads the number they spell. */
  lemma DayFieldAccepts(t: string, v: int)
    ensures DayField(t) == Some(v) <==>
      || (1 <= |t| <= 2 && DigitsOnly(t) && DigitsValue(t) == v && 1 <= v <= 31)
      || (|t| == 2 && t[0] == ' ' && NonZeroDigit(t[1]) && v == DigitValue(t[1]))
  {
    if |t| == 2 && DigitsOnly(t) {
      assert t[..1] == [t[0]];
      assert DigitsValue(t) == 10 * DigitValue(t[0]) + DigitValue(t[1]);
    } else if |t| == 1 && DigitsOnly(t) {
      assert DigitsValue(t) == DigitValue(t[0]);
    }
  }

  /** The `%m` field accepts one or two digits worth 1 to 12, and reads the
      number they spell. */
  lemma MonthFieldAccepts(t: string, v: int)
    ensures MonthField(t) == Some(v) <==> 1 <= |t| <= 2 && DigitsOnly(t) && DigitsValue(t) == v && 1 <= v <= 12
  {
    if |t| == 2 && DigitsOnly(t) {
      assert t[..1] == [t[0]];
      assert DigitsValue(t) == 10 * DigitValue(t[0]) + DigitValue(t[1]);
    } else if |t| == 1 && DigitsOnly(t) {
      assert DigitsValue(t) == DigitValue(t[0]);
    }
  }

  /** The date the three fields spell, when each field matched and
      `datetime` accepts the result; otherwise the layout fails. */
  function Assemble(year: Option<int>, month: Option<int>, day: Option<int>): (r: Option<Date>)
    ensures r.Some? ==> IsValid(r.value)
    ensures r.Some? ==> year.Some? && month.Some? && day.Some? && r.value == Date(year.value, month.value, day.value)
    ensures year.Some? && month.Some? && day.Some? && IsValid(Date(year.value, month.value, day.value)) ==> r.Some?
  {
    if year.Some? && month.Some? && day.Some?
       && IsValid(Date(year.value, month.value, day.value))
    then Some(Date(year.value, month.value, day.value))
    else None
  }

  /** `datetime.strptime(s, layout)`, with the ValueError as None. */
  function ParseWith(s: string, f: Layout): (r: Option<Date>)
    ensures r.Some? ==> IsValid(r.value)
    ensures r.Some? ==> |Split(s, '-')| == 3
    ensures r.Some? && IsTwoDigitYear(f) ==> 1969 <= r.value.year <= 2068
  {
    var parts := Split(s, '-');
    if |parts| != 3 then None
    else
      match f
      case DayMonthYear4 => Assemble(Year4Field(parts[2]), MonthField(parts[1]), DayField(parts[0]))
      case DayMonthYear2 => Assemble(Year2Field(parts[2]), MonthField(parts[1]), DayField(parts[0]))
      case Year4MonthDay => Assemble(Year4Field(parts[0]), MonthField(parts[1]), DayField(parts[2]))
      case Year2MonthDay => Assemble(Year2Field(parts[0]), MonthField(parts[1]), DayField(parts[2]))
  }

  /** The first of `layouts` that parses `s`, as the `for ... break` loop
      at app.py:69-74 takes it. */
  function FirstParse(s: string, layouts: seq<Layout>): (r: Option<Date>)
    ensures r.Some? <==> exists i :: 0 <= i < |layouts| && ParseWith(s, layouts[i]).Some?
    ensures r.Some? ==> exists i :: 0 <= i < |layouts| && r == ParseWith(s, layouts[i])
                                 && forall j :: 0 <= j < i ==> ParseWith(s, layouts[j]).None?
  {
    if |layouts| == 0 then None
    else
      var here := ParseWith(s, layouts[0]);
      if here.Some? then
        assert 0 <= 0 < |layouts| && here == ParseWith(s, layouts[0]);
        here
      else
        var rest := layouts[1..];
        var r := FirstParse(s, rest);
        assert forall j :: 1 <= j < |layouts| ==> layouts[j] == rest[j - 1];
        if r.Some? then
          var i :| 0 <= i < |rest| && r == ParseWith(s, rest[i])
                   && forall j :: 0 <= j < i ==> ParseWith(s, rest[j]).None?;
          assert r == ParseWith(s, layouts[i + 1]);
          assert forall j :: 0 <= j < i + 1 ==> ParseWith(s, layouts[j]).None?;
          r
        else
          r
  }

  /** What app.py gets from its four `strptime` attempts. */
  function ParseDate(s: string): (r: Option<Date>)
    ensures r.Some? ==> IsValid(r.value)
    ensures r.Some? ==> '-' in s
  {
    var r := FirstParse(s, TriedLayouts);
    assert r.Some? ==> '-' in s by {
      if '-' !in s {
        SplitWithoutSeparator(s, '-');
      }
    }
    r
  }

  /** `d` written in a layout with every field zero-padded: two digits for
      day and month, four for `%Y` and the last two for `%y`. */
  function Render(d: Date, f: Layout): (s: string)
    requires IsValid(d)
  {
    var dd := ZeroPad(d.day, 2);
    var mm := ZeroPad(d.month, 2);
    var yyyy := ZeroPad(d.year, 4);
    var yy := ZeroPad(d.year % 100, 2);
    match f
    case DayMonthYear4 => dd + "-" + mm + "-" + yyyy
    case DayMonthYear2 => dd + "-" + mm + "-" + yy
    case Year4MonthDay => yyyy + "-" + mm + "-" + dd
    case Year2MonthDay => yy + "-" + mm + "-" + dd
  }

  /** A zero-padded digit string has no separator in it. */
  lemma DigitsHaveNoDash(t: string)
    requires DigitsOnly(t)
    ensures '-' !in t
  {
  }

  /** The three pieces of a rendering are the zero-padded fields. */
  lemma SplitThree(a: string, b: string, c: string)
    requires DigitsOnly(a) && DigitsOnly(b) && DigitsOnly(c)
    ensures Split(a + "-" + b + "-" + c, '-') == [a, b, c]
  {
    DigitsHaveNoDash(a);
    DigitsHaveNoDash(b);
    DigitsHaveNoDash(c);
    assert Join([a, b, c], '-') == a + "-" + b + "-" + c by {
      assert Join([a, b, c][1..], '-') == b + "-" + c by {
        assert [a, b, c][1..][1..] == [c];
      }
    }
    SplitJoin([a, b, c], '-');
  }

  lemma DayOfRendering(v: int)
    requires 1 <= v <= 31
    ensures DayField(ZeroPad(v, 2)) == Some(v)
  {
    DigitsValueOfZeroPad(v, 2);
    DayFieldAccepts(ZeroPad(v, 2), v);
  }

  lemma MonthOfRendering(v: int)
    requires 1 <= v <= 12
    ensures MonthField(ZeroPad(v, 2)) == Some(v)
  {
    DigitsValueOfZeroPad(v, 2);
    MonthFieldAccepts(ZeroPad(v, 2), v);
  }

  lemma Year4OfRendering(y: int)
    requires 1 <= y <= 9999
    ensures Year4Field(ZeroPad(y, 4)) == Some(y)
  {
    DigitsValueOfZeroPad(y, 4);
  }

  /** The last two digits of a year are its offset within its century. */
  lemma YearInCentury(y: int, c: int, yy: int)
    requires y == 100 * c + yy && 0 <= yy < 100
    ensures y % 100 == yy
  {
  }

  lemma Year2OfRendering(y: int)
    requires 1969 <= y <= 2068
    ensures Year2Field(ZeroPad(y % 100, 2)) == Some(y)
  {
    var c := if y < 2000 then 19 else 20;
    var yy := y - 100 * c;
    YearInCentury(y, c, yy);
    var t := ZeroPad(yy, 2);
    DigitsValueOfZeroPad(yy, 2);
    assert DigitsValue(t) == yy;
  }

  /** Parsing a rendering in the same layout gives the date back, for every
      date `datetime` accepts; a two-digit year only comes back when the date
      lies in the century the pivot chooses, 1969 to 2068. */
  lemma ParseRender(d: Date, f: Layout)
    requires IsValid(d)
    requires IsTwoDigitYear(f) ==> 1969 <= d.year <= 2068
    ensures ParseWith(Render(d, f), f) == Some(d)
  {
    var dd := ZeroPad(d.day, 2);
    var mm := ZeroPad(d.month, 2);
    DayOfRendering(d.day);
    MonthOfRendering(d.month);
    match f
    case DayMonthYear4 =>
      Year4OfRendering(d.year);
      SplitThree(dd, mm, ZeroPad(d.year, 4));
    case DayMonthYear2 =>
      Year2OfRendering(d.year);
      SplitThree(dd, mm, ZeroPad(d.year % 100, 2));
    case Year4MonthDay =>
      Year4OfRendering(d.year);
      SplitThree(ZeroPad(d.year, 4), mm, dd);
    case Year2MonthDay =>
      Year2OfRendering(d.year);
      SplitThree(ZeroPad(d.year % 100, 2), mm, dd);
  }

  /** A string without `-` (a bare digit string, say) matches no layout. */
  lemma NoSeparatorNoDate(s: string)
    requires '-' !in s
    ensures ParseDate(s) == None
  {
  }

  /** A string of digits alone is no date in any layout. */
  lemma DigitStringNoDate(s: string)
    ensures DigitsOnly(s) ==> ParseDate(s) == None
  {
    if DigitsOnly(s) {
      DigitsHaveNoDash(s);
      NoSeparatorNoDate(s);
    }
  }

  /** The layouts are tried one after another and the first that parses wins. */
  lemma ParseDateInOrder(s: string)
    ensures ParseDate(s) ==
      if ParseWith(s, DayMonthYear4).Some? then ParseWith(s, DayMonthYear4)
      else if ParseWith(s, DayMonthYear2).Some? then ParseWith(s, DayMonthYear2)
      else if ParseWith(s, Year4MonthDay).Some? then ParseWith(s, Year4MonthDay)
      else ParseWith(s, Year2MonthDay)
  {
    var l1 := [Year2MonthDay];
    var l2 := [Year4MonthDay] + l1;
    var l3 := [DayMonthYear2] + l2;
    assert TriedLayouts == [DayMonthYear4] + l3;
    assert FirstParse(s, l1) == ParseWith(s, Year2MonthDay) by {
      assert l1[1..] == [];
    }
    assert l2[1..] == l1 && l3[1..] == l2 && TriedLayouts[1..] == l3;
    var p1 := FirstParse(s, l1);
    var p2 := FirstParse(s, l2);
    var p3 := FirstParse(s, l3);
    assert p2 == if ParseWith(s, Year4MonthDay).Some? then ParseWith(s, Year4MonthDay) else p1;
    assert p3 == if ParseWith(s, DayMonthYear2).Some? then ParseWith(s, DayMonthYear2) else p2;
    assert ParseDate(s) == FirstParse(s, TriedLayouts);
    assert FirstParse(s, TriedLayouts) == if ParseWith(s, DayMonthYear4).Some? then ParseWith(s, DayMonthYear4) else p3;
  }

  /** Three dash-free pieces joined by dashes are read field by field. */
  lemma ParseWithPieces(a: string, b: string, c: string, f: Layout)
    requires DigitsOnly(a) && DigitsOnly(b) && DigitsOnly(c)
    ensures ParseWith(a + "-" + b + "-" + c, f) ==
      match f
      case DayMonthYear4 => Assemble(Year4Field(c), MonthField(b), DayField(a))
      case DayMonthYear2 => Assemble(Year2Field(c), MonthField(b), DayField(a))
      case Year4MonthDay => Assemble(Year4Field(a), MonthField(b), DayField(c))
      case Year2MonthDay => Assemble(Year2Field(a), MonthField(b), DayField(c))
  {
    SplitThree(a, b, c);
  }

  /** Read year first, "05-06-15" is 15 June 2005. */
  lemma YearFirstReading()
    ensures ParseWith("05-06-15", Year2MonthDay) == Some(Date(2005, 6, 15))
  {
    assert "05-06-15" == "05" + "-" + "06" + "-" + "15";
    assert DayField("15") == Some(15);
    assert MonthField("06") == Some(6);
    assert DigitsValue("05") == 5;
    assert Year2Field("05") == Some(2005);
    ParseWithPieces("05", "06", "15", Year2MonthDay);
  }

  /** Read day first, "05-06-15" is 5 June 2015; "15" is no four-digit year. */
  lemma DayFirstReading()
    ensures ParseWith("05-06-15", DayMonthYear4) == None
    ensures ParseWith("05-06-15", DayMonthYear2) == Some(Date(2015, 6, 5))
  {
    assert "05-06-15" == "05" + "-" + "06" + "-" + "15";
    assert DayField("05") == Some(5);
    assert MonthField("06") == Some(6);
    assert Year4Field("15") == None;
    assert DigitsValue("15") == 15;
    assert Year2Field("15") == Some(2015);
    ParseWithPieces("05", "06", "15", DayMonthYear4);
    ParseWithPieces("05", "06", "15", DayMonthYear2);
  }

  /** "05-06-15" fits both two-digit layouts; the day-first one is tried
      first, so it is read as 5 June 2015 and not as 15 June 2005. */
  lemma DayFirstLayoutWins()
    ensures ParseWith("05-06-15", Year2MonthDay) == Some(Date(2005, 6, 15))
    ensures ParseDate("05-06-15") == Some(Date(2015, 6, 5))
  {
    YearFirstReading();
    DayFirstReading();
    ParseDateInOrder("05-06-15");
  }

  lemma ImpossibleDayFirst()
    ensures ParseWith("31-02-1990", DayMonthYear4) == None
    ensures ParseWith("31-02-1990", DayMonthYear2) == None
  {
    assert "31-02-1990" == "31" + "-" + "02" + "-" + "1990";
    assert DayField("31") == Some(31);
    assert MonthField("02") == Some(2);
    assert Year2Field("1990") == None;
    FourDigitsValue("1990");
    assert Year4Field("1990") == Some(1990);
    assert !IsValid(Date(1990, 2, 31));
    ParseWithPieces("31", "02", "1990", DayMonthYear4);
    ParseWithPieces("31", "02", "1990", DayMonthYear2);
  }

  lemma ImpossibleYearFirst()
    ensures ParseWith("31-02-1990", Year4MonthDay) == None
    ensures ParseWith("31-02-1990", Year2MonthDay) == None
  {
    assert "31-02-1990" == "31" + "-" + "02" + "-" + "1990";
    assert DayField("1990") == None;
    ParseWithPieces("31", "02", "1990", Year4MonthDay);
    ParseWithPieces("31", "02", "1990", Year2MonthDay);
  }

  /** A day the month does not have fails every layout. */
  lemma ImpossibleDate()
    ensures ParseDate("31-02-1990") == None
  {
    ImpossibleDayFirst();
    ImpossibleYearFirst();
    ParseDateInOrder("31-02-1990");
  }
}
