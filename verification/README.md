# Disabled-persons registry dashboard: record derivation and filters

This project models the logic of a small Streamlit dashboard over a register
of persons with disabilities (`app.py`). Every row of the register has a date
of birth, a gender code, two addresses, a registration type (CRPD or NCRPD),
a qualification and a few other columns. The dashboard derives five columns
for each row and then narrows the table with the sidebar selections:

- the **age**, from a date of birth that may be missing, a string in one of
  several spellings, a bare number or a date value (`calculate_age`);
- the **age group** (`categorize_age`);
- the **normalised gender**;
- whether the person lives **in Islamabad** (`is_islamabad`, on either address);
- the **normalised registration type**.

The model is pure functions over immutable datatypes, in ten modules:

| module | file | what it holds |
|---|---|---|
| `Wrappers` | wrappers.dfy | `Option` |
| `Cells` | cells.dfy | the sheet's cells: `TextCell`, `DobCell`, `Date` |
| `Text` | text.dfy | the Python string operations used: `replace`, `strip`, `lower`, `upper`, `isdigit`, `int()`, `in`; and `Split`/`Join`, which describe how a `strptime` layout separates its fields |
| `Calendar` | calendar.dfy | valid `datetime` dates and the age in completed years |
| `Strptime` | strptime.dfy | the four `datetime.strptime` layouts, as an explicit specification |
| `Age` | age.dfy | `calculate_age` |
| `AgeGroups` | agegroups.dfy | `categorize_age` |
| `Normalize` | normalize.dfy | gender, Islamabad flag, registration type |
| `Records` | records.dfy | a raw row, a derived row, the derivation of a whole sheet |
| `Filter` | filter.dfy | the chain of sidebar filters |

The notes below describe how the model reads the code.

- **No exceptions.** `calculate_age` never raises: its blanket `except` becomes
  the `None` of an `Option<int>`. The `fillna('Unknown')` that follows it
  (app.py:93) is that same `None`, which `Categorize` maps to the `Unknown`
  group.
- **Today is a parameter.** `datetime.today()` becomes the `today: Date`
  argument.
- **`strptime` is specified, not called.** It is stated from the regular
  expressions CPython's `_strptime` builds:
  - `%d` is one of `3[01]`, `[12]\d`, `0[1-9]`, `[1-9]` or a blank then `[1-9]`;
  - `%m` is one of `1[0-2]`, `0[1-9]` or `[1-9]`;
  - `%Y` is four digits;
  - `%y` is two digits, read with the POSIX pivot: 69-99 are 19xx and 00-68 are 20xx;
  - the whole string must be consumed;
  - the date must be one `datetime` accepts: years 1 to 9999, and the day must exist in that month.

  No field can contain `-`. So a layout matches exactly when the string
  splits on `-` into three pieces, each of which its field accepts whole.
  `ParseWith` is written that way. `ParseWithPieces` and `ParseRender` pin
  it down.
- **Quirks kept as written.**
  - A two-digit year of exactly 30 is 2030 (`CenturyPivot`).
  - A five-digit string is read only through its last two digits.
  - A seventeen-year-old is in the "Above 60" group.
  - Selecting CRPD also keeps NCRPD rows, because registration matching is
    case-insensitive containment.
  - A missing registration type becomes the text "NAN".
  - The sector markers `g-` … `c-` match anywhere in an address.
- **Ages can be negative.** Ages are `int`, not `nat`. The code subtracts
  without a check, so a year after today (the string "2999", or the number 30,
  which is 2030) gives a negative age.

## Model

| member | source | states |
|---|---|---|
| Text.Replace | app.py:59 | `replace('.', '-')` keeps the length; each position holds `-` where the input had `.`, and otherwise the input's character |
| Text.Strip | app.py:59 | `strip()` leaves no whitespace at either end, and the result is a slice of the input with only whitespace cut off on each side |
| Text.StripPadded | app.py:59 | whitespace put around a string that has non-space ends is exactly what `strip()` removes |
| Text.StripIdempotent | app.py:121 | stripping a stripped string changes nothing |
| Text.TwoDigitsValue | app.py:65 | `int()` of two digits is ten times the first digit plus the second |
| Text.FourDigitsValue | app.py:63 | `int()` of four digits is their positional decimal value |
| Text.LowerCharOfLetter | app.py:115 | lower-casing gives a given lower-case letter exactly from that letter or its capital |
| Text.UpperProperties | app.py:121 | an upper-cased string has no lower-case letter; upper-casing is idempotent; lower-casing it equals lower-casing the original |
| Text.UpperKeepsSpace | app.py:121 | upper-casing keeps whether the first and the last character are whitespace, so the upper-cased stripped text still has no whitespace at either end |
| Text.ContainsIff | app.py:116 | the `in` test holds exactly when the needle occurs at some index of the haystack |
| Text.ContainsTransitive | app.py:140 | a string that occurs inside an occurring string occurs in the whole |
| Text.JoinSplit | app.py:69-71 | joining the pieces of a split on `-` gives the string back |
| Text.SplitJoin | app.py:69-71 | splitting a join of separator-free pieces gives the pieces back |
| Calendar.DaysInMonth | app.py:71 | months have 28 to 31 days, and 29 exactly for February of a leap year |
| Calendar.AgeOn | app.py:84-86 | the computed age is the number of completed years: that anniversary has been reached on `today` and the next has not |
| Calendar.AgeCountsCompletedYears | app.py:84-86 | the k-th anniversary has been reached exactly when k is at most the age |
| Strptime.DayFieldAccepts | app.py:69-71 | `%d` accepts exactly one or two digits worth 1 to 31, or a blank and a digit 1 to 9, and reads the number they spell |
| Strptime.MonthFieldAccepts | app.py:69-71 | `%m` accepts exactly one or two digits worth 1 to 12, and reads the number they spell |
| Strptime.Year4Field | app.py:69-71 | `%Y` accepts every four-digit text and nothing else, and the text is the year written back with zero padding |
| Strptime.Year2Field | app.py:69-71 | `%y` accepts exactly the two-digit texts, puts the year in 1969..2068, and keeps the two digits as the year modulo 100 |
| Strptime.Assemble | app.py:71-73 | when every field matched, the layout yields exactly the date the fields spell if `datetime` accepts it, and fails otherwise; a failed field makes it fail |
| Strptime.ParseWith | app.py:71 | a successful parse is a valid date from a string with exactly three `-`-separated pieces, and a two-digit-year layout gives a year in 1969..2068 |
| Strptime.ParseWithPieces | app.py:69-71 | a dash-joined triple of digit pieces parses in a layout exactly as that layout's fields read the pieces |
| Strptime.FirstParse | app.py:69-74 | the loop yields a date exactly when some layout parses, and then the date of a layout that parses with every earlier layout failing |
| Strptime.ParseDate | app.py:69-74 | a parsed date is valid and comes from a string containing `-` |
| Strptime.ParseDateInOrder | app.py:69-74 | the layouts are tried in the order `%d-%m-%Y`, `%d-%m-%y`, `%Y-%m-%d`, `%y-%m-%d`, and the first that parses wins |
| Strptime.ParseRender | app.py:69-74 | every valid date written zero-padded in a layout parses back to itself; with a two-digit-year layout, every valid date in 1969..2068 does |
| Strptime.NoSeparatorNoDate | app.py:69-74 | a string without `-` (a bare digit string, say) matches no layout |
| Strptime.DayFirstLayoutWins | app.py:69-74 | the year-first layout alone reads "05-06-15" as 15 June 2005, and the layouts tried in order read it as 5 June 2015 |
| Strptime.ImpossibleDate | app.py:69-74 | "31-02-1990" fails all four layouts |
| Age.StringAge | app.py:58-89 | a string some layout reads gives the completed years since that date; the age is unknown exactly when the string is neither a four- or five-digit number nor readable by a layout |
| Age.CalculateAge | app.py:51-89 | a missing value or the empty string gives no age; a number gives an age only if it is at least 30 |
| Age.TidyPaddedDigits | app.py:59 | a digit string with whitespace around it tidies to itself |
| Age.TidyDottedDate | app.py:59 | a date written with dots between whitespace tidies to the same date with dashes |
| Age.TidyPlainDate | app.py:59 | a date written with dashes and no padding is already tidy |
| Age.DottedStringDate | app.py:59-74 | " 15.06.1990 "-style spellings give the same age as "15-06-1990" |
| Age.FourDigitYearString | app.py:59-63 | a string that tidies to four digits gives this year minus the year they spell |
| Age.FiveDigitString | app.py:59-67 | a string that tidies to five digits depends only on its last two digits d: born 1900+d if d > 30, else 2000+d |
| Age.OtherDigitStringsUnknown | app.py:61-89 | a digit string of any other length matches no layout and gives no age |
| Age.TwoDigitTextUnknown | app.py:61-89 | text that tidies to "85" gives no age |
| Age.ParsedStringDate | app.py:69-87 | a string whose tidied form parses gives the completed years since the parsed date |
| Age.UnparsableStringUnknown | app.py:69-89 | a string that is neither a four- nor five-digit number and matches no layout gives no age |
| Age.DayFirstStringDate | app.py:69-87 | text that tidies to "05-06-15" is taken as born on 5 June 2015 |
| Age.ImpossibleDateUnknown | app.py:69-89 | text that tidies to "31-02-1990" gives no age |
| Age.NumericDateOfBirth | app.py:76-89 | a number in 1900..this year is a birth year; otherwise 31..99 is 19xx and 30 is 2030; any other number gives no age |
| Age.TwoDigitNumbers | app.py:76-82 | the number 85 is born 1985, and the number 30 is born 2030 |
| Age.DateValueAge | app.py:84-87 | a date value gives the year difference, less one exactly when today's (month, day) is before the birthday's |
| AgeGroups.Categorize | app.py:96-104 | no age is Unknown; under 17 is Under 17; 18..60 is 18 to 60; 17 and over 60 are Above 60; each of these both ways |
| AgeGroups.CategorizeOnto | app.py:96-104 | every group is reached by some age |
| AgeGroups.SeventeenIsAboveSixty | app.py:99-104 | 17 lands in Above 60 while 16, 18, 60 and 61 land where expected |
| AgeGroups.CategorizeMonotoneAwayFromSeventeen | app.py:99-104 | for ages other than 17, an older person is never in a younger group |
| AgeGroups.LabelInjective | app.py:97-104 | different groups have different labels, so filtering on a label is filtering on a group |
| Normalize.NormalizeGender | app.py:109 | Male exactly for the cell "M", Female exactly for "F", Unknown for everything else including a missing cell |
| Normalize.GenderIsExact | app.py:109 | "m", " M", "Male" and a missing cell are all Unknown |
| Normalize.GenderLabelInjective | app.py:109 | different genders have different labels |
| Normalize.IsIslamabad | app.py:112-116 | a missing address is not in Islamabad; a present one is exactly when the city's name in any mix of case, or a sector letter of either case followed by `-`, occurs in it |
| Normalize.IsIslamabadIff | app.py:112-116 | the containment test on the lower-cased address holds exactly when the city's name in any mix of case, or a sector letter of either case followed by `-`, occurs in the address itself |
| Normalize.CityAtIff | app.py:115-116 | the lower-cased address shows "islamabad" at i exactly when the address has the name there in any mix of case |
| Normalize.SectorAtIff | app.py:115-116 | the lower-cased address shows a sector marker at i exactly when the address has a sector letter of either case and a `-` there |
| Normalize.SectorMarkerIsLoose | app.py:116 | "Lahore Road-5" counts as Islamabad, because "d-" occurs in it |
| Normalize.CityInCapitals | app.py:115-116 | "ISLAMABAD" is found |
| Normalize.OtherTownNotIslamabad | app.py:112-116 | "Lahore" and a missing address are not in Islamabad |
| Normalize.InIslamabad | app.py:118 | a row is flagged exactly when its present address or its permanent address is in Islamabad, and a flagged row has an address |
| Normalize.NormalizeReg | app.py:121 | the result has no lower-case letter and no whitespace at either end, and is the stripped text up to case |
| Normalize.MissingRegIsNan | app.py:121 | a missing registration type becomes "NAN" |
| Normalize.NormalizeRegIdempotent | app.py:121 | normalising a normalised value changes nothing |
| Normalize.RegMatchesTrimmed | app.py:139-140 | matching a normalised value is case-insensitive containment in the stripped text |
| Normalize.NcrpdMatchesCrpd | app.py:139-140 | every value the NCRPD choice keeps is kept by the CRPD choice |
| Normalize.NcrpdRowExample | app.py:139-140 | a padded, lower-case " ncrpd " normalises to "NCRPD" and is kept by the CRPD choice |
| Records.Derive | app.py:92-121 | a derived row keeps its raw cells, its group is Unknown exactly when the age is, its gender follows the code letter, it is in Islamabad only with an address, and its registration type has no lower case |
| Records.DeriveAll | app.py:92-121 | deriving a sheet gives one row per row, in order, each derived from its own cells alone |
| Records.DerivedFromDetermines | app.py:92-121 | two derived rows with the same cells on the same day are equal |
| Filter.ActiveCriteria | app.py:132-142 | at most five steps; none when every selector is on "All" and the box is clear |
| Filter.Keep | app.py:133-142 | one mask step keeps, in order, exactly the rows that meet its criterion, each as many times as the input holds it |
| Filter.Select | app.py:132-142 | the reference answer: exactly the rows meeting every criterion at once, in order, each as many times as the input holds it |
| Filter.ApplyIsSelect | app.py:132-142 | applying the steps one after another gives the reference answer |
| Filter.SelectOrderIndependent | app.py:132-142 | the selected rows depend only on which criteria are listed, not on their order or repetition |
| Filter.ApplyOrderIndependent | app.py:132-142 | running the filter steps in another order gives the same rows |
| Filter.ActiveCriteriaMeanMatches | app.py:132-142 | a row meets all the active steps exactly when it matches every widget's selection |
| Filter.FilterRows | app.py:131-142 | the chain of mask steps gives the same table as one pass keeping the rows that meet every active step |
| Filter.FilterRowsMeaning | app.py:132-142 | the filtered table is a subsequence of the sheet holding exactly the rows that match the selection, each as many times as the sheet holds it, so its length is the number of matching rows |
| Filter.NoSelectionKeepsAll | app.py:125-142 | with nothing selected every row is kept, in order |
| Filter.AgeGroupFilterByGroup | app.py:133-134 | choosing a group's label keeps exactly the rows in that group |
| Filter.CrpdKeepsNcrpd | app.py:139-140 | every row the NCRPD choice keeps is also kept by the CRPD choice |

## Left out

- The page set-up, the toolbar-hiding HTML and the login gate (app.py:1-35). These are framework plumbing with no logic to model; the hard-coded credentials are not part of this model.
- Loading the workbook with `pd.read_excel` and stripping the header names (app.py:38-48). This is file I/O. The model starts from a sequence of `RawRecord`s.
- Building the sidebar widgets (app.py:124-129). The widgets' values are the `Selection` parameter. The education choices are the qualifications seen in the sheet, and the model takes any string. The age-group selector never offers "Unknown"; the model allows it.
- The statistics, charts and raw-data display (app.py:144-187). This is rendering. Each per-group count is the length of a `FilterRows` result narrowed once more.
- Floating-point dates of birth. A numeric date of birth is modelled as the integer that `int()` at app.py:77 produces, so truncation of floats is not modelled.
- Numbers, dates and other non-text values in the text columns. Gender, addresses, registration type and qualification are text or missing (`TextCell`). `str(address)` of a number is not modelled.
- Unicode beyond ASCII. `isdigit`, `\d`, `lower` and `upper` are modelled on ASCII letters and digits. `strip` uses Python's full whitespace set.
- The regular-expression engine behind `str.contains`. The registration choices contain no metacharacters, so the model uses plain substring containment.
- `datetime.today()` is the `today` parameter. The clock is not modelled.
- The `Unknown` string that `fillna` writes into the age column (app.py:93) is the `None` of the age, not a string in an integer column.
- A qualification literally named "All" cannot be selected, as in the code: the model keeps that behaviour and states nothing further about it.
- Records.Derive: its contract states the derived fields' properties. Their exact values are given by `DerivedFrom`, which `DeriveAll` states.
