/** The handful of Python `str` operations the record derivation relies on:
    `replace`, `strip`, `lower`, `upper`, `isdigit`, `int` and `in`; and
    `Split`/`Join`, which describe how a `strptime` layout separates its
    fields. Case mapping and digits are ASCII only. */
module Text {

  /** Python's `str.isspace()`, the characters `str.strip()` removes. */
  predicate IsSpace(c: char) {
    || ('\t' <= c <= '\r')
    || ('\U{1C}' <= c <= '\U{1F}')
    || c == ' '
    || c == '\U{85}'
    || c == '\U{A0}'
    || c == '\U{1680}'
    || ('\U{2000}' <= c <= '\U{200A}')
    || c == '\U{2028}'
    || c == '\U{2029}'
    || c == '\U{202F}'
    || c == '\U{205F}'
    || c == '\U{3000}'
  }

  predicate AllSpace(s: string) {
    forall i :: 0 <= i < |s| ==> IsSpace(s[i])
  }

  predicate IsDigit(c: char) {
    '0' <= c <= '9'
  }

  predicate DigitsOnly(s: string) {
    forall i :: 0 <= i < |s| ==> IsDigit(s[i])
  }

  /** Python's `str.isdigit()`: non-empty and nothing but digits. */
  predicate IsDigitString(s: string) {
    |s| > 0 && DigitsOnly(s)
  }

  function DigitValue(c: char): (d: nat)
    requires IsDigit(c)
    ensures d < 10
  {
    c as int - '0' as int
  }

  function DigitChar(d: nat): (c: char)
    requires d < 10
    ensures IsDigit(c) && DigitValue(c) == d
  {
    ('0' as int + d) as char
  }

  function Pow10(n: nat): (p: nat)
    ensures p >= 1
  {
    if n == 0 then 1 else 10 * Pow10(n - 1)
  }

  /** Python's `int(s)` on a string of decimal digits (leading zeros allowed). */
  function DigitsValue(s: string): (v: nat)
    requires DigitsOnly(s)
    ensures v < Pow10(|s|)
  {
    if |s| == 0 then 0
    else
      var front := DigitsValue(s[..|s| - 1]);
      assert front <= Pow10(|s| - 1) - 1;
      10 * front + DigitValue(s[|s| - 1])
  }

  /** The value of a two-digit string, digit by digit. */
  lemma TwoDigitsValue(t: string)
    requires |t| == 2 && DigitsOnly(t)
    ensures DigitsValue(t) == 10 * DigitValue(t[0]) + DigitValue(t[1])
  {
    assert t[..1][..0] == "";
    assert t[..1] == [t[0]];
  }

  /** The value of a four-digit string, digit by digit. */
  lemma FourDigitsValue(t: string)
    requires |t| == 4 && DigitsOnly(t)
    ensures DigitsValue(t) == 1000 * DigitValue(t[0]) + 100 * DigitValue(t[1]) + 10 * DigitValue(t[2]) + DigitValue(t[3])
  {
    var t3 := t[..3];
    var t2 := t3[..2];
    assert t2 == t[..2];
    TwoDigitsValue(t2);
    assert DigitsValue(t3) == 10 * DigitsValue(t2) + DigitValue(t[2]);
  }

  /** `n` in decimal with exactly `width` digits, zero-padded on the left. */
  function ZeroPad(n: nat, width: nat): (s: string)
    requires n < Pow10(width)
    ensures |s| == width
    ensures DigitsOnly(s)
  {
    if width == 0 then ""
    else ZeroPad(n / 10, width - 1) + [DigitChar(n % 10)]
  }

  /** Reading back a zero-padded rendering gives the number. */
  lemma {:induction false} DigitsValueOfZeroPad(n: nat, width: nat)
    requires n < Pow10(width)
    ensures DigitsValue(ZeroPad(n, width)) == n
  {
    if width > 0 {
      var s := ZeroPad(n, width);
      assert s[..|s| - 1] == ZeroPad(n / 10, width - 1);
      DigitsValueOfZeroPad(n / 10, width - 1);
    }
  }

  /** Re-rendering a digit string at its own width gives it back. */
  lemma {:induction false} ZeroPadOfDigitsValue(s: string)
    requires DigitsOnly(s)
    ensures ZeroPad(DigitsValue(s), |s|) == s
  {
    if |s| > 0 {
      var front := s[..|s| - 1];
      ZeroPadOfDigitsValue(front);
      var q := DigitsValue(front);
      var d := DigitValue(s[|s| - 1]);
      assert DigitsValue(s) == 10 * q + d;
      LastDecimalDigit(q, d);
      assert s == front + [DigitChar(d)];
    }
  }

  /** Dividing by ten splits off the last decimal digit. */
  lemma LastDecimalDigit(q: nat, d: nat)
    requires d < 10
    ensures (10 * q + d) / 10 == q && (10 * q + d) % 10 == d
  {
  }

  /** Python's `s.replace(from, to)` for single characters. */
  function Replace(s: string, from: char, to: char): (r: string)
    ensures |r| == |s|
    ensures forall i :: 0 <= i < |s| ==> r[i] == (if s[i] == from then to else s[i])
  {
    if |s| == 0 then ""
    else [if s[0] == from then to else s[0]] + Replace(s[1..], from, to)
  }

  /** Replacing characters piece by piece is replacing them in the whole. */
  lemma ReplaceConcat(a: string, b: string, from: char, to: char)
    ensures Replace(a + b, from, to) == Replace(a, from, to) + Replace(b, from, to)
  {
    var l := Replace(a + b, from, to);
    var r := Replace(a, from, to) + Replace(b, from, to);
    forall i | 0 <= i < |a + b|
      ensures l[i] == r[i]
    {
      if i < |a| {
        assert (a + b)[i] == a[i];
      } else {
        assert (a + b)[i] == b[i - |a|];
      }
    }
  }

  /** How many whitespace characters `s.lstrip()` removes. */
  function LeadingSpaces(s: string): (k: nat)
    ensures k <= |s| && AllSpace(s[..k])
    ensures k < |s| ==> !IsSpace(s[k])
  {
    if |s| > 0 && IsSpace(s[0]) then
      var k := 1 + LeadingSpaces(s[1..]);
      assert s[..k] == [s[0]] + s[1..][..k - 1];
      k
    else 0
  }

  /** How many whitespace characters `s.rstrip()` removes. */
  function TrailingSpaces(s: string): (k: nat)
    ensures k <= |s| && AllSpace(s[|s| - k..])
    ensures k < |s| ==> !IsSpace(s[|s| - 1 - k])
  {
    if |s| > 0 && IsSpace(s[|s| - 1]) then
      var front := s[..|s| - 1];
      var k' := TrailingSpaces(front);
      var k := 1 + k';
      assert forall i :: |s| - k <= i < |s| - 1 ==> s[i] == front[i];
      k
    else 0
  }

  /** `s[i..j]` is `s` with only whitespace cut off at either end. */
  predicate CutsOnlySpace(s: string, i: int, j: int) {
    0 <= i <= j <= |s| && AllSpace(s[..i]) && AllSpace(s[j..])
  }

  /** Python's `s.strip()`: the input with its leading and trailing
      whitespace removed, and nothing else changed. */
  function Strip(s: string): (r: string)
    ensures |r| == 0 || (!IsSpace(r[0]) && !IsSpace(r[|r| - 1]))
    ensures exists i, j :: CutsOnlySpace(s, i, j) && r == s[i..j]
  {
    var i := LeadingSpaces(s);
    var left := s[i..];
    var k := TrailingSpaces(left);
    assert left[|left| - k..] == s[|s| - k..];
    assert CutsOnlySpace(s, i, |s| - k);
    left[..|left| - k]
  }

  /** Whitespace in front of a string that starts with a non-space is exactly what lstrip counts. */
  lemma {:induction false} LeadingSpacesOfPadded(pre: string, rest: string)
    requires AllSpace(pre)
    requires |rest| > 0 && !IsSpace(rest[0])
    ensures LeadingSpaces(pre + rest) == |pre|
  {
    if |pre| > 0 {
      assert (pre + rest)[1..] == pre[1..] + rest;
      LeadingSpacesOfPadded(pre[1..], rest);
    } else {
      assert pre + rest == rest;
    }
  }

  /** Whitespace after a string that ends with a non-space is exactly what rstrip counts. */
  lemma {:induction false} TrailingSpacesOfPadded(front: string, post: string)
    requires AllSpace(post)
    requires |front| > 0 && !IsSpace(front[|front| - 1])
    ensures TrailingSpaces(front + post) == |post|
  {
    if |post| > 0 {
      var t := front + post;
      assert t[..|t| - 1] == front + post[..|post| - 1];
      TrailingSpacesOfPadded(front, post[..|post| - 1]);
    } else {
      assert front + post == front;
    }
  }

  /** Stripping a string padded only by whitespace recovers it when it has
      no whitespace at either end. */
  lemma StripPadded(pre: string, s: string, post: string)
    requires AllSpace(pre) && AllSpace(post)
    requires |s| > 0 && !IsSpace(s[0]) && !IsSpace(s[|s| - 1])
    ensures Strip(pre + s + post) == s
  {
    var t := pre + s + post;
    assert t == pre + (s + post);
    LeadingSpacesOfPadded(pre, s + post);
    assert t[|pre|..] == s + post;
    TrailingSpacesOfPadded(s, post);
    assert (s + post)[..|s|] == s;
  }

  /** Stripping twice is the same as stripping once. */
  lemma StripIdempotent(s: string)
    ensures Strip(Strip(s)) == Strip(s)
  {
    var r := Strip(s);
    if |r| > 0 {
      StripPadded("", r, "");
      assert "" + r + "" == r;
    }
  }

  function LowerChar(c: char): char {
    if 'A' <= c <= 'Z' then (c as int + 32) as char else c
  }

  function UpperChar(c: char): char {
    if 'a' <= c <= 'z' then (c as int - 32) as char else c
  }

  /** Python's `s.lower()` on ASCII letters. */
  function Lower(s: string): (r: string)
    ensures |r| == |s|
    ensures forall i :: 0 <= i < |s| ==> r[i] == LowerChar(s[i])
  {
    if |s| == 0 then "" else [LowerChar(s[0])] + Lower(s[1..])
  }

  /** Python's `s.upper()` on ASCII letters. */
  function Upper(s: string): (r: string)
    ensures |r| == |s|
    ensures forall i :: 0 <= i < |s| ==> r[i] == UpperChar(s[i])
  {
    if |s| == 0 then "" else [UpperChar(s[0])] + Upper(s[1..])
  }

  /** Upper-casing neither makes nor removes whitespace. */
  lemma UpperKeepsSpace(s: string)
    ensures |s| == 0 || (IsSpace(Upper(s)[0]) <==> IsSpace(s[0]))
    ensures |s| == 0 || (IsSpace(Upper(s)[|s| - 1]) <==> IsSpace(s[|s| - 1]))
  {
    if |s| > 0 {
      UpperCharKeepsSpace(s[0]);
      UpperCharKeepsSpace(s[|s| - 1]);
    }
  }

  lemma UpperCharKeepsSpace(c: char)
    ensures IsSpace(UpperChar(c)) <==> IsSpace(c)
  {
    if 'a' <= c <= 'z' {
      assert 'A' <= UpperChar(c) <= 'Z';
      assert !IsSpace(c);
    }
  }

  /** The characters that lower-case to a given lower-case letter are the
      letter itself and its capital. */
  lemma LowerCharOfLetter(c: char, x: char)
    requires 'a' <= x <= 'z'
    ensures LowerChar(c) == x <==> c == x || c == UpperChar(x)
  {
  }

  predicate NoLowerCase(s: string) {
    forall i :: 0 <= i < |s| ==> !('a' <= s[i] <= 'z')
  }

  /** Upper-casing leaves no lower-case letter and so is idempotent;
      upper-casing does not change what a case-insensitive comparison sees. */
  lemma UpperProperties(s: string)
    ensures NoLowerCase(Upper(s))
    ensures Upper(Upper(s)) == Upper(s)
    ensures Lower(Upper(s)) == Lower(s)
  {
  }

  /** Python's `t in s`: `t` occurs in `s` as a contiguous block. */
  predicate Contains(s: string, t: string) {
    t <= s || (|s| > 0 && Contains(s[1..], t))
  }

  /** `t` occurs in `s` starting at index `i`. */
  predicate OccursAt(s: string, t: string, i: int) {
    0 <= i && i + |t| <= |s| && s[i..i + |t|] == t
  }

  /** The scan in `Contains` finds exactly the positions at which `t` occurs. */
  lemma {:induction false} ContainsIff(s: string, t: string)
    ensures Contains(s, t) <==> exists i :: OccursAt(s, t, i)
  {
    if t <= s {
      assert OccursAt(s, t, 0);
    } else if |s| == 0 {
    } else {
      ContainsIff(s[1..], t);
      if exists i :: OccursAt(s, t, i) {
        var i :| OccursAt(s, t, i);
        assert i != 0;
        OccursAtShift(s, t, i - 1);
      }
      if Contains(s[1..], t) {
        var i :| OccursAt(s[1..], t, i);
        OccursAtShift(s, t, i);
      }
    }
  }

  /** An occurrence in the tail is an occurrence one further on in the whole. */
  lemma OccursAtShift(s: string, t: string, i: int)
    requires |s| > 0 && 0 <= i
    ensures OccursAt(s[1..], t, i) <==> OccursAt(s, t, i + 1)
  {
    if i + |t| <= |s| - 1 {
      assert s[1..][i..i + |t|] == s[i + 1..i + 1 + |t|];
    }
  }

  /** An occurrence of an occurrence is an occurrence. */
  lemma ContainsTransitive(s: string, t: string, u: string)
    requires Contains(s, t) && Contains(t, u)
    ensures Contains(s, u)
  {
    ContainsIff(s, t);
    ContainsIff(t, u);
    var i :| OccursAt(s, t, i);
    var j :| OccursAt(t, u, j);
    OccursAtCompose(s, t, u, i, j);
    ContainsIff(s, u);
  }

  /** `u` at `j` in `t`, and `t` at `i` in `s`, puts `u` at `i + j` in `s`. */
  lemma OccursAtCompose(s: string, t: string, u: string, i: int, j: int)
    requires OccursAt(s, t, i) && OccursAt(t, u, j)
    ensures OccursAt(s, u, i + j)
  {
    forall k | 0 <= k < |u|
      ensures s[i + j + k] == u[k]
    {
      assert u[k] == t[j..j + |u|][k] == t[j + k];
      assert t[j + k] == s[i..i + |t|][j + k] == s[i + j + k];
    }
    assert s[i + j..i + j + |u|] == u;
  }

  /** Python's `s.split(sep)`: the maximal runs between separators. */
  function Split(s: string, sep: char): (parts: seq<string>)
    ensures |parts| >= 1
    ensures forall k :: 0 <= k < |parts| ==> sep !in parts[k]
  {
    if |s| == 0 then [""]
    else
      var rest := Split(s[1..], sep);
      if s[0] == sep then [""] + rest
      else [[s[0]] + rest[0]] + rest[1..]
  }

  /** `sep.join(parts)`. */
  function Join(parts: seq<string>, sep: char): string
    requires |parts| >= 1
  {
    if |parts| == 1 then parts[0]
    else parts[0] + [sep] + Join(parts[1..], sep)
  }

  /** Joining the pieces of a split gives the string back. */
  lemma {:induction false} JoinSplit(s: string, sep: char)
    ensures Join(Split(s, sep), sep) == s
  {
    if |s| > 0 {
      var rest := Split(s[1..], sep);
      JoinSplit(s[1..], sep);
      if s[0] == sep {
        var parts := [""] + rest;
        assert Split(s, sep) == parts;
        assert parts[1..] == rest;
        assert Join(parts, sep) == "" + [sep] + Join(rest, sep);
        assert s == [sep] + s[1..];
      } else {
        var parts := [[s[0]] + rest[0]] + rest[1..];
        assert Split(s, sep) == parts;
        if |rest| == 1 {
          assert Join(parts, sep) == [s[0]] + rest[0];
          assert s == [s[0]] + rest[0];
        } else {
          var tail := Join(rest[1..], sep);
          assert parts[1..] == rest[1..];
          assert Join(parts, sep) == [s[0]] + rest[0] + [sep] + tail;
          assert Join(rest, sep) == rest[0] + [sep] + tail;
          assert s == [s[0]] + (rest[0] + [sep] + tail);
        }
      }
    }
  }

  /** Splitting a separator-free prefix glued to the rest extends the first piece. */
  lemma {:induction false} SplitFreePrefix(p: string, rest: string, sep: char)
    requires sep !in p
    ensures Split(p + rest, sep) == [p + Split(rest, sep)[0]] + Split(rest, sep)[1..]
  {
    if |p| > 0 {
      SplitFreePrefix(p[1..], rest, sep);
      assert (p + rest)[1..] == p[1..] + rest;
      assert p[0] != sep by { assert p[0] in p; }
      assert [p[0]] + (p[1..] + Split(rest, sep)[0]) == p + Split(rest, sep)[0];
    } else {
      assert p + rest == rest;
      assert p + Split(rest, sep)[0] == Split(rest, sep)[0];
      assert Split(rest, sep) == [Split(rest, sep)[0]] + Split(rest, sep)[1..];
    }
  }

  /** Splitting a join of separator-free pieces gives the pieces back. */
  lemma {:induction false} SplitJoin(parts: seq<string>, sep: char)
    requires |parts| >= 1
    requires forall k :: 0 <= k < |parts| ==> sep !in parts[k]
    ensures Split(Join(parts, sep), sep) == parts
  {
    if |parts| == 1 {
      SplitFreePrefix(parts[0], "", sep);
      assert parts[0] + "" == parts[0];
      assert Split("", sep) == [""];
    } else {
      var tail := Join(parts[1..], sep);
      SplitJoin(parts[1..], sep);
      SplitFreePrefix(parts[0], [sep] + tail, sep);
      assert parts[0] + [sep] + tail == parts[0] + ([sep] + tail);
      assert ([sep] + tail)[1..] == tail;
      assert Split([sep] + tail, sep) == [""] + parts[1..];
      assert parts[0] + "" == parts[0];
      assert parts == [parts[0]] + parts[1..];
    }
  }

  /** A string without the separator splits into itself alone. */
  lemma SplitWithoutSeparator(s: string, sep: char)
    requires sep !in s
    ensures Split(s, sep) == [s]
  {
    SplitJoin([s], sep);
  }
}
