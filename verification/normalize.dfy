/** The per-column clean-ups app.py applies before filtering: the gender
    code (app.py:109), the Islamabad address test (app.py:112-118) and the
    registration type (app.py:121). */
module Normalize {
  import opened Cells
  import opened Text

  // ---------------------------------------------------------------- gender

  datatype Gender = Male | Female | UnknownGender

  /** The label the dashboard shows and the gender selector offers. */
  function GenderLabel(g: Gender): string {
    match g
    case Male => "Male"
    case Female => "Female"
    case UnknownGender => "Unknown"
  }

  /** The gender lambda (app.py:109): an exact, case-sensitive comparison
      with the one-letter codes; everything else, a missing cell included,
      is unknown. */
  function NormalizeGender(c: TextCell): (g: Gender)
    ensures g == Male <==> c == Present("M")
    ensures g == Female <==> c == Present("F")
    ensures g == UnknownGender <==> c != Present("M") && c != Present("F")
  {
    match c
    case Absent => UnknownGender
    case Present(t) => if t == "M" then Male else if t == "F" then Female else UnknownGender
  }

  /** Different genders have different labels. */
  lemma GenderLabelInjective(g1: Gender, g2: Gender)
    ensures GenderLabel(g1) == GenderLabel(g2) <==> g1 == g2
  {
    if g1 != g2 {
      assert GenderLabel(g1)[0] != GenderLabel(g2)[0] || |GenderLabel(g1)| != |GenderLabel(g2)|;
    }
  }

  /** Lower case, padding and longer spellings are not recognised. */
  lemma GenderIsExact()
    ensures NormalizeGender(Present("m")) == UnknownGender
    ensures NormalizeGender(Present(" M")) == UnknownGender
    ensures NormalizeGender(Present("Male")) == UnknownGender
    ensures NormalizeGender(Absent) == UnknownGender
  {
  }

  // ---------------------------------------------------------------- region

  /** The sector markers app.py looks for (app.py:116). */
  const SectorMarkers: seq<string> := ["g-", "f-", "i-", "h-", "e-", "d-", "b-", "c-"]

  /** `is_islamabad` (app.py:112-116): a missing address is not in
      Islamabad; otherwise the lower-cased address must contain the city's
      name or one of the sector markers. */
  function IsIslamabad(address: TextCell): (b: bool)
    ensures address.Absent? ==> !b
    ensures address.Present? ==>
      (b <==> (exists i :: CityAt(address.text, i)) || (exists i :: SectorAt(address.text, i)))
  {
    match address
    case Absent => false
    case Present(t) =>
      IsIslamabadIff(t);
      NamesIslamabad(Lower(t))
  }

  /** The test `is_islamabad` runs on the lower-cased address. */
  predicate NamesIslamabad(a: string) {
    Contains(a, "islamabad") || exists k :: 0 <= k < |SectorMarkers| && Contains(a, SectorMarkers[k])
  }

  /** The row flag (app.py:118): either address will do. */
  function InIslamabad(present: TextCell, permanent: TextCell): (b: bool)
    ensures b ==> present.Present? || permanent.Present?
    ensures IsIslamabad(present) ==> b
    ensures !IsIslamabad(present) ==> (b <==> IsIslamabad(permanent))
  {
    IsIslamabad(present) || IsIslamabad(permanent)
  }

  /** The letters of the sectors app.py knows, in either case. */
  predicate SectorLetter(c: char) {
    c in "gfihedbcGFIHEDBC"
  }

  /** The city's name, in any mixture of upper and lower case, starts at `i`. */
  predicate CityAt(t: string, i: int) {
    0 <= i && i + 9 <= |t| &&
    forall j :: 0 <= j < 9 ==> t[i + j] == "islamabad"[j] || t[i + j] == "ISLAMABAD"[j]
  }

  /** A sector letter followed by a dash starts at `i`. */
  predicate SectorAt(t: string, i: int) {
    0 <= i && i + 2 <= |t| && SectorLetter(t[i]) && t[i + 1] == '-'
  }

  /** The city's name in capitals is the upper-casing of its name. */
  lemma CityInUpperCase()
    ensures forall j :: 0 <= j < 9 ==> "ISLAMABAD"[j] == UpperChar("islamabad"[j])
  {
  }

  /** The lower-cased text shows the city's name at `i` exactly when the
      text has it there in any mixture of cases. */
  lemma CityAtIff(t: string, i: int)
    ensures OccursAt(Lower(t), "islamabad", i) <==> CityAt(t, i)
  {
    if 0 <= i && i + 9 <= |t| {
      var city := "islamabad";
      var w := Lower(t)[i..i + 9];
      CityInUpperCase();
      forall j | 0 <= j < 9
        ensures w[j] == city[j] <==> t[i + j] == city[j] || t[i + j] == "ISLAMABAD"[j]
      {
        LowerCharOfLetter(t[i + j], city[j]);
      }
      assert w == city <==> forall j :: 0 <= j < 9 ==> w[j] == city[j];
    }
  }

  /** Lower-casing maps exactly the sector letters of either case onto the
      lower-case ones, and nothing but the dash onto the dash. */
  lemma LowerCharOfSector(c: char)
    ensures SectorLetter(c) <==> LowerChar(c) in "gfihedbc"
    ensures LowerChar(c) == '-' <==> c == '-'
  {
  }

  /** The two-character words `SectorMarkers` lists. */
  lemma MarkerIff(w: string)
    requires |w| == 2
    ensures (exists k :: 0 <= k < |SectorMarkers| && w == SectorMarkers[k]) <==> w[0] in "gfihedbc" && w[1] == '-'
  {
    if w[0] in "gfihedbc" && w[1] == '-' {
      var k :| 0 <= k < 8 && w[0] == "gfihedbc"[k];
      assert w == SectorMarkers[k];
    }
  }

  lemma SectorAtIff(t: string, i: int)
    ensures (exists k :: 0 <= k < |SectorMarkers| && OccursAt(Lower(t), SectorMarkers[k], i)) <==> SectorAt(t, i)
  {
    if 0 <= i && i + 2 <= |t| {
      var w := Lower(t)[i..i + 2];
      assert w == [LowerChar(t[i]), LowerChar(t[i + 1])];
      assert forall k :: 0 <= k < |SectorMarkers| ==> (OccursAt(Lower(t), SectorMarkers[k], i) <==> w == SectorMarkers[k]);
      MarkerIff(w);
      LowerCharOfSector(t[i]);
      LowerCharOfSector(t[i + 1]);
    } else {
      assert forall k :: 0 <= k < |SectorMarkers| ==> |SectorMarkers[k]| == 2;
    }
  }

  /** `is_islamabad` on a present address, stated without lower-casing:
      the name of the city in any case, or a sector letter in either case
      directly followed by a dash, occurs somewhere in it. */
  lemma IsIslamabadIff(t: string)
    ensures NamesIslamabad(Lower(t)) <==> (exists i :: CityAt(t, i)) || (exists i :: SectorAt(t, i))
  {
    var a := Lower(t);
    ContainsIff(a, "islamabad");
    forall k | 0 <= k < |SectorMarkers|
      ensures Contains(a, SectorMarkers[k]) <==> exists i :: OccursAt(a, SectorMarkers[k], i)
    {
      ContainsIff(a, SectorMarkers[k]);
    }
    if exists i :: CityAt(t, i) {
      var i :| CityAt(t, i);
      CityAtIff(t, i);
    }
    if Contains(a, "islamabad") {
      var i :| OccursAt(a, "islamabad", i);
      CityAtIff(t, i);
    }
    if exists i :: SectorAt(t, i) {
      var i :| SectorAt(t, i);
      SectorAtIff(t, i);
    }
    if exists k :: 0 <= k < |SectorMarkers| && Contains(a, SectorMarkers[k]) {
      var k :| 0 <= k < |SectorMarkers| && Contains(a, SectorMarkers[k]);
      var i :| OccursAt(a, SectorMarkers[k], i);
      SectorAtIff(t, i);
    }
  }

  /** The markers are loose: any word ending in one of the sector letters
      and followed by a dash counts, so a Lahore road address is taken for
      an Islamabad one. */
  lemma SectorMarkerIsLoose()
    ensures IsIslamabad(Present("Lahore Road-5"))
  {
    var t := "Lahore Road-5";
    assert t[10] == 'd' && t[11] == '-';
    SectorFlags(t, 10);
  }

  /** A sector marker anywhere is enough to flag an address. */
  lemma SectorFlags(t: string, i: int)
    requires SectorAt(t, i)
    ensures IsIslamabad(Present(t))
  {
  }

  /** The city's name in capitals is found. */
  lemma CityInCapitals()
    ensures IsIslamabad(Present("ISLAMABAD"))
  {
    assert CityAt("ISLAMABAD", 0);
  }

  /** A town without the name or a marker is not in Islamabad, and neither
      is a missing address. */
  lemma OtherTownNotIslamabad()
    ensures !IsIslamabad(Present("Lahore"))
    ensures !IsIslamabad(Absent)
  {
  }

  // ---------------------------------------------------------- registration

  /** `astype(str)` on a text cell: a missing value prints as "nan". */
  function AsText(c: TextCell): string {
    match c
    case Absent => "nan"
    case Present(t) => t
  }

  /** The `Reg` clean-up (app.py:121): as text, trimmed, upper-cased. */
  function NormalizeReg(c: TextCell): (r: string)
    ensures NoLowerCase(r)
    ensures |r| == 0 || (!IsSpace(r[0]) && !IsSpace(r[|r| - 1]))
    ensures Lower(r) == Lower(Strip(AsText(c)))
  {
    var s := Strip(AsText(c));
    UpperProperties(s);
    UpperKeepsSpace(s);
    Upper(s)
  }

  /** A missing registration type becomes the text "NAN". */
  lemma MissingRegIsNan()
    ensures NormalizeReg(Absent) == "NAN"
  {
    StripPadded("", "nan", "");
    assert "" + "nan" + "" == "nan";
    assert Upper("nan") == "NAN";
  }

  /** A string with no whitespace at either end is its own strip. */
  lemma StripUnpadded(s: string)
    requires |s| == 0 || (!IsSpace(s[0]) && !IsSpace(s[|s| - 1]))
    ensures Strip(s) == s
  {
    if |s| > 0 {
      StripPadded("", s, "");
      assert "" + s + "" == s;
    }
  }

  /** Normalising a normalised value changes nothing. */
  lemma NormalizeRegIdempotent(c: TextCell)
    ensures NormalizeReg(Present(NormalizeReg(c))) == NormalizeReg(c)
  {
    var r := NormalizeReg(c);
    StripUnpadded(r);
    UpperProperties(Strip(AsText(c)));
  }

  /** `str.contains(choice, case=False)`: the choice occurs in the value
      when both are read case-insensitively. */
  predicate RegMatches(reg: string, choice: string) {
    Contains(Lower(reg), Lower(choice))
  }

  /** Matching a normalised value is case-insensitive containment in the
      trimmed text: the upper-casing makes no difference. */
  lemma RegMatchesTrimmed(c: TextCell, choice: string)
    ensures RegMatches(NormalizeReg(c), choice) <==> Contains(Lower(Strip(AsText(c))), Lower(choice))
  {
  }

  /** The case forms of the two registration choices. */
  lemma LowerNcrpd()
    ensures Lower("NCRPD") == "ncrpd"
  {
    var n := Lower("NCRPD");
    assert |n| == 5 && n[0] == 'n' && n[1] == 'c' && n[2] == 'r' && n[3] == 'p' && n[4] == 'd';
  }

  lemma LowerCrpd()
    ensures Lower("CRPD") == "crpd"
  {
    var c := Lower("CRPD");
    assert |c| == 4 && c[0] == 'c' && c[1] == 'r' && c[2] == 'p' && c[3] == 'd';
  }

  lemma UpperNcrpd()
    ensures Upper("ncrpd") == "NCRPD"
  {
    var u := Upper("ncrpd");
    assert |u| == 5 && u[0] == 'N' && u[1] == 'C' && u[2] == 'R' && u[3] == 'P' && u[4] == 'D';
  }

  /** "crpd" sits inside "ncrpd". */
  lemma CrpdInsideNcrpd()
    ensures Contains("ncrpd", "crpd")
  {
    assert "crpd" <= "ncrpd"[1..];
  }

  /** The case forms of the two choices, and the one inside the other. */
  lemma ChoiceCases()
    ensures Lower("NCRPD") == "ncrpd" && Lower("CRPD") == "crpd"
    ensures Upper("ncrpd") == "NCRPD"
    ensures Contains("ncrpd", "crpd")
  {
    LowerNcrpd();
    LowerCrpd();
    UpperNcrpd();
    CrpdInsideNcrpd();
  }

  /** Every value that matches "NCRPD" also matches "CRPD", so the CRPD
      selection keeps the NCRPD rows as well. */
  lemma NcrpdMatchesCrpd(reg: string)
    requires RegMatches(reg, "NCRPD")
    ensures RegMatches(reg, "CRPD")
  {
    ChoiceCases();
    ContainsTransitive(Lower(reg), "ncrpd", "crpd");
  }

  /** A lower-case, padded "ncrpd" normalises to the choice's own spelling. */
  lemma NormalizePaddedNcrpd()
    ensures NormalizeReg(Present(" ncrpd ")) == "NCRPD"
  {
    StripPadded(" ", "ncrpd", " ");
    assert " " + "ncrpd" + " " == " ncrpd ";
    ChoiceCases();
  }

  /** A lower-case, padded "ncrpd" in the sheet is kept by the CRPD choice too. */
  lemma NcrpdRowExample()
    ensures NormalizeReg(Present(" ncrpd ")) == "NCRPD"
    ensures RegMatches(NormalizeReg(Present(" ncrpd ")), "CRPD")
  {
    NormalizePaddedNcrpd();
    ChoiceCases();
    assert RegMatches("NCRPD", "NCRPD");
    NcrpdMatchesCrpd("NCRPD");
  }
}
