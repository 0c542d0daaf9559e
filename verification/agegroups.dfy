/** `categorize_age` (app.py:96-104): the bucket an age falls in. The
    `fillna('Unknown')` at app.py:93 turns a missing age into the `Unknown`
    marker, which here is the `None` of the age. */
module AgeGroups {
  import opened Wrappers

  datatype AgeGroup = Unknown | Under17 | From18To60 | Above60

  /** The label the dashboard shows and the age-group selector offers. */
  function Label(g: AgeGroup): string {
    match g
    case Unknown => "Unknown"
    case Under17 => "Under 17"
    case From18To60 => "18 to 60"
    case Above60 => "Above 60"
  }

  /** The branches of `categorize_age`, taken in order: exactly 17 passes
      neither numeric test and lands in the `else`, with the over-sixties. */
  function Categorize(age: Option<int>): (g: AgeGroup)
    ensures g == Unknown <==> age.None?
    ensures g == Under17 <==> age.Some? && age.value < 17
    ensures g == From18To60 <==> age.Some? && 18 <= age.value <= 60
    ensures g == Above60 <==> age.Some? && (age.value == 17 || 60 < age.value)
  {
    match age
    case None => Unknown
    case Some(a) =>
      if a < 17 then Under17
      else if 18 <= a <= 60 then From18To60
      else Above60
  }

  /** Different groups have different labels, so filtering on a label is
      filtering on a group. */
  lemma LabelInjective(g1: AgeGroup, g2: AgeGroup)
    ensures Label(g1) == Label(g2) <==> g1 == g2
  {
    if g1 != g2 {
      assert Label(g1)[2] != Label(g2)[2];
    }
  }

  /** Every group is reached, each by some age. */
  lemma CategorizeOnto(g: AgeGroup)
    ensures exists age :: Categorize(age) == g
  {
    match g
    case Unknown => assert Categorize(None) == g;
    case Under17 => assert Categorize(Some(0)) == g;
    case From18To60 => assert Categorize(Some(18)) == g;
    case Above60 => assert Categorize(Some(61)) == g;
  }

  /** The gap in the thresholds: a seventeen-year-old is counted with the
      over-sixties, while sixteen and eighteen go where one would expect. */
  lemma SeventeenIsAboveSixty()
    ensures Categorize(Some(17)) == Above60
    ensures Categorize(Some(16)) == Under17
    ensures Categorize(Some(18)) == From18To60
    ensures Categorize(Some(60)) == From18To60
    ensures Categorize(Some(61)) == Above60
  {
  }

  /** Among known ages, the groups are ordered except for the one at 17:
      an older person is never in a younger group unless one of the two is
      seventeen. */
  lemma CategorizeMonotoneAwayFromSeventeen(a: int, b: int)
    requires a <= b && a != 17 && b != 17
    ensures Rank(Categorize(Some(a))) <= Rank(Categorize(Some(b)))
  {
  }

  /** The position of a known-age group from young to old. */
  function Rank(g: AgeGroup): int {
    match g
    case Unknown => 0
    case Under17 => 1
    case From18To60 => 2
    case Above60 => 3
  }
}
