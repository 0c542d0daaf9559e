/** One row of the registration sheet, as read and as app.py derives it
    (app.py:92-121): the age, its group, the normalised gender, the
    Islamabad flag and the normalised registration type. */
module Records {
  import opened Wrappers
  import opened Cells
  import opened Text
  import opened Age
  import opened AgeGroups
  import opened Normalize

  /** The columns of the sheet the derivation and the filters read. */
  datatype RawRecord = RawRecord(
    dateOfBirth: DobCell,
    gender: TextCell,
    presentAddress: TextCell,
    permanentAddress: TextCell,
    reg: TextCell,
    qualification: TextCell,
    maritalStatus: TextCell,
    disability: TextCell)

  /** A row after the derived columns are filled in; `raw` keeps the sheet's
      own cells, which the education filter still reads. */
  datatype Record = Record(
    raw: RawRecord,
    age: Option<int>,
    ageGroup: AgeGroup,
    gender: Gender,
    inIslamabad: bool,
    reg: string)

  /** The derived columns of one row, computed as app.py computes them. */
  function Derive(raw: RawRecord, today: Date): (r: Record)
    ensures r.raw == raw
    ensures r.ageGroup == Unknown <==> r.age.None?
    ensures r.gender == Male <==> raw.gender == Present("M")
    ensures r.gender == Female <==> raw.gender == Present("F")
    ensures r.inIslamabad ==> raw.presentAddress.Present? || raw.permanentAddress.Present?
    ensures NoLowerCase(r.reg)
  {
    var age := CalculateAge(raw.dateOfBirth, today);
    Record(raw, age, Categorize(age), NormalizeGender(raw.gender),
           InIslamabad(raw.presentAddress, raw.permanentAddress), NormalizeReg(raw.reg))
  }

  /** Every derived field of a row depends on that row alone. */
  predicate DerivedFrom(r: Record, today: Date) {
    && r.age == CalculateAge(r.raw.dateOfBirth, today)
    && r.ageGroup == Categorize(r.age)
    && r.gender == NormalizeGender(r.raw.gender)
    && r.inIslamabad == InIslamabad(r.raw.presentAddress, r.raw.permanentAddress)
    && r.reg == NormalizeReg(r.raw.reg)
  }

  /** The column-wise `apply`s over the whole sheet: one derived row per row,
      in the sheet's order. */
  function DeriveAll(raws: seq<RawRecord>, today: Date): (rs: seq<Record>)
    ensures |rs| == |raws|
    ensures forall i :: 0 <= i < |rs| ==> rs[i].raw == raws[i] && DerivedFrom(rs[i], today)
  {
    seq(|raws|, i requires 0 <= i < |raws| => Derive(raws[i], today))
  }

  /** A derived row is determined by its raw cells: two rows with the same
      cells on the same day derive alike. */
  lemma DerivedFromDetermines(r1: Record, r2: Record, today: Date)
    requires DerivedFrom(r1, today) && DerivedFrom(r2, today)
    requires r1.raw == r2.raw
    ensures r1 == r2
  {
  }
}
