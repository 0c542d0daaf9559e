/** The sidebar filters (app.py:124-142): each selector that is not on
    "All" (and the Islamabad checkbox when ticked) narrows the rows in turn. */
module Filter {
  import opened Cells
  import opened AgeGroups
  import opened Normalize
  import opened Records

  /** The values the five sidebar widgets hold (app.py:124-128). The
      selectors hold the label shown, "All" meaning no constraint. */
  datatype Selection = Selection(
    ageGroup: string,
    gender: string,
    islamabadOnly: bool,
    reg: string,
    education: string)

  /** The value the selectors start on: nothing selected. */
  const NoSelection := Selection("All", "All", false, "All", "All")

  /** One of the five narrowing steps at app.py:132-142. */
  datatype Criterion =
    | AgeGroupIs(name: string)
    | GenderIs(name: string)
    | InIslamabadOnly
    | RegContains(choice: string)
    | QualificationIs(level: string)

  /** Whether a row survives one step. A missing qualification equals no
      level; `na=False` never applies to `Reg`, which is text by then. */
  predicate Holds(c: Criterion, r: Record) {
    match c
    case AgeGroupIs(name) => Label(r.ageGroup) == name
    case GenderIs(name) => GenderLabel(r.gender) == name
    case InIslamabadOnly => r.inIslamabad
    case RegContains(choice) => RegMatches(r.reg, choice)
    case QualificationIs(level) => r.raw.qualification == Present(level)
  }

  /** The steps a selection switches on, in the order app.py applies them. */
  function ActiveCriteria(sel: Selection): (cs: seq<Criterion>)
    ensures |cs| <= 5
    ensures sel == NoSelection ==> cs == []
  {
    (if sel.ageGroup != "All" then [AgeGroupIs(sel.ageGroup)] else [])
    + (if sel.gender != "All" then [GenderIs(sel.gender)] else [])
    + (if sel.islamabadOnly then [InIslamabadOnly] else [])
    + (if sel.reg != "All" then [RegContains(sel.reg)] else [])
    + (if sel.education != "All" then [QualificationIs(sel.education)] else [])
  }

  /** `xs` is `ys` with some elements dropped and the rest in order. */
  predicate IsSubsequence(xs: seq<Record>, ys: seq<Record>)
    decreases |ys|
  {
    if |xs| == 0 then true
    else if |ys| == 0 then false
    else if xs[0] == ys[0] then IsSubsequence(xs[1..], ys[1..])
    else IsSubsequence(xs, ys[1..])
  }

  /** One boolean-mask step `df[mask]`: the rows for which `c` holds, in order. */
  function Keep(rows: seq<Record>, c: Criterion): (kept: seq<Record>)
    ensures |kept| <= |rows|
    ensures forall r :: r in kept <==> r in rows && Holds(c, r)
    ensures IsSubsequence(kept, rows)
    ensures forall r :: multiset(kept)[r] == if Holds(c, r) then multiset(rows)[r] else 0
  {
    if |rows| == 0 then []
    else
      var rest := Keep(rows[1..], c);
      NarrowStep(rows, rest, r => Holds(c, r));
      if Holds(c, rows[0]) then [rows[0]] + rest else rest
  }

  /** One step of the row-by-row scan: if `rest` is what the scan keeps of
      `rows[1..]`, then putting `rows[0]` in front exactly when it passes is
      what it keeps of `rows`. */
  lemma NarrowStep(rows: seq<Record>, rest: seq<Record>, p: Record -> bool)
    requires |rows| > 0
    requires |rest| <= |rows| - 1
    requires forall r :: r in rest <==> r in rows[1..] && p(r)
    requires IsSubsequence(rest, rows[1..])
    requires forall r :: multiset(rest)[r] == if p(r) then multiset(rows[1..])[r] else 0
    ensures var kept := if p(rows[0]) then [rows[0]] + rest else rest;
      && |kept| <= |rows|
      && (forall r :: r in kept <==> r in rows && p(r))
      && IsSubsequence(kept, rows)
      && (forall r :: multiset(kept)[r] == if p(r) then multiset(rows)[r] else 0)
  {
    assert rows == [rows[0]] + rows[1..];
    assert forall r :: r in rows <==> r == rows[0] || r in rows[1..];
    if p(rows[0]) {
      assert ([rows[0]] + rest)[1..] == rest;
    }
  }

  /** The chain of steps, each applied to what the previous one left. */
  function Apply(rows: seq<Record>, cs: seq<Criterion>): seq<Record>
    decreases |cs|
  {
    if |cs| == 0 then rows else Apply(Keep(rows, cs[0]), cs[1..])
  }

  /** Every criterion in `cs` holds of `r`. */
  predicate AllHold(cs: seq<Criterion>, r: Record) {
    forall k :: 0 <= k < |cs| ==> Holds(cs[k], r)
  }

  /** The reference answer: the rows meeting every criterion at once, in order. */
  function Select(rows: seq<Record>, cs: seq<Criterion>): (sel: seq<Record>)
    ensures |sel| <= |rows|
    ensures forall r :: r in sel <==> r in rows && AllHold(cs, r)
    ensures IsSubsequence(sel, rows)
    ensures forall r :: multiset(sel)[r] == if AllHold(cs, r) then multiset(rows)[r] else 0
  {
    if |rows| == 0 then []
    else
      var rest := Select(rows[1..], cs);
      NarrowStep(rows, rest, r => AllHold(cs, r));
      if AllHold(cs, rows[0]) then [rows[0]] + rest else rest
  }

  /** A criterion in front of a list holds together with the list. */
  lemma AllHoldCons(c: Criterion, cs: seq<Criterion>, r: Record)
    ensures AllHold([c] + cs, r) <==> Holds(c, r) && AllHold(cs, r)
  {
    var all := [c] + cs;
    if Holds(c, r) && AllHold(cs, r) {
      forall k | 0 <= k < |all|
        ensures Holds(all[k], r)
      {
        if k > 0 {
          assert all[k] == cs[k - 1];
        }
      }
    }
    if AllHold(all, r) {
      assert all[0] == c;
      forall k | 0 <= k < |cs|
        ensures Holds(cs[k], r)
      {
        assert all[k + 1] == cs[k];
      }
    }
  }

  /** Narrowing by one criterion and then selecting by the rest selects by all. */
  lemma {:induction false} SelectAfterKeep(rows: seq<Record>, c: Criterion, cs: seq<Criterion>)
    ensures Select(Keep(rows, c), cs) == Select(rows, [c] + cs)
  {
    if |rows| > 0 {
      var r := rows[0];
      var kept := Keep(rows[1..], c);
      SelectAfterKeep(rows[1..], c, cs);
      AllHoldCons(c, cs, r);
      if Holds(c, r) {
        assert Keep(rows, c) == [r] + kept;
        assert ([r] + kept)[1..] == kept;
        assert ([r] + kept)[0] == r;
      } else {
        assert Keep(rows, c) == kept;
      }
    }
  }

  /** Applying the steps one after another is the same as selecting the rows
      that meet all of them at once. */
  lemma {:induction false} ApplyIsSelect(rows: seq<Record>, cs: seq<Criterion>)
    ensures Apply(rows, cs) == Select(rows, cs)
    decreases |cs|
  {
    if |cs| == 0 {
      SelectNothing(rows);
    } else {
      ApplyIsSelect(Keep(rows, cs[0]), cs[1..]);
      SelectAfterKeep(rows, cs[0], cs[1..]);
      assert [cs[0]] + cs[1..] == cs;
    }
  }

  /** With no criteria every row is selected. */
  lemma {:induction false} SelectNothing(rows: seq<Record>)
    ensures Select(rows, []) == rows
  {
    if |rows| > 0 {
      SelectNothing(rows[1..]);
      assert rows == [rows[0]] + rows[1..];
    }
  }

  /** Selection depends only on which criteria are listed, not on their
      order or repetition: applying the same steps in any order gives the
      same rows. */
  lemma {:induction false} SelectOrderIndependent(rows: seq<Record>, cs1: seq<Criterion>, cs2: seq<Criterion>)
    requires forall c :: c in cs1 <==> c in cs2
    ensures Select(rows, cs1) == Select(rows, cs2)
  {
    if |rows| > 0 {
      SelectOrderIndependent(rows[1..], cs1, cs2);
      var r := rows[0];
      assert AllHold(cs1, r) <==> AllHold(cs2, r) by {
        if AllHold(cs1, r) {
          forall k | 0 <= k < |cs2|
            ensures Holds(cs2[k], r)
          {
            assert cs2[k] in cs1;
          }
        }
        if AllHold(cs2, r) {
          forall k | 0 <= k < |cs1|
            ensures Holds(cs1[k], r)
          {
            assert cs1[k] in cs2;
          }
        }
      }
    }
  }

  /** The order in which the steps run does not change the result. */
  lemma ApplyOrderIndependent(rows: seq<Record>, cs1: seq<Criterion>, cs2: seq<Criterion>)
    requires forall c :: c in cs1 <==> c in cs2
    ensures Apply(rows, cs1) == Apply(rows, cs2)
  {
    ApplyIsSelect(rows, cs1);
    ApplyIsSelect(rows, cs2);
    SelectOrderIndependent(rows, cs1, cs2);
  }

  /** What a row must satisfy to be shown, one clause per widget. */
  predicate Matches(sel: Selection, r: Record) {
    && (sel.ageGroup == "All" || Label(r.ageGroup) == sel.ageGroup)
    && (sel.gender == "All" || GenderLabel(r.gender) == sel.gender)
    && (!sel.islamabadOnly || r.inIslamabad)
    && (sel.reg == "All" || RegMatches(r.reg, sel.reg))
    && (sel.education == "All" || r.raw.qualification == Present(sel.education))
  }

  /** `filtered_df` (app.py:131-142): the masks run one after another, and
      the result is what one pass keeping the rows that meet every active
      step gives. */
  function FilterRows(rows: seq<Record>, sel: Selection): (filtered: seq<Record>)
    ensures filtered == Select(rows, ActiveCriteria(sel))
  {
    ApplyIsSelect(rows, ActiveCriteria(sel));
    Apply(rows, ActiveCriteria(sel))
  }

  /** The active steps hold of a row exactly when it matches the selection. */
  lemma ActiveCriteriaMeanMatches(sel: Selection, r: Record)
    ensures AllHold(ActiveCriteria(sel), r) <==> Matches(sel, r)
  {
    if Matches(sel, r) {
      MatchingRowMeetsCriteria(sel, r);
    }
    if AllHold(ActiveCriteria(sel), r) {
      CriteriaMetRowMatches(sel, r);
    }
  }

  /** Every active step is one of the widget clauses. */
  lemma MatchingRowMeetsCriteria(sel: Selection, r: Record)
    requires Matches(sel, r)
    ensures AllHold(ActiveCriteria(sel), r)
  {
    var cs := ActiveCriteria(sel);
    forall k | 0 <= k < |cs|
      ensures Holds(cs[k], r)
    {
      assert cs[k] in cs;
    }
  }

  /** Every widget not on "All" contributes its step. */
  lemma CriteriaMetRowMatches(sel: Selection, r: Record)
    requires AllHold(ActiveCriteria(sel), r)
    ensures Matches(sel, r)
  {
    var cs := ActiveCriteria(sel);
    if sel.ageGroup != "All" {
      assert AgeGroupIs(sel.ageGroup) in cs;
    }
    if sel.gender != "All" {
      assert GenderIs(sel.gender) in cs;
    }
    if sel.islamabadOnly {
      assert InIslamabadOnly in cs;
    }
    if sel.reg != "All" {
      assert RegContains(sel.reg) in cs;
    }
    if sel.education != "All" {
      assert QualificationIs(sel.education) in cs;
    }
  }

  /** The filtered table holds exactly the rows that match the selection,
      each as often as the sheet holds it, in their original order. */
  lemma FilterRowsMeaning(rows: seq<Record>, sel: Selection)
    ensures IsSubsequence(FilterRows(rows, sel), rows)
    ensures forall r :: r in FilterRows(rows, sel) <==> r in rows && Matches(sel, r)
    ensures forall r :: multiset(FilterRows(rows, sel))[r] == if Matches(sel, r) then multiset(rows)[r] else 0
  {
    forall r
      ensures AllHold(ActiveCriteria(sel), r) <==> Matches(sel, r)
    {
      ActiveCriteriaMeanMatches(sel, r);
    }
  }

  /** With every selector on "All" and the checkbox clear, nothing is dropped. */
  lemma NoSelectionKeepsAll(rows: seq<Record>)
    ensures FilterRows(rows, NoSelection) == rows
  {
  }

  /** No age group is labelled like the selector's "All" entry. */
  lemma GroupLabelNotAll(g: AgeGroup)
    ensures Label(g) != "All"
  {
    var l := Label(g);
    assert l[1] != 'l' || l[2] != 'l' || |l| != 3;
  }

  /** Choosing an age-group label keeps exactly the rows in that group. */
  lemma AgeGroupFilterByGroup(rows: seq<Record>, g: AgeGroup)
    ensures forall r :: r in FilterRows(rows, NoSelection.(ageGroup := Label(g))) <==> r in rows && r.ageGroup == g
  {
    var sel := NoSelection.(ageGroup := Label(g));
    FilterRowsMeaning(rows, sel);
    GroupLabelNotAll(g);
    forall r | r in rows
      ensures Matches(sel, r) <==> r.ageGroup == g
    {
      LabelInjective(r.ageGroup, g);
    }
  }

  /** The CRPD choice keeps every row the NCRPD choice keeps (and more):
      registration matching is containment, not equality. */
  lemma CrpdKeepsNcrpd(rows: seq<Record>, sel: Selection)
    ensures forall r :: r in FilterRows(rows, sel.(reg := "NCRPD")) ==> r in FilterRows(rows, sel.(reg := "CRPD"))
  {
    FilterRowsMeaning(rows, sel.(reg := "NCRPD"));
    FilterRowsMeaning(rows, sel.(reg := "CRPD"));
    forall r | r in FilterRows(rows, sel.(reg := "NCRPD"))
      ensures r in FilterRows(rows, sel.(reg := "CRPD"))
    {
      NcrpdMatchesCrpd(r.reg);
    }
  }
}
