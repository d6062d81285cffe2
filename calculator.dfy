/**
 * The Home component of NetWorthCalculator.js: it owns the working copy
 * (`sections`), recounts it after value edits and deletions, and shows
 * the net worth (section 0's total minus section 1's).
 */
module Calculator {
  import opened Wrappers
  import opened Sections
  import opened Aggregation
  import opened Edits

  class NetWorthCalculator {
    /** The component's `sections` state. */
    var sections: seq<Section>

    /** The state starts as an empty array. */
    constructor ()
      ensures sections == []
    {
      sections := [];
    }

    /** `getNetWorthData` after a successful response: the working copy
        becomes the stored document as it is, stored totals included. */
    method GetNetWorthData(data: seq<Section>)
      modifies this
      ensures sections == data
    {
      sections := data;
    }

    /** `calculateTotals`: every total recounted, nothing else touched. */
    method CalculateTotals()
      modifies this
      ensures sections == Recompute(old(sections))
      ensures Totalled(sections) && SameTree(old(sections), sections)
    {
      sections := ComputeTotals(sections);
    }

    /** `updateCategoryValue`: set one value, then recount. */
    method UpdateCategoryValue(value: real, si: nat, gi: nat, ci: nat)
      requires CategoryIndex(sections, si, gi, ci)
      modifies this
      ensures sections == Recompute(SetValue(old(sections), si, gi, ci, Num(value)))
      ensures Totalled(sections)
      ensures sections[si].groups[gi].categories[ci].value == Num(value)
    {
      sections := SetValue(sections, si, gi, ci, Num(value));
      CalculateTotals();
    }

    /** `addGroup`: append an empty group; the source runs no recount, and
        none is needed for the totals to stay right. */
    method AddGroup(si: nat, name: string)
      requires si < |sections|
      modifies this
      ensures sections == AppendGroup(old(sections), si, name)
      ensures old(Totalled(sections)) ==> Totalled(sections)
    {
      ghost var before := sections;
      sections := AppendGroup(sections, si, name);
      if Totalled(before) {
        AppendGroupKeepsTotals(before, si, name);
      }
    }

    /** `addCategory`: append a category with value 0; no recount. */
    method AddCategory(si: nat, gi: nat, name: string)
      requires GroupIndex(sections, si, gi)
      modifies this
      ensures sections == AppendCategory(old(sections), si, gi, name)
      ensures old(Totalled(sections)) ==> Totalled(sections)
    {
      ghost var before := sections;
      sections := AppendCategory(sections, si, gi, name);
      if Totalled(before) {
        AppendCategoryKeepsTotals(before, si, gi, name);
      }
    }

    /** The state change of `resetSectionForm` once the stored section has
        arrived: that one index is overwritten, with no recount. */
    method ResetSectionForm(si: nat, fetched: Section)
      requires si < |sections|
      modifies this
      ensures |sections| == |old(sections)| && sections[si] == fetched
      ensures forall i :: 0 <= i < |sections| && i != si ==> sections[i] == old(sections[i])
      ensures old(Totalled(sections)) && SectionTotalled(fetched) ==> Totalled(sections)
    {
      sections := sections[si := fetched];
    }

    /** `deleteGroup`: splice the group out, then recount. */
    method DeleteGroup(si: nat, gi: nat)
      requires si < |sections|
      modifies this
      ensures sections == Recompute(DeleteGroupAt(old(sections), si, gi))
      ensures Totalled(sections)
    {
      sections := DeleteGroupAt(sections, si, gi);
      CalculateTotals();
    }

    /** `deleteCategory`: splice the category out, then recount. */
    method DeleteCategory(si: nat, gi: nat, ci: nat)
      requires GroupIndex(sections, si, gi)
      modifies this
      ensures sections == Recompute(DeleteCategoryAt(old(sections), si, gi, ci))
      ensures Totalled(sections)
    {
      sections := DeleteCategoryAt(sections, si, gi, ci);
      CalculateTotals();
    }
  }

  /** The condition under which the net-worth table is rendered, as written:
      at least one section. It admits every collection that has a net worth,
      and one more kind: a collection of exactly one section. */
  predicate NetWorthShownAsWritten(ss: seq<Section>): (shown: bool)
    ensures shown <==> NetWorth(ss).Some? || |ss| == 1
  {
    |ss| > 0
  }

  /** The rendered figure, defined exactly when both section 0 (assets)
      and section 1 (liabilities) exist. */
  function NetWorth(ss: seq<Section>): (r: Option<real>)
    ensures r.Some? <==> 2 <= |ss|
  {
    if 2 <= |ss| then Some(ss[0].total - ss[1].total) else None
  }

  /** The render guard lets a one-section collection through, and then the
      expression reads a section 1 that does not exist. */
  lemma NetWorthGuardAdmitsOneSection(s: Section)
    ensures NetWorthShownAsWritten([s]) && NetWorth([s]).None?
  {
  }

  /** With the totals right, net worth is every numeric asset value minus
      every numeric liability value. */
  lemma NetWorthIsLeafDifference(ss: seq<Section>)
    requires Totalled(ss) && 2 <= |ss|
    ensures NetWorth(ss) == Some(LeafSum(ss[0]) - LeafSum(ss[1]))
  {
    SectionTotalIsLeafSum(ss[0]);
    SectionTotalIsLeafSum(ss[1]);
  }

  /** Editing a value of section 0 moves the net worth by exactly the change
      in that value; one in section 1 moves it by the opposite amount. */
  lemma UpdateMovesNetWorth(ss: seq<Section>, si: nat, gi: nat, ci: nat, v: Value)
    requires CategoryIndex(ss, si, gi, ci) && si < 2 <= |ss| && Totalled(ss)
    ensures var delta := Contribution(v) - Contribution(ss[si].groups[gi].categories[ci].value);
            NetWorth(Recompute(SetValue(ss, si, gi, ci, v))).value
              == NetWorth(ss).value + (if si == 0 then delta else -delta)
  {
    UpdateShiftsTotals(ss, si, gi, ci, v);
    SectionTotalIsLeafSum(ss[0]);
    SectionTotalIsLeafSum(ss[1]);
    RecomputedTotalIsLeafSum(SetValue(ss, si, gi, ci, v), 1 - si);
  }
}
