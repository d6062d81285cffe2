/**
 * The structural edits of NetWorthCalculator.js as functions on the whole
 * collection: what each one leaves behind before the totals are recomputed,
 * and what the totals are afterwards.
 */
module Edits {
  import opened Sections
  import opened Aggregation

  predicate GroupIndex(ss: seq<Section>, si: nat, gi: nat)
  {
    si < |ss| && gi < |ss[si].groups|
  }

  predicate CategoryIndex(ss: seq<Section>, si: nat, gi: nat, ci: nat)
  {
    GroupIndex(ss, si, gi) && ci < |ss[si].groups[gi].categories|
  }

  /** b is a with at most the value of category (si, gi, ci) changed:
      every other section, group and category, every name and every stored
      total is the same. */
  predicate OnlyValueDiffers(a: seq<Section>, b: seq<Section>, si: nat, gi: nat, ci: nat)
    requires CategoryIndex(a, si, gi, ci)
  {
    && |a| == |b|
    && (forall i :: 0 <= i < |a| && i != si ==> a[i] == b[i])
    && a[si].name == b[si].name && a[si].total == b[si].total
    && |a[si].groups| == |b[si].groups|
    && (forall j :: 0 <= j < |a[si].groups| && j != gi ==> a[si].groups[j] == b[si].groups[j])
    && a[si].groups[gi].name == b[si].groups[gi].name
    && a[si].groups[gi].total == b[si].groups[gi].total
    && |a[si].groups[gi].categories| == |b[si].groups[gi].categories|
    && (forall k :: 0 <= k < |a[si].groups[gi].categories| && k != ci ==>
          a[si].groups[gi].categories[k] == b[si].groups[gi].categories[k])
    && a[si].groups[gi].categories[ci].name == b[si].groups[gi].categories[ci].name
  }

  /** b is a with section si's groups replaced by gs: every other section,
      and section si's name and stored total, is the same. */
  predicate OnlyGroupsOf(a: seq<Section>, b: seq<Section>, si: nat, gs: seq<Group>)
    requires si < |a|
  {
    && |a| == |b|
    && (forall i :: 0 <= i < |a| && i != si ==> a[i] == b[i])
    && b[si] == a[si].(groups := gs)
  }

  /** The assignment in `updateCategoryValue`. */
  function SetValue(ss: seq<Section>, si: nat, gi: nat, ci: nat, v: Value): (r: seq<Section>)
    requires CategoryIndex(ss, si, gi, ci)
    ensures CategoryIndex(r, si, gi, ci)
    ensures OnlyValueDiffers(ss, r, si, gi, ci)
    ensures r[si].groups[gi].categories[ci].value == v
  {
    var s := ss[si];
    var g := s.groups[gi];
    var c := g.categories[ci];
    ss[si := s.(groups := s.groups[gi := g.(categories := g.categories[ci := c.(value := v)])])]
  }

  /** The `push` in `addGroup`: a new, empty group with total 0 goes last. */
  function AppendGroup(ss: seq<Section>, si: nat, name: string): (r: seq<Section>)
    requires si < |ss|
    ensures |r| == |ss|
    ensures |r[si].groups| == |ss[si].groups| + 1
    ensures OnlyGroupsOf(ss, r, si, r[si].groups)
    ensures r[si].groups[..|ss[si].groups|] == ss[si].groups
    ensures r[si].groups[|ss[si].groups|] == Group(name, [], 0.0)
  {
    var s := ss[si];
    ss[si := s.(groups := s.groups + [Group(name, [], 0.0)])]
  }

  /** The `push` in `addCategory`: a new category with value 0 goes last
      in the addressed group; nothing else changes. */
  function AppendCategory(ss: seq<Section>, si: nat, gi: nat, name: string): (r: seq<Section>)
    requires GroupIndex(ss, si, gi)
    ensures GroupIndex(r, si, gi)
    ensures OnlyGroupsOf(ss, r, si, r[si].groups)
    ensures |r[si].groups| == |ss[si].groups|
    ensures forall j :: 0 <= j < |ss[si].groups| && j != gi ==> r[si].groups[j] == ss[si].groups[j]
    ensures r[si].groups[gi].name == ss[si].groups[gi].name
    ensures r[si].groups[gi].total == ss[si].groups[gi].total
    ensures r[si].groups[gi].categories == ss[si].groups[gi].categories + [Category(name, Num(0.0))]
  {
    var s := ss[si];
    var g := s.groups[gi];
    ss[si := s.(groups := s.groups[gi := g.(categories := g.categories + [Category(name, Num(0.0))])])]
  }

  /** The `splice` in `deleteGroup`. */
  function DeleteGroupAt(ss: seq<Section>, si: nat, gi: nat): (r: seq<Section>)
    requires si < |ss|
    ensures OnlyGroupsOf(ss, r, si, RemoveAt(ss[si].groups, gi))
  {
    ss[si := ss[si].(groups := RemoveAt(ss[si].groups, gi))]
  }

  /** The `splice` in `deleteCategory`: the addressed group loses the
      category at ci (none when ci is past the end); nothing else changes. */
  function DeleteCategoryAt(ss: seq<Section>, si: nat, gi: nat, ci: nat): (r: seq<Section>)
    requires GroupIndex(ss, si, gi)
    ensures GroupIndex(r, si, gi)
    ensures OnlyGroupsOf(ss, r, si, r[si].groups)
    ensures |r[si].groups| == |ss[si].groups|
    ensures forall j :: 0 <= j < |ss[si].groups| && j != gi ==> r[si].groups[j] == ss[si].groups[j]
    ensures r[si].groups[gi] == ss[si].groups[gi].(categories := RemoveAt(ss[si].groups[gi].categories, ci))
  {
    var s := ss[si];
    var g := s.groups[gi];
    ss[si := s.(groups := s.groups[gi := g.(categories := RemoveAt(g.categories, ci))])]
  }

  /** Adding an empty group keeps `Totalled` without a recount:
      the new group's total 0 is the sum of its no categories. */
  lemma AppendGroupKeepsTotals(ss: seq<Section>, si: nat, name: string)
    requires si < |ss| && Totalled(ss)
    ensures Totalled(AppendGroup(ss, si, name))
  {
    var r := AppendGroup(ss, si, name);
    var gs := ss[si].groups;
    assert Amounts([]) == [];
    assert GroupTotals(r[si].groups) == GroupTotals(gs) + [0.0];
    SumConcat(GroupTotals(gs), [0.0]);
    assert SectionTotalled(r[si]);
  }

  /** Adding a category with value 0 keeps `Totalled` without a
      recount. */
  lemma AppendCategoryKeepsTotals(ss: seq<Section>, si: nat, gi: nat, name: string)
    requires GroupIndex(ss, si, gi) && Totalled(ss)
    ensures Totalled(AppendCategory(ss, si, gi, name))
  {
    var r := AppendCategory(ss, si, gi, name);
    var cs := ss[si].groups[gi].categories;
    assert Amounts(r[si].groups[gi].categories) == Amounts(cs) + [0.0];
    SumConcat(Amounts(cs), [0.0]);
    assert GroupTotalled(r[si].groups[gi]);
    assert GroupTotals(r[si].groups) == GroupTotals(ss[si].groups);
    assert SectionTotalled(r[si]);
  }

  /** After `updateCategoryValue` and its recount, the addressed group's and
      section's totals move by exactly the change in that one value, and
      every other section ends as a recount alone would leave it. */
  lemma UpdateShiftsTotals(ss: seq<Section>, si: nat, gi: nat, ci: nat, v: Value)
    requires CategoryIndex(ss, si, gi, ci)
    ensures var r := Recompute(SetValue(ss, si, gi, ci, v));
            var was := ss[si].groups[gi].categories[ci].value;
            && r[si].groups[gi].total == CategorySum(ss[si].groups[gi].categories) - Contribution(was) + Contribution(v)
            && r[si].total == LeafSum(ss[si]) - Contribution(was) + Contribution(v)
            && forall i :: 0 <= i < |ss| && i != si ==> r[i] == Recompute(ss)[i]
  {
    var e := SetValue(ss, si, gi, ci, v);
    var r := Recompute(e);
    var cs := ss[si].groups[gi].categories;
    var was := cs[ci].value;
    assert Amounts(e[si].groups[gi].categories) == Amounts(cs)[ci := Contribution(v)];
    SumUpdate(Amounts(cs), ci, Contribution(v));
    assert GroupSums(e[si].groups) == GroupSums(ss[si].groups)[gi := CategorySum(e[si].groups[gi].categories)];
    SumUpdate(GroupSums(ss[si].groups), gi, CategorySum(e[si].groups[gi].categories));
    SectionTotalIsLeafSum(r[si]);
    assert GroupSums(r[si].groups) == GroupSums(e[si].groups);
  }

  /** After `deleteCategory` and its recount, the group's and section's
      totals drop by exactly the removed value's contribution. */
  lemma DeleteCategoryLowersTotals(ss: seq<Section>, si: nat, gi: nat, ci: nat)
    requires CategoryIndex(ss, si, gi, ci)
    ensures var r := Recompute(DeleteCategoryAt(ss, si, gi, ci));
            var gone := ss[si].groups[gi].categories[ci].value;
            && r[si].groups[gi].total == CategorySum(ss[si].groups[gi].categories) - Contribution(gone)
            && r[si].total == LeafSum(ss[si]) - Contribution(gone)
            && forall i :: 0 <= i < |ss| && i != si ==> r[i] == Recompute(ss)[i]
  {
    var e := DeleteCategoryAt(ss, si, gi, ci);
    var r := Recompute(e);
    var cs := ss[si].groups[gi].categories;
    assert Amounts(e[si].groups[gi].categories) == RemoveAt(Amounts(cs), ci);
    SumRemove(Amounts(cs), ci);
    assert GroupSums(e[si].groups) == GroupSums(ss[si].groups)[gi := CategorySum(e[si].groups[gi].categories)];
    SumUpdate(GroupSums(ss[si].groups), gi, CategorySum(e[si].groups[gi].categories));
    SectionTotalIsLeafSum(r[si]);
    assert GroupSums(r[si].groups) == GroupSums(e[si].groups);
  }

  /** After `deleteGroup` and its recount, the section's total drops by
      exactly what the removed group's categories added up to. */
  lemma DeleteGroupLowersTotal(ss: seq<Section>, si: nat, gi: nat)
    requires GroupIndex(ss, si, gi)
    ensures var r := Recompute(DeleteGroupAt(ss, si, gi));
            && r[si].total == LeafSum(ss[si]) - CategorySum(ss[si].groups[gi].categories)
            && forall i :: 0 <= i < |ss| && i != si ==> r[i] == Recompute(ss)[i]
  {
    var e := DeleteGroupAt(ss, si, gi);
    var gs := ss[si].groups;
    assert e[si].groups == RemoveAt(gs, gi);
    GroupSumsRemove(gs, gi);
    SumRemove(GroupSums(gs), gi);
    RecomputedTotalIsLeafSum(e, si);
  }

  lemma GroupSumsRemove(gs: seq<Group>, gi: nat)
    requires gi < |gs|
    ensures GroupSums(RemoveAt(gs, gi)) == RemoveAt(GroupSums(gs), gi)
  {
  }

  /** A recounted section's total is the sum of all its numeric values. */
  lemma RecomputedTotalIsLeafSum(ss: seq<Section>, si: nat)
    requires si < |ss|
    ensures Recompute(ss)[si].total == LeafSum(ss[si])
  {
    var r := Recompute(ss)[si];
    SectionTotalIsLeafSum(r);
    assert GroupSums(r.groups) == GroupSums(ss[si].groups);
  }
}
