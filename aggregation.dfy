/**
 * The aggregation step, `calculateTotals` in NetWorthCalculator.js: every
 * group total becomes the sum of its numeric category values, then every
 * section total the sum of its new group totals. Recompute is the
 * specification; ComputeTotals is the source's nested loops, proved to
 * compute it.
 */
module Aggregation {
  import opened Sections

  function TotalGroup(g: Group): Group
  {
    g.(total := CategorySum(g.categories))
  }

  function TotalSection(s: Section): Section
  {
    var gs := seq(|s.groups|, j requires 0 <= j < |s.groups| => TotalGroup(s.groups[j]));
    s.(groups := gs, total := GroupTotalsSum(gs))
  }

  /** Recompute every total: the result satisfies `Totalled` and
      differs from the input in its totals only. */
  function Recompute(ss: seq<Section>): (r: seq<Section>)
    ensures Totalled(r) && SameTree(ss, r)
  {
    seq(|ss|, i requires 0 <= i < |ss| => TotalSection(ss[i]))
  }

  /** The totals are determined by the rest of the tree: two collections with
      the same tree that both satisfy `Totalled` are equal. */
  lemma TotalledUnique(a: seq<Section>, b: seq<Section>)
    requires SameTree(a, b) && Totalled(a) && Totalled(b)
    ensures a == b
  {
    forall i | 0 <= i < |a|
      ensures a[i] == b[i]
    {
      var ga, gb := a[i].groups, b[i].groups;
      assert SameSectionTree(a[i], b[i]) && SectionTotalled(a[i]) && SectionTotalled(b[i]);
      forall j | 0 <= j < |ga|
        ensures ga[j] == gb[j]
      {
        assert GroupTotalled(ga[j]) && GroupTotalled(gb[j]);
      }
      assert ga == gb;
    }
  }

  /** Running the aggregation on its own output changes nothing. */
  lemma RecomputeIdempotent(ss: seq<Section>)
    ensures Recompute(Recompute(ss)) == Recompute(ss)
  {
    var once := Recompute(ss);
    var twice := Recompute(once);
    assert SameTree(twice, once) by {
      forall i | 0 <= i < |once|
        ensures SameSectionTree(twice[i], once[i])
      {
        assert SameSectionTree(once[i], twice[i]);
      }
    }
    TotalledUnique(twice, once);
  }

  /** The aggregation leaves a collection alone exactly when its totals are
      already right. */
  lemma RecomputeFixesExactlyTotalled(ss: seq<Section>)
    ensures Recompute(ss) == ss <==> Totalled(ss)
  {
    if Totalled(ss) {
      var r := Recompute(ss);
      assert SameTree(r, ss) by {
        forall i | 0 <= i < |ss|
          ensures SameSectionTree(r[i], ss[i])
        {
          assert SameSectionTree(ss[i], r[i]);
        }
      }
      TotalledUnique(r, ss);
    }
  }

  /** The nested loops of `calculateTotals`: `sectionTotal` and `groupTotal`
      accumulate left to right, and each group and section total is written
      in place once its loop finishes. */
  method ComputeTotals(ss: seq<Section>) returns (r: seq<Section>)
    ensures Totalled(r) && SameTree(ss, r)
    ensures r == Recompute(ss)
  {
    r := ss;
    var i := 0;
    while i < |r|
      invariant 0 <= i <= |r| == |ss|
      invariant forall i' :: 0 <= i' < i ==> r[i'] == TotalSection(ss[i'])
      invariant forall i' :: i <= i' < |r| ==> r[i'] == ss[i']
    {
      var groups := r[i].groups;
      var sectionTotal := 0.0;
      var j := 0;
      while j < |groups|
        invariant 0 <= j <= |groups| == |ss[i].groups|
        invariant forall j' :: 0 <= j' < j ==> groups[j'] == TotalGroup(ss[i].groups[j'])
        invariant forall j' :: j <= j' < |groups| ==> groups[j'] == ss[i].groups[j']
        invariant sectionTotal == Sum(GroupTotals(groups)[..j])
      {
        var categories := groups[j].categories;
        var groupTotal := 0.0;
        var k := 0;
        while k < |categories|
          invariant 0 <= k <= |categories|
          invariant groupTotal == Sum(Amounts(categories)[..k])
        {
          if categories[k].value.Num? {
            groupTotal := groupTotal + categories[k].value.amount;
          }
          assert Amounts(categories)[..k + 1][..k] == Amounts(categories)[..k];
          k := k + 1;
        }
        assert Amounts(categories)[..k] == Amounts(categories);
        ghost var before := groups;
        groups := groups[j := groups[j].(total := groupTotal)];
        assert GroupTotals(groups)[..j + 1][..j] == GroupTotals(before)[..j];
        sectionTotal := sectionTotal + groupTotal;
        j := j + 1;
      }
      assert GroupTotals(groups)[..j] == GroupTotals(groups);
      assert groups == TotalSection(ss[i]).groups;
      r := r[i := r[i].(groups := groups, total := sectionTotal)];
      i := i + 1;
    }
    assert r == Recompute(ss);
  }
}
