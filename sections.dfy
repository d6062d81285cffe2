/**
 * The working copy of the net-worth data: Sections hold Groups, Groups hold
 * Categories, each Category holds a Value. Group and Section totals are
 * derived figures; this module says what "derived" means (Totalled) and
 * what an edit may not disturb (SameTree).
 */
module Sections {

  /** A category's Value as the client holds it. The aggregation adds only
      values whose JavaScript type is "number"; anything else the stored
      document may hold (a string, null, a missing field) is NonNum. */
  datatype Value = Num(amount: real) | NonNum

  datatype Category = Category(name: string, value: Value)

  datatype Group = Group(name: string, categories: seq<Category>, total: real)

  datatype Section = Section(name: string, groups: seq<Group>, total: real)

  /** The amount a value adds to its group's total. */
  function Contribution(v: Value): real
  {
    if v.Num? then v.amount else 0.0
  }

  /** Left-to-right sum, the order in which the source's accumulators add. */
  function Sum(xs: seq<real>): real
  {
    if xs == [] then 0.0 else Sum(xs[..|xs| - 1]) + xs[|xs| - 1]
  }

  /** What each category of a group adds to the group total. */
  function Amounts(cs: seq<Category>): seq<real>
  {
    seq(|cs|, k requires 0 <= k < |cs| => Contribution(cs[k].value))
  }

  function CategorySum(cs: seq<Category>): real
  {
    Sum(Amounts(cs))
  }

  function GroupTotals(gs: seq<Group>): seq<real>
  {
    seq(|gs|, j requires 0 <= j < |gs| => gs[j].total)
  }

  function GroupTotalsSum(gs: seq<Group>): real
  {
    Sum(GroupTotals(gs))
  }

  /** The sum of every numeric value anywhere in a section, ignoring the
      stored group totals altogether. */
  function LeafSum(s: Section): real
  {
    Sum(GroupSums(s.groups))
  }

  /** What each group's categories add up to, whatever the stored totals say. */
  function GroupSums(gs: seq<Group>): seq<real>
  {
    seq(|gs|, j requires 0 <= j < |gs| => CategorySum(gs[j].categories))
  }

  /** The amounts of the numeric values only, in order. */
  function NumericAmounts(cs: seq<Category>): seq<real>
  {
    if cs == [] then []
    else NumericAmounts(cs[..|cs| - 1]) + (if cs[|cs| - 1].value.Num? then [cs[|cs| - 1].value.amount] else [])
  }

  /** A group's total is the sum of its numeric values. */
  predicate GroupTotalled(g: Group)
  {
    g.total == CategorySum(g.categories)
  }

  /** Every group of the section is `GroupTotalled`, and the section's
      total is the sum of its group totals. */
  predicate SectionTotalled(s: Section)
  {
    && (forall j :: 0 <= j < |s.groups| ==> GroupTotalled(s.groups[j]))
    && s.total == GroupTotalsSum(s.groups)
  }

  /** Every section is `SectionTotalled`. */
  predicate Totalled(ss: seq<Section>)
  {
    forall i :: 0 <= i < |ss| ==> SectionTotalled(ss[i])
  }

  /** Same name, same groups in the same order with the same names and the
      same categories; only the totals may differ. */
  predicate SameSectionTree(s: Section, t: Section)
  {
    && s.name == t.name
    && |s.groups| == |t.groups|
    && forall j :: 0 <= j < |s.groups| ==>
         s.groups[j].name == t.groups[j].name && s.groups[j].categories == t.groups[j].categories
  }

  predicate SameTree(a: seq<Section>, b: seq<Section>)
  {
    |a| == |b| && forall i :: 0 <= i < |a| ==> SameSectionTree(a[i], b[i])
  }

  /** JavaScript's `splice(i, 1)` for an index that is not negative: the
      element at i goes, the others keep their order; an index past the
      end removes nothing. */
  function RemoveAt<T>(s: seq<T>, i: nat): (r: seq<T>)
    ensures i < |s| ==> |r| == |s| - 1 && forall k :: 0 <= k < |r| ==> r[k] == s[if k < i then k else k + 1]
    ensures i < |s| ==> multiset(r) + multiset{s[i]} == multiset(s)
    ensures |s| <= i ==> r == s
  {
    if i < |s| then
      assert s == s[..i] + [s[i]] + s[i + 1..];
      s[..i] + s[i + 1..]
    else s
  }

  lemma {:induction false} SumConcat(a: seq<real>, b: seq<real>)
    ensures Sum(a + b) == Sum(a) + Sum(b)
    decreases |b|
  {
    if b != [] {
      var n := |b| - 1;
      assert (a + b)[..|a + b| - 1] == a + b[..n];
      SumConcat(a, b[..n]);
    } else {
      assert a + b == a;
    }
  }

  /** Changing one summand changes the sum by exactly the difference. */
  lemma SumUpdate(xs: seq<real>, i: nat, x: real)
    requires i < |xs|
    ensures Sum(xs[i := x]) == Sum(xs) - xs[i] + x
  {
    assert xs == xs[..i] + [xs[i]] + xs[i + 1..];
    assert xs[i := x] == xs[..i] + [x] + xs[i + 1..];
    SumConcat(xs[..i] + [xs[i]], xs[i + 1..]);
    SumConcat(xs[..i], [xs[i]]);
    SumConcat(xs[..i] + [x], xs[i + 1..]);
    SumConcat(xs[..i], [x]);
  }

  /** s around its element at i, with and without that element. */
  lemma SplitAround<T>(s: seq<T>, i: nat)
    requires i < |s|
    ensures s == s[..i] + [s[i]] + s[i + 1..]
    ensures RemoveAt(s, i) == s[..i] + s[i + 1..]
  {
  }

  /** Removing one summand lowers the sum by exactly that summand. */
  lemma SumRemove(xs: seq<real>, i: nat)
    requires i < |xs|
    ensures Sum(RemoveAt(xs, i)) == Sum(xs) - xs[i]
  {
    var front, back, x := xs[..i], xs[i + 1..], xs[i];
    SplitAround(xs, i);
    SumConcat(front + [x], back);
    SumConcat(front, back);
    assert Sum(front + [x]) == Sum(front) + x by {
      assert (front + [x])[..|front|] == front;
    }
  }

  lemma {:induction false} SumNonNegative(xs: seq<real>)
    requires forall k :: 0 <= k < |xs| ==> 0.0 <= xs[k]
    ensures 0.0 <= Sum(xs)
    decreases |xs|
  {
    if xs != [] {
      SumNonNegative(xs[..|xs| - 1]);
    }
  }

  /** The `typeof === "number"` guard: a group total is the sum of the
      numeric values alone, the others are skipped. */
  lemma {:induction false} CategorySumSkipsNonNumeric(cs: seq<Category>)
    ensures CategorySum(cs) == Sum(NumericAmounts(cs))
    decreases |cs|
  {
    if cs != [] {
      var n := |cs| - 1;
      assert Amounts(cs)[..n] == Amounts(cs[..n]);
      CategorySumSkipsNonNumeric(cs[..n]);
      SumConcat(NumericAmounts(cs[..n]), if cs[n].value.Num? then [cs[n].value.amount] else []);
    }
  }

  /** Totals are never negative while every numeric value is not negative. */
  lemma CategorySumNonNegative(cs: seq<Category>)
    requires forall k :: 0 <= k < |cs| ==> 0.0 <= Contribution(cs[k].value)
    ensures 0.0 <= CategorySum(cs)
  {
    SumNonNegative(Amounts(cs));
  }

  /** Under `SectionTotalled` a section's stored total is the sum of all
      its numeric values. */
  lemma SectionTotalIsLeafSum(s: Section)
    requires SectionTotalled(s)
    ensures s.total == LeafSum(s)
  {
    assert GroupTotals(s.groups) == GroupSums(s.groups);
  }
}
