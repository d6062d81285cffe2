/**
 * The Table component of Table/Table.js: one per section. It holds the
 * section's `edit` flag, checks new group and category names before
 * asking the calculator to add them, and turns value input into a call to
 * `updateCategoryValue`.
 */
module Table {
  import opened Sections
  import opened Aggregation
  import opened Edits
  import opened Calculator
  import opened NumericInput
  import opened Wrappers

  /** What `validateGroup` and `validateCategory` decide: add the name, or
      warn that it is empty or taken. */
  datatype NameCheck = Accepted | EmptyName | DuplicateName

  /** `filter((x) => x.Name === name).length` over the siblings' names. */
  function CountNamed(names: seq<string>, name: string): (c: nat)
    ensures c <= |names|
  {
    if names == [] then 0
    else CountNamed(names[..|names| - 1], name) + (if names[|names| - 1] == name then 1 else 0)
  }

  function GroupNames(gs: seq<Group>): seq<string>
  {
    seq(|gs|, j requires 0 <= j < |gs| => gs[j].name)
  }

  function CategoryNames(cs: seq<Category>): seq<string>
  {
    seq(|cs|, k requires 0 <= k < |cs| => cs[k].name)
  }

  /** No two siblings share a name. */
  predicate DistinctNames(names: seq<string>)
  {
    forall a, b :: 0 <= a < b < |names| ==> names[a] != names[b]
  }

  /** The filter finds a match exactly when some sibling has the name
      (case-sensitive, exact). */
  lemma {:induction false} CountNamedPositive(names: seq<string>, name: string)
    ensures 0 < CountNamed(names, name) <==> name in names
    decreases |names|
  {
    if names != [] {
      var n := |names| - 1;
      CountNamedPositive(names[..n], name);
      assert names == names[..n] + [names[n]];
    }
  }

  /** The shared decision of `validateGroup` and `validateCategory`: an
      empty name is refused first, then a name a sibling already has;
      anything else is accepted. */
  function CheckName(names: seq<string>, name: string): (c: NameCheck)
    ensures c == EmptyName <==> name == ""
    ensures c == DuplicateName <==> name != "" && name in names
    ensures c == Accepted <==> name != "" && name !in names
  {
    if name == "" then EmptyName
    else
      CountNamedPositive(names, name);
      if 0 < CountNamed(names, name) then DuplicateName else Accepted
  }

  /** A name that passes the check keeps the siblings' names distinct once
      it is appended. */
  lemma AcceptedNameStaysDistinct(names: seq<string>, name: string)
    requires DistinctNames(names) && CheckName(names, name) == Accepted
    ensures DistinctNames(names + [name])
  {
    forall a, b | 0 <= a < b < |names| + 1
      ensures (names + [name])[a] != (names + [name])[b]
    {
      if b == |names| {
        assert names[a] in names;
      }
    }
  }

  /** Adding an accepted group name keeps the section's group names
      distinct. */
  lemma AddGroupKeepsNamesDistinct(ss: seq<Section>, si: nat, name: string)
    requires si < |ss| && DistinctNames(GroupNames(ss[si].groups))
    requires CheckName(GroupNames(ss[si].groups), name) == Accepted
    ensures DistinctNames(GroupNames(AppendGroup(ss, si, name)[si].groups))
  {
    assert GroupNames(AppendGroup(ss, si, name)[si].groups) == GroupNames(ss[si].groups) + [name];
    AcceptedNameStaysDistinct(GroupNames(ss[si].groups), name);
  }

  /** Adding an accepted category name keeps the group's category names
      distinct. */
  lemma AddCategoryKeepsNamesDistinct(ss: seq<Section>, si: nat, gi: nat, name: string)
    requires GroupIndex(ss, si, gi) && DistinctNames(CategoryNames(ss[si].groups[gi].categories))
    requires CheckName(CategoryNames(ss[si].groups[gi].categories), name) == Accepted
    ensures DistinctNames(CategoryNames(AppendCategory(ss, si, gi, name)[si].groups[gi].categories))
  {
    var cs := ss[si].groups[gi].categories;
    assert CategoryNames(cs + [Category(name, Num(0.0))]) == CategoryNames(cs) + [name];
    AcceptedNameStaysDistinct(CategoryNames(cs), name);
  }

  class SectionTable {
    /** Whether the section is in edit mode (structure editable) rather than
        in value-entry mode. */
    var edit: bool
    /** `props.sectionIndex`. */
    const sectionIndex: nat
    /** The component whose operations arrive as props. */
    const home: NetWorthCalculator

    constructor (home: NetWorthCalculator, sectionIndex: nat)
      ensures !edit && this.home == home && this.sectionIndex == sectionIndex
    {
      edit := false;
      this.home := home;
      this.sectionIndex := sectionIndex;
    }

    /** `validateInput`: exactly one `updateCategoryValue` call, with the
        coerced value, which is never negative. */
    method OnValueInput(raw: string, gi: nat, ci: nat)
      requires CategoryIndex(home.sections, sectionIndex, gi, ci)
      modifies home
      ensures home.sections == Recompute(SetValue(old(home.sections), sectionIndex, gi, ci, Num(ValidateInput(raw))))
      ensures var v := home.sections[sectionIndex].groups[gi].categories[ci].value;
              v.Num? && 0.0 <= v.amount
    {
      var value := ValidateInput(raw);
      home.UpdateCategoryValue(value, sectionIndex, gi, ci);
    }

    /** `toggleSectionEdit`: each call flips the flag, so two calls in a row
        restore it. */
    method ToggleSectionEdit()
      modifies this
      ensures edit == !old(edit)
    {
      edit := !edit;
    }

    /** `cancelChanges`: reload the section from the store (the fetched
        section is given), then leave the current mode. */
    method CancelChanges(fetched: Section)
      requires sectionIndex < |home.sections|
      modifies this, home
      ensures edit == !old(edit)
      ensures |home.sections| == |old(home.sections)| && home.sections[sectionIndex] == fetched
      ensures forall i :: 0 <= i < |home.sections| && i != sectionIndex ==> home.sections[i] == old(home.sections[i])
    {
      home.ResetSectionForm(sectionIndex, fetched);
      ToggleSectionEdit();
    }

    /** `submitChanges`: post the working section (returned here, the
        request itself is not modelled), then leave the current mode. The
        working copy is not touched. */
    method SubmitChanges() returns (posted: Section)
      requires sectionIndex < |home.sections|
      modifies this
      ensures posted == home.sections[sectionIndex]
      ensures home.sections == old(home.sections)
      ensures edit == !old(edit)
    {
      posted := home.sections[sectionIndex];
      ToggleSectionEdit();
    }

    /** `validateGroup`: refuse an empty or taken name, else add the group
        once. */
    method ValidateGroup(name: string) returns (check: NameCheck)
      requires sectionIndex < |home.sections|
      modifies home
      ensures check == CheckName(GroupNames(old(home.sections)[sectionIndex].groups), name)
      ensures check == Accepted ==> home.sections == AppendGroup(old(home.sections), sectionIndex, name)
      ensures check != Accepted ==> home.sections == old(home.sections)
      ensures old(DistinctNames(GroupNames(home.sections[sectionIndex].groups)))
              ==> DistinctNames(GroupNames(home.sections[sectionIndex].groups))
    {
      var groups := home.sections[sectionIndex].groups;
      check := CheckName(GroupNames(groups), name);
      if check == Accepted {
        ghost var before := home.sections;
        home.AddGroup(sectionIndex, name);
        if DistinctNames(GroupNames(groups)) {
          AddGroupKeepsNamesDistinct(before, sectionIndex, name);
        }
      }
    }

    /** `validateCategory`: the same checks, against the addressed group's
        categories only. */
    method ValidateCategory(gi: nat, name: string) returns (check: NameCheck)
      requires GroupIndex(home.sections, sectionIndex, gi)
      modifies home
      ensures check == CheckName(CategoryNames(old(home.sections)[sectionIndex].groups[gi].categories), name)
      ensures check == Accepted ==> home.sections == AppendCategory(old(home.sections), sectionIndex, gi, name)
      ensures check != Accepted ==> home.sections == old(home.sections)
      ensures old(DistinctNames(CategoryNames(home.sections[sectionIndex].groups[gi].categories)))
              ==> DistinctNames(CategoryNames(home.sections[sectionIndex].groups[gi].categories))
    {
      var categories := home.sections[sectionIndex].groups[gi].categories;
      check := CheckName(CategoryNames(categories), name);
      if check == Accepted {
        ghost var before := home.sections;
        home.AddCategory(sectionIndex, gi, name);
        if DistinctNames(CategoryNames(categories)) {
          AddCategoryKeepsNamesDistinct(before, sectionIndex, gi, name);
        }
      }
    }
  }

  /** A client of the two components: load assets of 100 and no
      liabilities, type "250.999" into the one value, and read the net
      worth. */
  method EditScenario()
  {
    var checking := Category("Checking", Num(100.0));
    var assets := Section("Assets", [Group("Cash", [checking], 100.0)], 100.0);
    var liabilities := Section("Liabilities", [], 0.0);
    var home := new NetWorthCalculator();
    home.GetNetWorthData([assets, liabilities]);
    var before := home.sections;
    assert Amounts([checking]) == [100.0];
    assert GroupTotals(assets.groups) == [100.0];
    assert GroupTotals(liabilities.groups) == [];
    assert [100.0][..0] == [];
    assert Sum([100.0]) == 100.0;
    assert SectionTotalled(assets) && SectionTotalled(liabilities);
    assert Totalled(before);
    assert NetWorth(before) == Some(100.0);

    var table := new SectionTable(home, 0);
    table.OnValueInput("250.999", 0, 0);
    SecondTruncationExample();
    assert home.sections[0].groups[0].categories[0].value == Num(250.99);
    UpdateMovesNetWorth(before, 0, 0, 0, Num(250.99));
    assert NetWorth(home.sections) == Some(250.99);
  }
}
