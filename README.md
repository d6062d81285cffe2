# Net Worth Calculator: the working copy and its edits, in Dafny

The Net Worth Calculator keeps personal assets and liabilities in a
three-level tree. Sections hold Groups, Groups hold Categories, and each
Category holds a Value. Section 0 holds the assets and section 1 the
liabilities. The browser client keeps a working copy of all sections. It
recounts every Group and Section total from the Category values. It adds
and deletes groups and categories, and it reloads one section from the
server to discard edits. Each section's table checks the input first: it
coerces typed amounts to non-negative numbers truncated to cents, and it
refuses empty or duplicate names.

This project models that client core:

- `sections.dfy` (module `Sections`) holds the data model and what a
  correct total is. `GroupTotalled`: a group total is the sum of its
  numeric values. `SectionTotalled`: every group of the section is
  `GroupTotalled`, and the section total is the sum of its group totals.
  `Totalled`: every section is `SectionTotalled`.
  It also says what an edit must leave alone (`SameTree`) and gives
  JavaScript's `splice(i, 1)` (`RemoveAt`).
- `aggregation.dfy` (module `Aggregation`) models `calculateTotals`. The
  function `Recompute` is its specification. `ComputeTotals` is the
  source's three nested loops with their accumulators, proved to compute
  `Recompute`. The module also proves uniqueness and idempotence.
- `edits.dfy` (module `Edits`) gives each structural edit as a function
  on the collection. It also proves what each edit does to the totals.
- `calculator.dfy` (module `Calculator`) holds the Home component as the
  class `NetWorthCalculator`. Its field `sections` is the component's
  state, and its methods are the component's operations. It also defines
  the net-worth figure.
- `numeric_input.dfy` (module `NumericInput`) models `validateInput`:
  `parseFloat` on decimal numerals, `indexOf`, the string cut, and the
  theorem that the cut equals truncation to cents.
- `table.dfy` (module `Table`) holds the name checks of `validateGroup`
  and `validateCategory`. It also holds the Table component as the class
  `SectionTable`, with its `edit` flag and the calls it makes on the
  Home component. It ends with a client method, `EditScenario`: load 100
  of assets, type "250.999", and get a net worth of 250.99.

Values and totals are `real`s. A Category value is `Num(amount)` when its
JavaScript type is "number", and `NonNum` otherwise. The aggregation adds
only `Num` values.

In these places the code may surprise a reader, and the model follows
the code:

- The add operations themselves do not check for empty or duplicate
  names. Only the Table's `validateGroup` and `validateCategory` do.
- A reset does not recount. The section fetched from the store replaces
  the working one with the totals it was stored with.
- The aggregation adds whatever numbers the stored document holds,
  negative ones included. Only typed input is coerced to be non-negative.
- The client posts one section by index to `SaveSection`, but the
  server controller exposes only a whole-list `SaveData`. No server-side
  save is modelled.

## Model

| member | source | states |
|---|---|---|
| Sections.RemoveAt | NetWorthCalculator/NetWorthCalculator/ClientApp/src/components/NetWorthCalculator.js:175 | `splice(i, 1)` with a non-negative index removes exactly the element at i. The others keep their relative order (element k of the result is element k or k+1 of the input), and the multiset loses just that one element. An index past the end removes nothing. |
| Sections.CategorySumSkipsNonNumeric | NetWorthCalculator/NetWorthCalculator/ClientApp/src/components/NetWorthCalculator.js:76-81 | A group's sum equals the sum of its numeric values alone. Values whose type is not "number" are skipped. |
| Sections.CategorySumNonNegative | NetWorthCalculator/NetWorthCalculator/ClientApp/src/components/NetWorthCalculator.js:73-81 | When no numeric value is negative, the group sum is not negative. |
| Sections.SectionTotalIsLeafSum | NetWorthCalculator/NetWorthCalculator/ClientApp/src/components/NetWorthCalculator.js:83-89 | Under `SectionTotalled`, a section's stored total is the sum of every numeric value in all of its groups. |
| Aggregation.Recompute | NetWorthCalculator/NetWorthCalculator/ClientApp/src/components/NetWorthCalculator.js:61-94 | After the recount, every group total is the sum of that group's numeric values. Every section total is the sum of its new group totals, and a section with no groups gets 0. Sections, groups, categories, names, values and order are all unchanged. |
| Aggregation.ComputeTotals | NetWorthCalculator/NetWorthCalculator/ClientApp/src/components/NetWorthCalculator.js:66-90 | The nested loops over i, j and k, with the `groupTotal` and `sectionTotal` accumulators and the in-place writes, produce exactly the recount. The result is `Totalled` and keeps the input's tree. |
| Aggregation.TotalledUnique | NetWorthCalculator/NetWorthCalculator/ClientApp/src/components/NetWorthCalculator.js:61-94 | Two collections with the same tree that are both `Totalled` are equal. So the totals are a function of the tree. |
| Aggregation.RecomputeIdempotent | NetWorthCalculator/NetWorthCalculator/ClientApp/src/components/NetWorthCalculator.js:61-94 | Running the recount on its own output changes nothing. |
| Aggregation.RecomputeFixesExactlyTotalled | NetWorthCalculator/NetWorthCalculator/ClientApp/src/components/NetWorthCalculator.js:61-94 | The recount leaves a collection unchanged exactly when it is already `Totalled` (both directions). |
| Edits.SetValue | NetWorthCalculator/NetWorthCalculator/ClientApp/src/components/NetWorthCalculator.js:49 | The assignment changes only the addressed category's value. Every other section, group and category is the same, and so is every name and stored total. |
| Edits.AppendGroup | NetWorthCalculator/NetWorthCalculator/ClientApp/src/components/NetWorthCalculator.js:106-113 | `{Name, Categories: [], TotalValue: 0}` is appended after the section's existing groups, which are unchanged. Every other section is unchanged. |
| Edits.AppendCategory | NetWorthCalculator/NetWorthCalculator/ClientApp/src/components/NetWorthCalculator.js:130-136 | `{Name, Value: 0}` is appended to the addressed group's categories. All other groups and sections are unchanged, and so are the group's name and stored total. |
| Edits.DeleteGroupAt | NetWorthCalculator/NetWorthCalculator/ClientApp/src/components/NetWorthCalculator.js:175 | The section's groups lose the group at the index, and the rest keep their order. Every other section is unchanged. |
| Edits.DeleteCategoryAt | NetWorthCalculator/NetWorthCalculator/ClientApp/src/components/NetWorthCalculator.js:195 | The addressed group loses the category at the index, and the rest keep their order. Every other group and section is unchanged. |
| Edits.AppendGroupKeepsTotals | NetWorthCalculator/NetWorthCalculator/ClientApp/src/components/NetWorthCalculator.js:101-117 | `addGroup` runs no recount and needs none: `Totalled` still holds after it. |
| Edits.AppendCategoryKeepsTotals | NetWorthCalculator/NetWorthCalculator/ClientApp/src/components/NetWorthCalculator.js:125-140 | `addCategory` runs no recount and needs none. The new value 0 leaves every total right. |
| Edits.UpdateShiftsTotals | NetWorthCalculator/NetWorthCalculator/ClientApp/src/components/NetWorthCalculator.js:44-56 | After the update and its recount, the addressed group's total and its section's total each move by exactly the new value minus the old one. Every other section is as a plain recount leaves it. |
| Edits.DeleteCategoryLowersTotals | NetWorthCalculator/NetWorthCalculator/ClientApp/src/components/NetWorthCalculator.js:190-202 | After the deletion and its recount, the group's and the section's totals drop by exactly the removed value. Every other section is as a plain recount leaves it. |
| Edits.DeleteGroupLowersTotal | NetWorthCalculator/NetWorthCalculator/ClientApp/src/components/NetWorthCalculator.js:170-182 | After the deletion and its recount, the section's total drops by exactly the sum of the removed group's values. Every other section is as a plain recount leaves it. |
| Calculator.NetWorthCalculator.constructor | NetWorthCalculator/NetWorthCalculator/ClientApp/src/components/NetWorthCalculator.js:6 | The working copy starts empty. |
| Calculator.NetWorthCalculator.GetNetWorthData | NetWorthCalculator/NetWorthCalculator/ClientApp/src/components/NetWorthCalculator.js:17-22 | The working copy becomes the loaded document as it is, stored totals included. |
| Calculator.NetWorthCalculator.CalculateTotals | NetWorthCalculator/NetWorthCalculator/ClientApp/src/components/NetWorthCalculator.js:61-94 | The new state is the recount of the old one: it is `Totalled`, and the tree is unchanged. |
| Calculator.NetWorthCalculator.UpdateCategoryValue | NetWorthCalculator/NetWorthCalculator/ClientApp/src/components/NetWorthCalculator.js:44-56 | The new state is the recount of the old state with the one value set. The totals are right afterwards, and the addressed category holds the new value. |
| Calculator.NetWorthCalculator.AddGroup | NetWorthCalculator/NetWorthCalculator/ClientApp/src/components/NetWorthCalculator.js:101-117 | The new state is the old one with the empty group appended. Correct totals stay correct. |
| Calculator.NetWorthCalculator.AddCategory | NetWorthCalculator/NetWorthCalculator/ClientApp/src/components/NetWorthCalculator.js:125-140 | The new state is the old one with the zero-valued category appended. Correct totals stay correct. |
| Calculator.NetWorthCalculator.ResetSectionForm | NetWorthCalculator/NetWorthCalculator/ClientApp/src/components/NetWorthCalculator.js:153-159 | Only index `sectionIndex` is replaced, with the fetched section, and every other index is untouched. If the old state and the fetched section have correct totals, the new state does too. |
| Calculator.NetWorthCalculator.DeleteGroup | NetWorthCalculator/NetWorthCalculator/ClientApp/src/components/NetWorthCalculator.js:170-182 | The new state is the recount of the old one with the group spliced out. The totals are right afterwards. |
| Calculator.NetWorthCalculator.DeleteCategory | NetWorthCalculator/NetWorthCalculator/ClientApp/src/components/NetWorthCalculator.js:190-202 | The new state is the recount of the old one with the category spliced out. The totals are right afterwards. |
| Calculator.NetWorth | NetWorthCalculator/NetWorthCalculator/ClientApp/src/components/NetWorthCalculator.js:238 | Net worth, section 0's total minus section 1's, exists exactly when at least two sections exist. |
| Calculator.NetWorthShownAsWritten | NetWorthCalculator/NetWorthCalculator/ClientApp/src/components/NetWorthCalculator.js:225 | The render guard `sections.length > 0` admits exactly the collections that have a net worth, plus those of exactly one section. `NetWorthGuardAdmitsOneSection` gives its meaning for the one-section case. |
| Calculator.NetWorthGuardAdmitsOneSection | NetWorthCalculator/NetWorthCalculator/ClientApp/src/components/NetWorthCalculator.js:225-238 | The render guard `sections.length > 0` lets a one-section collection through, and for that collection no net worth exists. |
| Calculator.NetWorthIsLeafDifference | NetWorthCalculator/NetWorthCalculator/ClientApp/src/components/NetWorthCalculator.js:229-238 | With correct totals, net worth is the sum of all numeric asset values minus the sum of all numeric liability values. |
| Calculator.UpdateMovesNetWorth | NetWorthCalculator/NetWorthCalculator/ClientApp/src/components/NetWorthCalculator.js:44-56 | Updating a value in section 0 and recounting moves net worth by the change in that value. Updating one in section 1 moves it by the opposite amount. |
| NumericInput.DigitRun | NetWorthCalculator/NetWorthCalculator/ClientApp/src/components/Table/Table.js:23 | `parseFloat` reads a maximal run of digits: every character of the run is a digit, and the run stops at the end of the text or at a non-digit. |
| NumericInput.ParseFloat | NetWorthCalculator/NetWorthCalculator/ClientApp/src/components/Table/Table.js:23 | `parseFloat` yields a number exactly when the text starts, after an optional sign, with a digit or with a '.' and a digit. Only a leading '-' gives a negative number. `DigitRun` gives the length of each digit run it reads. |
| NumericInput.IndexOf | NetWorthCalculator/NetWorthCalculator/ClientApp/src/components/Table/Table.js:25 | `indexOf('.')` returns -1 exactly when there is no '.'. Otherwise it returns the position of the first '.'. |
| NumericInput.CutAfterCents | NetWorthCalculator/NetWorthCalculator/ClientApp/src/components/Table/Table.js:25-30 | The `substring` cut keeps a prefix of the text with the same first '.', and exactly two characters after that '.' when more follow. Text with no '.', or with at most two characters after it, is kept whole. `CutReadsTruncatedCents` gives what the cut text then reads as. |
| NumericInput.ValidateInput | NetWorthCalculator/NetWorthCalculator/ClientApp/src/components/Table/Table.js:15-38 | The value passed on is never negative. It is 0 when `parseFloat` fails or reads a negative number. Otherwise it is the number read, truncated toward zero to whole cents, by the floor of 100 times the number, over 100. The source cuts the string and parses again; the ensures is stated independently of that. |
| NumericInput.CutReadsTruncatedCents | NetWorthCalculator/NetWorthCalculator/ClientApp/src/components/Table/Table.js:25-33 | When the text parses, parsing the text cut two characters after its first '.' gives the same sign and the magnitude truncated to cents. |
| NumericInput.ValidateInputKeepsCents | NetWorthCalculator/NetWorthCalculator/ClientApp/src/components/Table/Table.js:28-33 | Text with no '.', or with at most two fractional digits, is passed on as exactly the number it reads. |
| NumericInput.ValidateInputWithinACent | NetWorthCalculator/NetWorthCalculator/ClientApp/src/components/Table/Table.js:25-33 | For a non-negative number read, the value passed on is at most that number and less than one cent below it. |
| NumericInput.TruncationExample | NetWorthCalculator/NetWorthCalculator/ClientApp/src/components/Table/Table.js:25-33 | "12.345" becomes 12.34, not 12.35. |
| NumericInput.SecondTruncationExample | NetWorthCalculator/NetWorthCalculator/ClientApp/src/components/Table/Table.js:25-33 | "250.999" becomes 250.99. |
| NumericInput.ExponentCutExample | NetWorthCalculator/NetWorthCalculator/ClientApp/src/components/Table/Table.js:25-33 | "1.5e3" is cut to "1.5e", so the exponent is lost and 1.5 is passed on. |
| NumericInput.CoercionExamples | NetWorthCalculator/NetWorthCalculator/ClientApp/src/components/Table/Table.js:19-23 | "-5", "abc" and the empty text all become 0. |
| Table.CountNamed | NetWorthCalculator/NetWorthCalculator/ClientApp/src/components/Table/Table.js:83 | `filter((x) => x.Name === name).length` counts at most every sibling. `CountNamedPositive` gives its meaning: it is positive exactly when some sibling has the name. |
| Table.CountNamedPositive | NetWorthCalculator/NetWorthCalculator/ClientApp/src/components/Table/Table.js:83 | `filter(x => x.Name === name).length > 0` holds exactly when some sibling has that exact, case-sensitive name. |
| Table.CheckName | NetWorthCalculator/NetWorthCalculator/ClientApp/src/components/Table/Table.js:81-87 | An empty name is refused. Otherwise a name a sibling already has is refused as a duplicate. Otherwise the name is accepted. Each verdict is stated as an if-and-only-if. |
| Table.AcceptedNameStaysDistinct | NetWorthCalculator/NetWorthCalculator/ClientApp/src/components/Table/Table.js:83-87 | Appending an accepted name to distinct sibling names keeps them distinct. |
| Table.AddGroupKeepsNamesDistinct | NetWorthCalculator/NetWorthCalculator/ClientApp/src/components/Table/Table.js:83-87 | After `addGroup` with an accepted name, the section's group names are still distinct. |
| Table.AddCategoryKeepsNamesDistinct | NetWorthCalculator/NetWorthCalculator/ClientApp/src/components/Table/Table.js:109-113 | After `addCategory` with an accepted name, the group's category names are still distinct. |
| Table.SectionTable.constructor | NetWorthCalculator/NetWorthCalculator/ClientApp/src/components/Table/Table.js:5 | A table starts out of edit mode. |
| Table.SectionTable.OnValueInput | NetWorthCalculator/NetWorthCalculator/ClientApp/src/components/Table/Table.js:15-38 | One input event makes exactly one `updateCategoryValue` call, with the coerced value. The category then holds a number that is not negative. |
| Table.SectionTable.ToggleSectionEdit | NetWorthCalculator/NetWorthCalculator/ClientApp/src/components/Table/Table.js:43-45 | Each call flips `edit`, so the toggle is its own inverse. |
| Table.SectionTable.CancelChanges | NetWorthCalculator/NetWorthCalculator/ClientApp/src/components/Table/Table.js:50-56 | The section is replaced by the fetched one, every other section is untouched, and then `edit` flips. |
| Table.SectionTable.SubmitChanges | NetWorthCalculator/NetWorthCalculator/ClientApp/src/components/Table/Table.js:61-67 | The working section is posted as it is, the working copy is unchanged, and then `edit` flips. |
| Table.SectionTable.ValidateGroup | NetWorthCalculator/NetWorthCalculator/ClientApp/src/components/Table/Table.js:73-92 | An empty or duplicate name leaves the working copy unchanged. Otherwise `addGroup` happens exactly once with that name. Distinct group names stay distinct. |
| Table.SectionTable.ValidateCategory | NetWorthCalculator/NetWorthCalculator/ClientApp/src/components/Table/Table.js:99-118 | The same checks, scoped to the addressed group's categories. Distinct category names stay distinct. |

## Left out

- NumericInput.ValidateInput: `parseFloat` is modelled on an optional sign, digits, an optional '.' and digits. Leading white space, exponents and "Infinity" are not modelled. A number input can hold exponent form, such as "1e3". With no '.', no cut happens and the source passes on the full value (1000), but the model reads only the digits before the 'e' (1). With a '.', the cut can remove the exponent in the source as well: "1.5e3" is cut to "1.5e", so both pass on 1.5 (`ExponentCutExample`).
- Floating point: values and totals are exact reals. The rounding of IEEE additions in the accumulators is not modelled.
- Network and server: the `fetch` calls of `getNetWorthData`, `saveNetWorthSection` and `resetSectionForm` are not modelled, and neither is their asynchrony. Only the state change after a successful response is modelled. The section returned by the store's lookup by name is a parameter of `ResetSectionForm` and `CancelChanges`. A failed lookup, whose body the client would store unchecked, is not modelled. NetWorthController.cs (file reads and writes, JSON, HTTP results) is not part of this model.
- `saveNetWorthSection`: the client keeps no state about the save. `SubmitChanges` returns the posted section, and nothing models the stored document.
- React: `setSections` batching and the shallow copy `[...sections]` are not modelled. That copy shares the group objects of the previous state. Each operation is one sequential update of the working copy.
- Indices: a section index, or a group or category index that the source reads through (NetWorthCalculator.js:49, 136, 195), makes the source throw a TypeError when it is past the end, so the methods require valid ones. The last index given to `splice` in `deleteGroup` and `deleteCategory` may be past the end: then nothing is removed, as `RemoveAt` models. A past-the-end index in `resetSectionForm` would grow the array with holes, so it is required to be in range. Negative indices, which `splice` counts from the end, are not modelled: indices are `nat`.
- DOM and rendering: `window.alert` warnings are the `NameCheck` results. `window.confirm` in `confirmGroupDelete` and `confirmCategoryDelete` is left out: the delete methods are the confirmed path. The missing-element case of `getElementById` is left out, and so are `form.reset()`, currency formatting and which buttons each mode renders.
- App.js is routing only and is not part of this model.

## Findings

| source | as written | input that shows it | evidently intended | confidence | as-written member | corrected member |
|---|---|---|---|---|---|---|
| NetWorthCalculator/NetWorthCalculator/ClientApp/src/components/NetWorthCalculator.js:225-238 | The net-worth table renders when `sections.length > 0`, and then reads `sections[1].TotalValue`. | A stored document holding one section, such as `[{Name: "Assets", Groups: [], TotalValue: 0}]`: the guard passes and `sections[1]` is undefined. | Show net worth only when section 0 and section 1 both exist. | not executed | Calculator.NetWorthGuardAdmitsOneSection | Calculator.NetWorth |
