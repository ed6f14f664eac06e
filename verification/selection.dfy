/** The selection state: one flag per registry entry, and the bulk and single
    transitions the menu applies to it. */
module SelectionState {

  import opened Software

  type Selection = seq<bool>

  /** `[False] * n`: the state at start-up and after `c`. */
  function Cleared(n: nat): (r: Selection)
    ensures |r| == n
    ensures forall i :: 0 <= i < n ==> !r[i]
  {
    seq(n, _ => false)
  }

  /** `[True] * n`: the state after `A`. */
  function AllSelected(n: nat): (r: Selection)
    ensures |r| == n
    ensures forall i :: 0 <= i < n ==> r[i]
  {
    seq(n, _ => true)
  }

  /** `selected[idx] = not selected[idx]`: flips one entry and nothing else. */
  function Toggle(sel: Selection, idx: nat): (r: Selection)
    requires idx < |sel|
    ensures |r| == |sel|
    ensures r[idx] == !sel[idx]
    ensures forall j :: 0 <= j < |sel| && j != idx ==> r[j] == sel[j]
  {
    sel[idx := !sel[idx]]
  }

  /** Toggling the same entry twice restores the state. */
  lemma ToggleTwice(sel: Selection, idx: nat)
    requires idx < |sel|
    ensures Toggle(Toggle(sel, idx), idx) == sel
  {
  }

  /** `for i in idxs: selected[i] = True`: sets exactly the listed entries,
      clears nothing. */
  function Mark(sel: Selection, idxs: seq<nat>): (r: Selection)
    requires forall k :: 0 <= k < |idxs| ==> idxs[k] < |sel|
    ensures |r| == |sel|
    ensures forall i :: 0 <= i < |sel| ==> (r[i] <==> sel[i] || i in idxs)
    decreases |idxs|
  {
    if |idxs| == 0 then sel else Mark(sel[idxs[0] := true], idxs[1..])
  }

  /** `a` / `v`: select every entry of the category, leave the others alone. */
  function SelectCategory(reg: seq<Descriptor>, sel: Selection, cat: Category): (r: Selection)
    requires |sel| == |reg|
    ensures |r| == |reg|
    ensures forall i :: 0 <= i < |reg| && reg[i].category == cat ==> r[i]
    ensures forall i :: 0 <= i < |reg| && reg[i].category != cat ==> r[i] == sel[i]
  {
    Mark(sel, IndicesByCategory(reg, cat))
  }

  /** The `m` loop from entry `from` on: select each entry that is not installed. */
  function MarkMissingFrom(reg: seq<Descriptor>, path: Path, sel: Selection, from: nat): (r: Selection)
    requires |sel| == |reg| && from <= |reg|
    ensures |r| == |reg|
    ensures forall i :: 0 <= i < |reg| ==>
      (r[i] <==> sel[i] || (from <= i && !IsInstalled(reg[i], path)))
    decreases |reg| - from
  {
    if from == |reg| then sel
    else
      var next := if !IsInstalled(reg[from], path) then sel[from := true] else sel;
      MarkMissingFrom(reg, path, next, from + 1)
  }

  /** `m`: select every entry that is not installed; installed entries keep their flag. */
  function SelectMissing(reg: seq<Descriptor>, path: Path, sel: Selection): (r: Selection)
    requires |sel| == |reg|
    ensures |r| == |reg|
    ensures forall i :: 0 <= i < |reg| && !IsInstalled(reg[i], path) ==> r[i]
    ensures forall i :: 0 <= i < |reg| && IsInstalled(reg[i], path) ==> r[i] == sel[i]
  {
    MarkMissingFrom(reg, path, sel, 0)
  }

  /** Applying `m` twice on an unchanged search path is the same as applying it once. */
  lemma SelectMissingIdempotent(reg: seq<Descriptor>, path: Path, sel: Selection)
    requires |sel| == |reg|
    ensures SelectMissing(reg, path, SelectMissing(reg, path, sel)) == SelectMissing(reg, path, sel)
  {
  }

  /** From a cleared state `m` selects exactly the entries that are not installed. */
  lemma SelectMissingFromCleared(reg: seq<Descriptor>, path: Path)
    ensures var r := SelectMissing(reg, path, Cleared(|reg|));
      forall i :: 0 <= i < |reg| ==> (r[i] <==> !IsInstalled(reg[i], path))
  {
  }

  /** `a` and `v` are idempotent. */
  lemma SelectCategoryIdempotent(reg: seq<Descriptor>, sel: Selection, cat: Category)
    requires |sel| == |reg|
    ensures SelectCategory(reg, SelectCategory(reg, sel, cat), cat) == SelectCategory(reg, sel, cat)
  {
  }

  /** `a` then `v` (in either order) selects everything, the same as `A`. */
  lemma BaseAndVibeSelectAll(reg: seq<Descriptor>, sel: Selection)
    requires |sel| == |reg|
    ensures SelectCategory(reg, SelectCategory(reg, sel, Base), Vibe) == AllSelected(|reg|)
    ensures SelectCategory(reg, SelectCategory(reg, sel, Vibe), Base) == AllSelected(|reg|)
  {
  }

  /** On the shipped registry `m` always selects the two `npx`-run entries,
      whatever is on the search path. */
  lemma MissingAlwaysSelectsUnchecked(path: Path, sel: Selection)
    requires |sel| == |SOFTWARE|
    ensures SelectMissing(SOFTWARE, path, sel)[13] && SelectMissing(SOFTWARE, path, sel)[14]
  {
  }
}
