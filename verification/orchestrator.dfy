/** `install_selected`: run `run_install` on every selected entry, in registry
    order. The install actions themselves are opaque; the result is the ordered
    trace of attempts, each with what `run_install` decided for that entry. */
module Orchestrator {

  import opened Software
  import opened SelectionState

  /** One `>>> name` block of the batch: the entry and what `run_install` did. */
  datatype Attempt = Attempt(index: nat, outcome: Outcome)

  /** What pressing Enter produced: the "Nothing selected" notice, or a batch of
      `count` attempts. */
  datatype Report = NothingSelected | Batch(count: nat, attempts: seq<Attempt>)

  /** `sum(selected)`. */
  function Count(sel: Selection): (c: nat)
    ensures c <= |sel|
    ensures c == 0 <==> forall i :: 0 <= i < |sel| ==> !sel[i]
  {
    if |sel| == 0 then 0 else (if sel[0] then 1 else 0) + Count(sel[1..])
  }

  /** The indices at or after `from` whose flag is set, in ascending order. */
  function SelectedFrom(sel: Selection, from: nat): (r: seq<nat>)
    requires from <= |sel|
    ensures Ascending(r)
    ensures forall k :: 0 <= k < |r| ==> from <= r[k] < |sel| && sel[r[k]]
    ensures forall i :: from <= i < |sel| && sel[i] ==> i in r
    decreases |sel| - from
  {
    if from == |sel| then []
    else if sel[from] then [from] + SelectedFrom(sel, from + 1)
    else SelectedFrom(sel, from + 1)
  }

  /** Exactly one entry per selected flag. */
  lemma {:induction false} SelectedFromCount(sel: Selection, from: nat)
    requires from <= |sel|
    ensures |SelectedFrom(sel, from)| == Count(sel[from..])
    decreases |sel| - from
  {
    if from < |sel| {
      assert sel[from..][1..] == sel[from + 1..];
      SelectedFromCount(sel, from + 1);
    }
  }

  /** The `for i, sel in enumerate(selected)` loop: one attempt per listed index. */
  function AttemptsOf(reg: seq<Descriptor>, path: Path, idxs: seq<nat>): (r: seq<Attempt>)
    requires forall k :: 0 <= k < |idxs| ==> idxs[k] < |reg|
    ensures |r| == |idxs|
    ensures forall k :: 0 <= k < |r| ==>
      r[k].index == idxs[k] && r[k].outcome == RunInstall(reg[idxs[k]], path)
    decreases |idxs|
  {
    if |idxs| == 0 then [] else [Attempt(idxs[0], RunInstall(reg[idxs[0]], path))] + AttemptsOf(reg, path, idxs[1..])
  }

  /** `install_selected`. With nothing selected it reports so and runs nothing;
      otherwise every selected entry is attempted exactly once, in ascending
      index order, and no unselected entry is attempted. */
  function InstallSelected(reg: seq<Descriptor>, path: Path, sel: Selection): (r: Report)
    requires |sel| == |reg|
    ensures r.NothingSelected? <==> forall i :: 0 <= i < |sel| ==> !sel[i]
    ensures r.Batch? ==> r.count == |r.attempts| > 0
    ensures r.Batch? ==> forall j, k :: 0 <= j < k < |r.attempts| ==>
      r.attempts[j].index < r.attempts[k].index
    ensures r.Batch? ==> forall k :: 0 <= k < |r.attempts| ==>
      r.attempts[k].index < |reg| && sel[r.attempts[k].index]
      && r.attempts[k].outcome == RunInstall(reg[r.attempts[k].index], path)
    ensures r.Batch? ==> forall i :: 0 <= i < |sel| && sel[i] ==>
      exists k :: 0 <= k < |r.attempts| && r.attempts[k].index == i
  {
    var count := Count(sel);
    if count == 0 then NothingSelected
    else
      var idxs := SelectedFrom(sel, 0);
      SelectedFromCount(sel, 0);
      assert sel[0..] == sel;
      var attempts := AttemptsOf(reg, path, idxs);
      assert forall i :: 0 <= i < |sel| && sel[i] ==> attempts[IndexOf(idxs, i)].index == i;
      Batch(count, attempts)
  }

  /** Position of a member of a list. */
  function IndexOf(xs: seq<nat>, x: nat): (k: nat)
    requires x in xs
    ensures k < |xs| && xs[k] == x
  {
    if xs[0] == x then 0 else 1 + IndexOf(xs[1..], x)
  }

  /** The install actions a batch ran, in order: the trace of opaque installs. */
  function InstallsOf(attempts: seq<Attempt>): (t: seq<nat>)
    ensures |t| <= |attempts|
    ensures forall x :: x in t <==> Attempt(x, Installing) in attempts
    decreases |attempts|
  {
    if |attempts| == 0 then []
    else
      var rest := InstallsOf(attempts[1..]);
      assert forall x :: Attempt(x, Installing) in attempts <==>
        (attempts[0] == Attempt(x, Installing) || Attempt(x, Installing) in attempts[1..]);
      if attempts[0].outcome == Installing then [attempts[0].index] + rest else rest
  }

  /** Attempts in ascending index order yield installs in ascending order. */
  lemma {:induction false} InstallsOfAscending(attempts: seq<Attempt>)
    requires forall j, k :: 0 <= j < k < |attempts| ==> attempts[j].index < attempts[k].index
    ensures Ascending(InstallsOf(attempts))
    decreases |attempts|
  {
    if |attempts| > 0 {
      var rest := InstallsOf(attempts[1..]);
      InstallsOfAscending(attempts[1..]);
      forall k | 0 <= k < |rest|
        ensures attempts[0].index < rest[k]
      {
        assert rest[k] in rest;
        var j :| 0 <= j < |attempts[1..]| && attempts[1..][j] == Attempt(rest[k], Installing);
        assert attempts[j + 1].index == rest[k];
      }
    }
  }

  /** The install actions that run when Enter is pressed: in ascending index
      order, exactly those of the selected entries that `run_install` does not
      skip; none at all when nothing is selected. */
  function Installs(reg: seq<Descriptor>, path: Path, sel: Selection): (t: seq<nat>)
    requires |sel| == |reg|
    ensures Ascending(t)
    ensures forall k :: 0 <= k < |t| ==> t[k] < |reg|
    ensures forall i :: 0 <= i < |reg| ==> (i in t <==> sel[i] && RunInstall(reg[i], path) == Installing)
  {
    match InstallSelected(reg, path, sel)
    case NothingSelected => []
    case Batch(_, attempts) =>
      InstallsOfAscending(attempts);
      var t := InstallsOf(attempts);
      assert forall k :: 0 <= k < |t| ==> t[k] < |reg| by {
        forall k | 0 <= k < |t| ensures t[k] < |reg| {
          assert t[k] in t;
        }
      }
      t
  }

  /** When no entry has an empty check command, the installs that run are exactly the selected
      entries that are not installed. */
  lemma InstallsAreSelectedMissing(reg: seq<Descriptor>, path: Path, sel: Selection)
    requires |sel| == |reg|
    requires forall i :: 0 <= i < |reg| ==> NonEmptyCheck(reg[i])
    ensures forall i :: 0 <= i < |reg| ==>
      (i in Installs(reg, path, sel) <==> sel[i] && !IsInstalled(reg[i], path))
  {
  }
}
