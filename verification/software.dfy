/** One installable package and the fixed registry of them.

    Presence on the host is abstracted as `Path`: the set of command names that
    the executable search path resolves (what `shutil.which` would find). The
    install action itself is opaque; it is identified by the entry's index. */
module Software {

  import opened Wrappers

  /** The two display and bulk-selection groups, `"base"` and `"vibe"`. */
  datatype Category = Base | Vibe

  datatype Descriptor = Descriptor(name: string, checkCmd: Option<string>, category: Category)

  /** Command names resolvable on the executable search path. */
  type Path = set<string>

  /** What `run_install` does for one entry: report it present, or run its install action. */
  datatype Outcome = AlreadyInstalled | Installing

  /** `is_installed`: an entry without a check command is never installed;
      otherwise it is installed exactly when its command resolves. */
  function IsInstalled(d: Descriptor, path: Path): (r: bool)
    ensures d.checkCmd.None? ==> !r
    ensures r ==> d.checkCmd.value in path
    ensures d.checkCmd.Some? && d.checkCmd.value in path ==> r
  {
    match d.checkCmd
    case None => false
    case Some(cmd) => cmd in path
  }

  /** Python truthiness of an optional string: present and non-empty. */
  predicate Truthy(o: Option<string>) {
    o.Some? && o.value != ""
  }

  /** `run_install`: skip when a (non-empty) check command resolves, else install. */
  function RunInstall(d: Descriptor, path: Path): (r: Outcome)
    ensures r == AlreadyInstalled <==> (Truthy(d.checkCmd) && d.checkCmd.value in path)
    ensures d.checkCmd.None? ==> r == Installing
  {
    if Truthy(d.checkCmd) && IsInstalled(d, path) then AlreadyInstalled else Installing
  }

  /** The entry's check command, if it has one, is a real (non-empty) name. */
  predicate NonEmptyCheck(d: Descriptor) {
    d.checkCmd != Some("")
  }

  /** A registry entry: a display name and, if any, a non-empty check command. */
  predicate WellFormed(d: Descriptor) {
    d.name != "" && NonEmptyCheck(d)
  }

  /** For an entry whose check command is not empty the install action runs
      exactly when the entry is not installed; in particular an entry with no
      check command always runs, whatever the search path holds. */
  lemma RunsExactlyWhenMissing(d: Descriptor, path: Path)
    requires NonEmptyCheck(d)
    ensures RunInstall(d, path) == Installing <==> !IsInstalled(d, path)
  {
  }

  /** An entry without a check command is reported missing on every search path. */
  lemma NoCheckNeverInstalled(d: Descriptor)
    requires d.checkCmd.None?
    ensures forall path: Path :: !IsInstalled(d, path) && RunInstall(d, path) == Installing
  {
  }

  /** The registry, in menu order (menu number = index + 1). */
  const SOFTWARE: seq<Descriptor> := [
    Descriptor("Homebrew", Some("brew"), Base),
    Descriptor("Git", Some("git"), Base),
    Descriptor("Tmux", Some("tmux"), Base),
    Descriptor("Node.js", Some("node"), Base),
    Descriptor("Bun", Some("bun"), Base),
    Descriptor("uv", Some("uv"), Base),
    Descriptor("Conda", Some("conda"), Base),
    Descriptor("Starship", Some("starship"), Base),
    Descriptor("1Password CLI", Some("op"), Base),
    Descriptor("Claude Code", Some("claude"), Vibe),
    Descriptor("Codex", Some("codex"), Vibe),
    Descriptor("opencode-ai", Some("opencode"), Vibe),
    Descriptor("openspec", Some("openspec"), Vibe),
    Descriptor("oh-my-opencode", None, Vibe),
    Descriptor("vibe-kanban", None, Vibe)
  ]

  /** Strictly increasing, hence free of duplicates. */
  predicate Ascending(xs: seq<nat>) {
    forall j, k :: 0 <= j < k < |xs| ==> xs[j] < xs[k]
  }

  /** The indices at or after `from` whose category is `cat`, in order. */
  function IndicesFrom(reg: seq<Descriptor>, cat: Category, from: nat): (r: seq<nat>)
    requires from <= |reg|
    ensures Ascending(r)
    ensures forall k :: 0 <= k < |r| ==> from <= r[k] < |reg| && reg[r[k]].category == cat
    ensures forall i :: from <= i < |reg| && reg[i].category == cat ==> i in r
    decreases |reg| - from
  {
    if from == |reg| then []
    else if reg[from].category == cat then [from] + IndicesFrom(reg, cat, from + 1)
    else IndicesFrom(reg, cat, from + 1)
  }

  /** `get_indices_by_category`: ascending indices of exactly the entries in `cat`. */
  function IndicesByCategory(reg: seq<Descriptor>, cat: Category): (r: seq<nat>)
    ensures Ascending(r)
    ensures forall k :: 0 <= k < |r| ==> r[k] < |reg|
    ensures forall i :: 0 <= i < |reg| ==> (i in r <==> reg[i].category == cat)
  {
    IndicesFrom(reg, cat, 0)
  }

  /** Both groups together hold as many indices as the registry has entries. */
  lemma {:induction false} IndicesFromSplit(reg: seq<Descriptor>, from: nat)
    requires from <= |reg|
    ensures |IndicesFrom(reg, Base, from)| + |IndicesFrom(reg, Vibe, from)| == |reg| - from
    decreases |reg| - from
  {
    if from < |reg| {
      IndicesFromSplit(reg, from + 1);
    }
  }

  /** The base and vibe index lists partition `0 .. |reg|-1`: every index is in
      exactly one of them, nothing else is, and their lengths add up. */
  lemma CategoriesPartition(reg: seq<Descriptor>)
    ensures var b, v := IndicesByCategory(reg, Base), IndicesByCategory(reg, Vibe);
      && (forall i :: 0 <= i < |reg| ==> (i in b <==> i !in v))
      && (forall k :: 0 <= k < |b| ==> b[k] < |reg|)
      && (forall k :: 0 <= k < |v| ==> v[k] < |reg|)
      && |b| + |v| == |reg|
  {
    IndicesFromSplit(reg, 0);
  }

  /** The shipped registry: fifteen well-formed entries, nine base then six vibe,
      and only the last two (the `npx`-run tools) lack a check command. */
  lemma SoftwareShape()
    ensures |SOFTWARE| == 15
    ensures forall i :: 0 <= i < |SOFTWARE| ==> WellFormed(SOFTWARE[i])
    ensures forall i :: 0 <= i < |SOFTWARE| ==> (SOFTWARE[i].category == Base <==> i < 9)
    ensures forall i :: 0 <= i < |SOFTWARE| ==> (SOFTWARE[i].checkCmd.None? <==> i >= 13)
  {
  }

  /** On the shipped registry the base group is menu items 1-9 and the vibe group 10-15. */
  lemma SoftwareGroups()
    ensures IndicesByCategory(SOFTWARE, Base) == seq(9, k => k)
    ensures IndicesByCategory(SOFTWARE, Vibe) == seq(6, k => 9 + k)
  {
    SoftwareShape();
    NineThenSix(SOFTWARE);
  }

  /** Any fifteen-entry registry laid out as nine base entries then six vibe ones. */
  lemma NineThenSix(reg: seq<Descriptor>)
    requires |reg| == 15
    requires forall i :: 0 <= i < |reg| ==> (reg[i].category == Base <==> i < 9)
    ensures IndicesByCategory(reg, Base) == seq(9, k => k)
    ensures IndicesByCategory(reg, Vibe) == seq(6, k => 9 + k)
  {
    GroupRange(reg, Base, 0, 9);
    GroupRange(reg, Vibe, 9, 15);
  }

  /** If the entries in `cat` are exactly those at `lo .. hi-1`, the group's
      index list is that range. */
  lemma GroupRange(reg: seq<Descriptor>, cat: Category, lo: nat, hi: nat)
    requires lo <= hi <= |reg|
    requires forall i :: 0 <= i < |reg| ==> (reg[i].category == cat <==> lo <= i < hi)
    ensures IndicesByCategory(reg, cat) == seq(hi - lo, k => lo + k)
  {
    var xs := IndicesByCategory(reg, cat);
    AscendingIsRange(xs, lo, hi);
  }

  /** An ascending list whose members are exactly `lo .. hi-1` is that range. */
  lemma {:induction false} AscendingIsRange(xs: seq<nat>, lo: nat, hi: nat)
    requires lo <= hi
    requires Ascending(xs)
    requires forall k :: 0 <= k < |xs| ==> lo <= xs[k] < hi
    requires forall i :: lo <= i < hi ==> i in xs
    ensures |xs| == hi - lo
    ensures forall k :: 0 <= k < |xs| ==> xs[k] == lo + k
    decreases hi - lo
  {
    if lo < hi {
      assert lo in xs;
      assert xs[0] == lo;
      var tail := xs[1..];
      forall i | lo + 1 <= i < hi
        ensures i in tail
      {
        assert i in xs;
        var m :| 0 <= m < |xs| && xs[m] == i;
        assert m != 0;
        assert tail[m - 1] == i;
      }
      AscendingIsRange(tail, lo + 1, hi);
    } else {
      BoundedLength(xs, lo, hi);
    }
  }

  /** An ascending list drawn from `lo .. hi-1` has at most `hi - lo` members. */
  lemma {:induction false} BoundedLength(xs: seq<nat>, lo: int, hi: int)
    requires Ascending(xs)
    requires forall k :: 0 <= k < |xs| ==> lo <= xs[k] < hi
    ensures |xs| <= hi - lo || |xs| == 0
  {
    if |xs| > 0 {
      BoundedLength(xs[1..], xs[0] + 1, hi);
    }
  }
}
