/** Concrete sessions on a three-entry registry: Git (checked by `git`, base),
    Claude Code (checked by `claude`, vibe) and vibe-kanban (no check, vibe). */
module Scenarios {

  import opened Wrappers
  import opened Decimal
  import opened Software
  import opened SelectionState
  import opened Orchestrator
  import opened Menu

  const TRIO: seq<Descriptor> := [
    Descriptor("Git", Some("git"), Base),
    Descriptor("Claude Code", Some("claude"), Vibe),
    Descriptor("vibe-kanban", None, Vibe)
  ]

  /** `a` from the start-up state selects Git alone. */
  lemma SelectBaseOnTrio(path: Path)
    ensures Step(TRIO, path, Initial(3), "a") == Turn([true, false, false], None, false)
  {
  }

  /** With Git alone selected and `git` on the path, the batch has one attempt
      and `run_install` reports Git already installed. */
  lemma InstallGitPresent(path: Path)
    requires "git" in path
    ensures InstallSelected(TRIO, path, [true, false, false]) == Batch(1, [Attempt(0, AlreadyInstalled)])
    ensures Installs(TRIO, path, [true, false, false]) == []
  {
  }

  /** Enter with Git alone selected and `git` on the path: the batch reports Git
      already installed, and then "Press Enter to continue" is shown. */
  lemma EnterWithGitSelected(path: Path)
    requires "git" in path
    ensures var t := Step(TRIO, path, [true, false, false], "");
      && t == Turn([true, false, false], Some(Batch(1, [Attempt(0, AlreadyInstalled)])), false)
      && AwaitsAcknowledgement(t)
  {
    InstallGitPresent(path);
  }

  /** With Git selected and `git` on the path: Enter, Enter, `q` runs the batch,
      acknowledges it, and quits. */
  lemma InstallAcknowledgeQuit(path: Path)
    requires "git" in path
    ensures Run(TRIO, [true, false, false], [Input("", path), Input("", path), Input("q", path)])
      == Session([true, false, false], [Batch(1, [Attempt(0, AlreadyInstalled)])], ["", "q"], true)
  {
    var s1: Selection := [true, false, false];
    var quit := [Input("q", path)];
    var afterInstall := [Input("", path)] + quit;
    EnterWithGitSelected(path);
    RunStep(TRIO, s1, Input("q", path), []);
    assert [Input("q", path)] + [] == quit;
    RunStep(TRIO, s1, Input("", path), afterInstall);
    assert [Input("", path)] + afterInstall == [Input("", path), Input("", path), Input("q", path)];
  }

  /** `a`, Enter, Enter, `q` with `git` on the path: Git alone is selected,
      the batch reports it already installed and runs no install action, the
      second Enter answers "Press Enter to continue", and `q` quits. */
  lemma SelectBaseInstallQuit(path: Path)
    requires "git" in path
    ensures Run(TRIO, Initial(3), [Input("a", path), Input("", path), Input("", path), Input("q", path)])
        == Session([true, false, false], [Batch(1, [Attempt(0, AlreadyInstalled)])], ["a", "", "q"], true)
  {
    var tail := [Input("", path), Input("", path), Input("q", path)];
    SelectBaseOnTrio(path);
    InstallAcknowledgeQuit(path);
    RunStep(TRIO, Initial(3), Input("a", path), tail);
    assert [Input("a", path)] + tail
      == [Input("a", path), Input("", path), Input("", path), Input("q", path)];
    assert ["a"] + ["", "q"] == ["a", "", "q"];
  }

  /** `a`, Enter, `q` with `git` on the path: the `q` answers "Press Enter
      to continue", so the loop neither quits nor dispatches it. */
  lemma QuitAtAcknowledgementIsSwallowed(path: Path)
    requires "git" in path
    ensures Run(TRIO, Initial(3), [Input("a", path), Input("", path), Input("q", path)])
        == Session([true, false, false], [Batch(1, [Attempt(0, AlreadyInstalled)])], ["a", ""], false)
  {
    var s1: Selection := [true, false, false];
    var afterSelect := [Input("", path)] + [Input("q", path)];
    SelectBaseOnTrio(path);
    EnterWithGitSelected(path);
    RunStep(TRIO, s1, Input("", path), [Input("q", path)]);
    RunStep(TRIO, Initial(3), Input("a", path), afterSelect);
    assert [Input("a", path)] + afterSelect == [Input("a", path), Input("", path), Input("q", path)];
  }

  /** `m` with only `git` on the path selects everything except Git, including
      the entry that has no check command. */
  lemma MissingWithGitOnly()
    ensures Step(TRIO, {"git"}, Initial(3), "m").sel == [false, true, true]
  {
  }

  /** Typing `2` twice then Enter: nothing is selected, so nothing is installed
      and no acknowledgement is asked for. */
  lemma ToggleTwiceThenInstall(path: Path)
    ensures Run(TRIO, Initial(3), [Input("2", path), Input("2", path), Input("", path)])
      == Session([false, false, false], [NothingSelected], ["2", "2", ""], false)
  {
    assert Parse("2", 3) == ToggleNumber(2) by {
      assert IsDigits("2") && Value("2") == 2;
    }
    var s0 := Initial(3);
    var s1: Selection := [false, true, false];
    assert Step(TRIO, path, s0, "2") == Turn(s1, None, false);
    assert Step(TRIO, path, s1, "2") == Turn(s0, None, false);
    assert Step(TRIO, path, s0, "") == Turn(s0, Some(NothingSelected), false);
    var last := [Input("", path)];
    var second := [Input("2", path)] + last;
    RunStep(TRIO, s0, Input("", path), []);
    assert [Input("", path)] + [] == last;
    RunStep(TRIO, s1, Input("2", path), last);
    RunStep(TRIO, s0, Input("2", path), second);
    assert [Input("2", path)] + second == [Input("2", path), Input("2", path), Input("", path)];
  }
}
