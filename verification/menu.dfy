/** The command dispatch of `main`: one input line per turn, parsed into a
    command and applied to the selection; Enter runs the install batch and
    `q`/`Q` ends the loop. */
module Menu {

  import opened Wrappers
  import opened Decimal
  import opened Software
  import opened SelectionState
  import opened Orchestrator

  /** What one input line means. `ToggleNumber(k)` carries the menu number `k`, 1-based. */
  datatype Command =
    | ToggleNumber(k: nat)
    | SelectBase
    | SelectVibe
    | SelectEverything
    | ClearAll
    | SelectMissingOnes
    | Install
    | Quit
    | Ignore

  /** The `if`/`elif` chain of `main`, first match wins; matching is
      case-sensitive except for quitting. */
  function Parse(choice: string, n: nat): (c: Command)
    ensures c.ToggleNumber? <==> IsDigits(choice) && 1 <= Value(choice) <= n
    ensures c.ToggleNumber? ==> c.k == Value(choice) && 1 <= c.k <= n
    ensures c == SelectBase <==> choice == "a"
    ensures c == SelectVibe <==> choice == "v"
    ensures c == SelectEverything <==> choice == "A"
    ensures c == ClearAll <==> choice == "c"
    ensures c == SelectMissingOnes <==> choice == "m"
    ensures c == Install <==> choice == ""
    ensures c == Quit <==> choice == "q" || choice == "Q"
  {
    if IsDigits(choice) && 1 <= Value(choice) <= n then ToggleNumber(Value(choice))
    else if choice == "a" then SelectBase
    else if choice == "v" then SelectVibe
    else if choice == "A" then SelectEverything
    else if choice == "c" then ClearAll
    else if choice == "m" then SelectMissingOnes
    else if choice == "" then Install
    else if choice == "q" || choice == "Q" then Quit
    else Ignore
  }

  /** A command is meaningful for an `n`-entry menu when its number is on the menu. */
  predicate Valid(c: Command, n: nat) {
    c.ToggleNumber? ==> 1 <= c.k <= n
  }

  /** The line a user types for a command (`x` standing for any unrecognised line). */
  function Line(c: Command): string {
    match c
    case ToggleNumber(k) => Spell(k)
    case SelectBase => "a"
    case SelectVibe => "v"
    case SelectEverything => "A"
    case ClearAll => "c"
    case SelectMissingOnes => "m"
    case Install => ""
    case Quit => "q"
    case Ignore => "x"
  }

  /** Every command on the menu is recognised from the line that spells it. */
  lemma ParseSpell(c: Command, n: nat)
    requires Valid(c, n)
    ensures Parse(Line(c), n) == c
  {
    if c.ToggleNumber? {
      ValueOfSpell(c.k);
    }
  }

  /** Every parsed command is on the menu. */
  lemma ParseValid(choice: string, n: nat)
    ensures Valid(Parse(choice, n), n)
  {
  }

  /** Numbers outside `1..n` and wrong-case letters are ignored; a leading zero
      is accepted; either case of `q` quits. */
  lemma ParseEdgeCases()
    ensures Parse("0", 15) == Ignore
    ensures Parse("16", 15) == Ignore
    ensures Parse("07", 15) == ToggleNumber(7)
    ensures Parse("M", 15) == Ignore
    ensures Parse("x", 15) == Ignore
    ensures Parse("Q", 15) == Quit
  {
  }

  /** Superscript one, two and three: characters Python's `str.isdigit` accepts
      but `int` rejects (a subset of the digit characters that are not decimal). */
  predicate IsSuperscriptDigit(c: char) {
    c == '\U{B9}' || c == '\U{B2}' || c == '\U{B3}'
  }

  /** The guard as written, `choice.isdigit()`, over ASCII and superscript digits. */
  predicate IsDigitsAsWritten(choice: string) {
    |choice| > 0 && forall i :: 0 <= i < |choice| ==> IsDigit(choice[i]) || IsSuperscriptDigit(choice[i])
  }

  /** Python's default limit on the digits `int` converts from a string
      (`sys.get_int_max_str_digits()`, since Python 3.11 and in security
      releases of 3.7 to 3.10); a longer numeral raises. */
  const MaxIntDigits: nat := 4300

  /** A line handled by `main` as written: either a command, or the `ValueError`
      that `int(choice)` raises and that nothing catches. */
  datatype Handled = Handled(cmd: Command) | Crashed

  /** The first branch of the chain as written, over ASCII and superscript
      characters: `isdigit` lets a superscript digit, or a numeral longer than
      `int` converts, through to `int`, which raises; every line that passes
      `isdigit` and that `int` reads, and every line that fails `isdigit`, is
      dispatched as `Parse` does. */
  function ParseAsWritten(choice: string, n: nat): (h: Handled)
    ensures h.Crashed? <==>
      IsDigitsAsWritten(choice) && (!IsDigits(choice) || |choice| > MaxIntDigits)
    ensures h.Handled? ==> h.cmd == Parse(choice, n)
  {
    if IsDigitsAsWritten(choice) && (!AllDigits(choice) || |choice| > MaxIntDigits) then Crashed
    else Handled(Parse(choice, n))
  }

  /** Typing `²` at the prompt ends the program with an uncaught exception. */
  lemma SuperscriptCrashes(n: nat)
    ensures ParseAsWritten("\U{B2}", n) == Crashed
  {
  }

  /** The intended reading treats `²` like any other unrecognised line. */
  lemma SuperscriptIgnored(n: nat)
    ensures Parse("\U{B2}", n) == Ignore
  {
  }

  /** A line of 4301 ones: all ASCII digits, too long for `int`. */
  function LongOnes(): (s: string)
    ensures |s| == MaxIntDigits + 1 && IsDigits(s)
  {
    seq(MaxIntDigits + 1, _ => '1')
  }

  /** As written, a numeral of more than 4300 digits ends the program too. */
  lemma LongNumeralCrashes(n: nat)
    ensures ParseAsWritten(LongOnes(), n) == Crashed
  {
  }

  /** The intended reading ignores it: its value is far beyond any menu number
      of the shipped fifteen-entry registry. */
  lemma LongNumeralIgnored()
    ensures Parse(LongOnes(), 15) == Ignore
  {
    var s := LongOnes();
    ValueAtLeastPrefix(s, 3);
    assert s[..3] == "111";
  }

  /** The outcome of one turn: the new selection, the install report if Enter
      was pressed, and whether the loop ends. */
  datatype Turn = Turn(sel: Selection, report: Option<Report>, quit: bool)

  /** One pass of the `while True` body, with `path` the search path at that moment. */
  function Step(reg: seq<Descriptor>, path: Path, sel: Selection, choice: string): (t: Turn)
    requires |sel| == |reg|
    ensures |t.sel| == |reg|
    ensures t.quit <==> choice == "q" || choice == "Q"
    ensures t.report.Some? <==> choice == ""
    ensures t.report.Some? ==> t.report.value == InstallSelected(reg, path, sel)
    ensures t.sel != sel ==>
      (Parse(choice, |reg|) in {SelectBase, SelectVibe, SelectEverything, ClearAll, SelectMissingOnes}
       || Parse(choice, |reg|).ToggleNumber?)
  {
    match Parse(choice, |reg|)
    case ToggleNumber(k) => Turn(SelectionState.Toggle(sel, k - 1), None, false)
    case SelectBase => Turn(SelectCategory(reg, sel, Base), None, false)
    case SelectVibe => Turn(SelectCategory(reg, sel, Vibe), None, false)
    case SelectEverything => Turn(AllSelected(|reg|), None, false)
    case ClearAll => Turn(Cleared(|reg|), None, false)
    case SelectMissingOnes => Turn(SelectMissing(reg, path, sel), None, false)
    case Install => Turn(sel, Some(InstallSelected(reg, path, sel)), false)
    case Quit => Turn(sel, None, true)
    case Ignore => Turn(sel, None, false)
  }

  /** A numeric line toggles its entry and nothing else; a number off the menu
      changes nothing. */
  lemma StepNumber(reg: seq<Descriptor>, path: Path, sel: Selection, k: nat)
    requires |sel| == |reg|
    ensures 1 <= k <= |reg| ==> Step(reg, path, sel, Decimal.Spell(k)).sel == SelectionState.Toggle(sel, k - 1)
    ensures !(1 <= k <= |reg|) ==> Step(reg, path, sel, Decimal.Spell(k)) == Turn(sel, None, false)
  {
    ValueOfSpell(k);
  }

  /** Typing the same number twice restores the selection. */
  lemma StepNumberTwice(reg: seq<Descriptor>, path1: Path, path2: Path, sel: Selection, k: nat)
    requires |sel| == |reg|
    ensures var s1 := Step(reg, path1, sel, Decimal.Spell(k)).sel;
      Step(reg, path2, s1, Decimal.Spell(k)).sel == sel
  {
  }

  /** Enter leaves the selection as it was; any unrecognised line changes nothing. */
  lemma StepKeepsSelection(reg: seq<Descriptor>, path: Path, sel: Selection, choice: string)
    requires |sel| == |reg|
    requires Parse(choice, |reg|) in {Install, Quit, Ignore}
    ensures Step(reg, path, sel, choice).sel == sel
  {
  }

  /** The letter commands, as dispatched: `a`/`v` add their category, `A` selects
      all, `c` clears all, `m` adds every entry that is not installed. */
  lemma StepLetters(reg: seq<Descriptor>, path: Path, sel: Selection)
    requires |sel| == |reg|
    ensures forall i :: 0 <= i < |reg| ==>
      (Step(reg, path, sel, "a").sel[i] <==> sel[i] || reg[i].category == Base)
    ensures forall i :: 0 <= i < |reg| ==>
      (Step(reg, path, sel, "v").sel[i] <==> sel[i] || reg[i].category == Vibe)
    ensures forall i :: 0 <= i < |reg| ==> Step(reg, path, sel, "A").sel[i]
    ensures forall i :: 0 <= i < |reg| ==> !Step(reg, path, sel, "c").sel[i]
    ensures forall i :: 0 <= i < |reg| ==>
      (Step(reg, path, sel, "m").sel[i] <==> sel[i] || !IsInstalled(reg[i], path))
  {
  }

  /** One line read from the terminal, with the search path as it stands when
      the line is handled. */
  datatype Input = Input(choice: string, path: Path)

  /** The loop's observable history: final selection, the install reports in
      order, the lines answered at the "Choice" prompt in order, and whether it
      ended by quitting. */
  datatype Session = Session(sel: Selection, reports: seq<Report>, choices: seq<string>, quit: bool)

  /** The selection `main` starts from. */
  function Initial(n: nat): (r: Selection)
    ensures |r| == n && forall i :: 0 <= i < n ==> !r[i]
  {
    Cleared(n)
  }

  /** Prefix the reports and choices of a session with earlier ones. */
  function After(reports: seq<Report>, choices: seq<string>, s: Session): Session {
    Session(s.sel, reports + s.reports, choices + s.choices, s.quit)
  }

  /** Prefixing twice is prefixing once with the concatenation. */
  lemma AfterAfter(r1: seq<Report>, c1: seq<string>, r2: seq<Report>, c2: seq<string>, s: Session)
    ensures After(r1, c1, After(r2, c2, s)) == After(r1 + r2, c1 + c2, s)
  {
    assert r1 + (r2 + s.reports) == (r1 + r2) + s.reports;
    assert c1 + (c2 + s.choices) == (c1 + c2) + s.choices;
  }

  /** The report a turn contributes to the session, if any. */
  function TurnReports(t: Turn): seq<Report> {
    if t.report.Some? then [t.report.value] else []
  }

  /** A batch that ran ends with "Press Enter to continue"; "Nothing selected"
      returns before that prompt. */
  predicate AwaitsAcknowledgement(t: Turn) {
    t.report.Some? && t.report.value.Batch?
  }

  /** The lines the loop reads next: after a batch, the first remaining line is
      taken by the acknowledgement prompt and discarded unparsed. */
  function Resume(t: Turn, rest: seq<Input>): (r: seq<Input>)
    ensures AwaitsAcknowledgement(t) && |rest| > 0 ==> r == rest[1..]
    ensures !(AwaitsAcknowledgement(t) && |rest| > 0) ==> r == rest
  {
    if AwaitsAcknowledgement(t) && |rest| > 0 then rest[1..] else rest
  }

  /** Feeding lines to the loop until it quits or the lines run out. */
  function Run(reg: seq<Descriptor>, sel: Selection, inputs: seq<Input>): (s: Session)
    requires |sel| == |reg|
    ensures |s.sel| == |reg|
    ensures |s.reports| <= |s.choices| <= |inputs|
    ensures s.quit <==> |s.choices| > 0 && s.choices[|s.choices| - 1] in {"q", "Q"}
    ensures forall k :: 0 <= k < |s.choices| - 1 ==> s.choices[k] !in {"q", "Q"}
    ensures |inputs| > 0 ==> |s.choices| > 0 && s.choices[0] == inputs[0].choice
    decreases |inputs|
  {
    if |inputs| == 0 then Session(sel, [], [], false)
    else
      var t := Step(reg, inputs[0].path, sel, inputs[0].choice);
      if t.quit then Session(t.sel, [], [inputs[0].choice], true)
      else
        var rest := Run(reg, t.sel, Resume(t, inputs[1..]));
        After(TurnReports(t), [inputs[0].choice], rest)
  }

  /** One turn of `Run`, unfolded. */
  lemma RunCons(reg: seq<Descriptor>, sel: Selection, inputs: seq<Input>)
    requires |sel| == |reg| && |inputs| > 0
    ensures var t := Step(reg, inputs[0].path, sel, inputs[0].choice);
      Run(reg, sel, inputs)
        == if t.quit then Session(t.sel, [], [inputs[0].choice], true)
           else After(TurnReports(t), [inputs[0].choice], Run(reg, t.sel, Resume(t, inputs[1..])))
  {
  }

  /** One turn of `Run` on a line followed by the rest. */
  lemma RunStep(reg: seq<Descriptor>, sel: Selection, line: Input, rest: seq<Input>)
    requires |sel| == |reg|
    ensures var t := Step(reg, line.path, sel, line.choice);
      Run(reg, sel, [line] + rest)
        == if t.quit then Session(t.sel, [], [line.choice], true)
           else After(TurnReports(t), [line.choice], Run(reg, t.sel, Resume(t, rest)))
  {
    RunCons(reg, sel, [line] + rest);
    ConcatTail([line], rest);
    assert [line][1..] + rest == rest;
  }

  /** Lines after the session has quit are never read. */
  lemma {:induction false} QuitEndsSession(reg: seq<Descriptor>, sel: Selection, inputs: seq<Input>, rest: seq<Input>)
    requires |sel| == |reg|
    requires Run(reg, sel, inputs).quit
    ensures Run(reg, sel, inputs + rest) == Run(reg, sel, inputs)
    decreases |inputs|
  {
    var all := inputs + rest;
    RunCons(reg, sel, inputs);
    RunCons(reg, sel, all);
    ConcatTail(inputs, rest);
    var t := Step(reg, inputs[0].path, sel, inputs[0].choice);
    if !t.quit {
      var next := Resume(t, inputs[1..]);
      assert Run(reg, t.sel, next).quit;
      if AwaitsAcknowledgement(t) && |inputs| > 1 {
        ConcatTail(inputs[1..], rest);
      }
      assert Resume(t, all[1..]) == next + rest;
      QuitEndsSession(reg, t.sel, next, rest);
    }
  }

  /** Dropping the head of a concatenation drops it from the left part. */
  lemma ConcatTail<T>(xs: seq<T>, ys: seq<T>)
    requires |xs| > 0
    ensures (xs + ys)[0] == xs[0] && (xs + ys)[1..] == xs[1..] + ys
  {
  }

  /** A `q` typed at the acknowledgement prompt is consumed by it: the loop
      neither quits nor dispatches that line. */
  lemma AcknowledgementTakesLine(reg: seq<Descriptor>, path: Path, sel: Selection, ack: string, rest: seq<Input>)
    requires |sel| == |reg|
    requires exists i :: 0 <= i < |sel| && sel[i]
    ensures Run(reg, sel, [Input("", path), Input(ack, path)] + rest)
      == After([InstallSelected(reg, path, sel)], [""], Run(reg, sel, rest))
  {
    var inputs := [Input("", path), Input(ack, path)] + rest;
    assert inputs[1..][1..] == rest;
  }

  /** The `while True` loop of `main`, run on a finite sequence of terminal
      lines: the same history as `Run` from the start-up state. */
  method MainLoop(reg: seq<Descriptor>, inputs: seq<Input>) returns (s: Session)
    ensures s == Run(reg, Initial(|reg|), inputs)
    ensures |s.sel| == |reg|
  {
    var sel := Initial(|reg|);
    var reports: seq<Report> := [];
    var choices: seq<string> := [];
    var unread := inputs;
    while |unread| > 0
      invariant |sel| == |reg|
      invariant Run(reg, Initial(|reg|), inputs) == After(reports, choices, Run(reg, sel, unread))
      decreases |unread|
    {
      var line := unread[0];
      var t := Step(reg, line.path, sel, line.choice);
      RunCons(reg, sel, unread);
      if t.quit {
        return Session(t.sel, reports, choices + [line.choice], true);
      }
      var tail := unread[1..];
      assert Run(reg, sel, unread) == After(TurnReports(t), [line.choice], Run(reg, t.sel, Resume(t, tail)));
      AfterAfter(reports, choices, TurnReports(t), [line.choice], Run(reg, t.sel, Resume(t, tail)));
      reports := reports + TurnReports(t);
      choices := choices + [line.choice];
      sel := t.sel;
      // install_selected's closing prompt reads (and drops) the next line
      unread := Resume(t, tail);
    }
    s := Session(sel, reports, choices, false);
  }
}
