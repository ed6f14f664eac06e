# sdpkjc.env installer — selection state machine and install orchestration

A Dafny model of the interactive installer in `install.py`: a fixed, ordered
registry of fifteen packages, a per-entry "selected" flag list, the menu
commands that change it (number toggles, `a`/`v` category bulk-select, `A` all,
`c` clear, `m` select missing, Enter to install, `q`/`Q` to quit, anything else
ignored), and `install_selected`, which walks the selected entries in registry
order and lets `run_install` either skip an entry whose check command resolves
or run its install action.

Modules:

- `Wrappers` — `Option`.
- `Decimal` — `str.isdigit` and `int(...)` over ASCII digits, plus the
  canonical numeral of a number (`Spell`) used as the inverse of parsing.
- `Software` — the package descriptor (`name`, optional check command,
  category `Base`/`Vibe`), `is_installed`, `run_install`, the `SOFTWARE`
  registry and `get_indices_by_category`.
- `SelectionState` — the flag list and each transition on it.
- `Orchestrator` — `install_selected` as a report: "nothing selected", or a
  batch of attempts `(index, AlreadyInstalled | Installing)`; `Installs` is the
  ordered trace of install actions that actually run.
- `Menu` — parsing one input line into a command, one turn of the loop
  (`Step`), the whole loop over a finite list of terminal lines (`Run`),
  including the line that "Press Enter to continue" reads and discards after
  each batch that ran, and an imperative `MainLoop` proved to produce the same
  history.
- `Scenarios` — concrete sessions on a three-entry registry
  (Git / Claude Code / vibe-kanban).

Abstractions: the executable search path is a parameter `Path`, the set of
command names `shutil.which` would resolve; a menu turn carries the search
path as it stands when that line is handled. Each install action is opaque and
is identified by its registry index.

Two details of the code shape the model. The skip test in `run_install` is
`if self.check_cmd and self.is_installed()`, a truthiness test, so an empty
check command never skips, exactly like no check command (`Software.Truthy`).
And the exit status of an install command is returned by `run` but never read
or printed, so a failed install is indistinguishable from a successful one.

## Model

| member | source | states |
|---|---|---|
| Software.IsInstalled | install.py:74-77 | an entry without a check command is never installed; with one, it is installed exactly when the command resolves on the search path |
| Software.NoCheckNeverInstalled | install.py:74-77 | for an entry with no check command, on every search path: not installed, and `run_install` always runs its install action |
| Software.RunInstall | install.py:79-84 | the install action is skipped exactly when the check command is non-empty and resolves; an entry with no check command always installs |
| Software.RunsExactlyWhenMissing | install.py:79-84 | for an entry whose check command is not the empty string, the install action runs if and only if the entry is not installed |
| Software.SoftwareShape | install.py:172-190 | the registry has 15 entries, each with a non-empty name and no empty check command, entries 1-9 are base and 10-15 vibe, and exactly the last two have no check command |
| Software.IndicesByCategory | install.py:199-200 | the result is ascending, within range, and contains an index exactly when that entry has the category |
| Software.CategoriesPartition | install.py:199-200 | the base and vibe index lists are disjoint, cover every index, and their lengths add up to the registry size |
| Software.SoftwareGroups | install.py:258-259 | on the shipped registry the base indices are 0..8 and the vibe indices 9..14 |
| SelectionState.Cleared | install.py:276-277 | `c` yields a list of the registry's length with every flag false |
| SelectionState.AllSelected | install.py:274-275 | `A` yields a list of the registry's length with every flag true |
| SelectionState.Toggle | install.py:266-267 | the addressed flag is negated, every other flag and the length are unchanged |
| SelectionState.ToggleTwice | install.py:267 | toggling the same entry twice restores the selection |
| SelectionState.Mark | install.py:269-273 | assigning true along an index list sets exactly the listed entries and clears nothing |
| SelectionState.SelectCategory | install.py:268-273 | `a`/`v` set every entry of the category and leave all other entries unchanged |
| SelectionState.SelectCategoryIdempotent | install.py:268-273 | repeating `a` (or `v`) changes nothing further |
| SelectionState.BaseAndVibeSelectAll | install.py:268-275 | `a` followed by `v`, in either order, gives the same state as `A` |
| SelectionState.MarkMissingFrom | install.py:279-281 | the `m` loop from a given index sets exactly the not-installed entries from there on and keeps every other flag |
| SelectionState.SelectMissing | install.py:278-281 | `m` sets every entry that is not installed and leaves installed entries as they were |
| SelectionState.SelectMissingIdempotent | install.py:278-281 | applying `m` twice on the same search path equals applying it once |
| SelectionState.SelectMissingFromCleared | install.py:278-281 | from an empty selection `m` selects exactly the not-installed entries |
| SelectionState.MissingAlwaysSelectsUnchecked | install.py:188-189 | on the shipped registry `m` always selects oh-my-opencode and vibe-kanban, whatever the search path |
| Orchestrator.Count | install.py:238 | the count is at most the registry size and is zero exactly when no flag is set |
| Orchestrator.SelectedFromCount | install.py:238-246 | the loop visits as many entries as `sum(selected)` counts |
| Orchestrator.InstallSelected | install.py:237-251 | nothing selected gives the "nothing selected" report; otherwise every selected entry is attempted exactly once, in ascending order, no unselected entry is attempted, each attempt's outcome is that of `run_install`, and the announced count equals the number of attempts |
| Orchestrator.InstallsOf | install.py:245-248 | an index is in the install trace exactly when the batch holds an attempt of it that ran the install action |
| Orchestrator.InstallsOfAscending | install.py:245-248 | attempts in ascending order give an ascending install trace |
| Orchestrator.Installs | install.py:237-249 | the install actions that run are, in ascending order, exactly the selected entries that `run_install` does not skip |
| Orchestrator.InstallsAreSelectedMissing | install.py:245-248 | when no entry has an empty check command, the install actions that run are exactly the selected entries that are not installed |
| Decimal.ValueOfSpell | install.py:265 | reading back the canonical numeral of `k` with `int` gives `k` |
| Decimal.LeadingZero | install.py:265 | a leading zero is accepted and does not change the value |
| Menu.Parse | install.py:265-284 | a line is a toggle exactly when it is all digits with value in 1..n; each letter command is recognised from exactly its own line; quitting from exactly `q` or `Q` |
| Menu.ParseSpell | install.py:265-284 | every command on the menu is recognised from the line that spells it |
| Menu.ParseValid | install.py:265-267 | a parsed toggle always names an entry on the menu |
| Menu.ParseEdgeCases | install.py:265-284 | `0` and `16` are ignored on a 15-entry menu, `07` toggles item 7, `M` and `x` are ignored, `Q` quits |
| Menu.ParseAsWritten | install.py:265-266 | over ASCII characters and the superscripts ¹²³: a line that passes `isdigit` but that `int` cannot read (it holds a superscript, or more than 4300 digits) raises; a line that passes `isdigit` and that `int` reads, and a line that fails `isdigit`, is dispatched as `Parse` does |
| Menu.SuperscriptCrashes | install.py:265-266 | as written, the line `²` makes `int` raise, ending the program |
| Menu.SuperscriptIgnored | install.py:284-286 | with the corrected parse, `²` is an unrecognised line and is ignored |
| Menu.LongNumeralCrashes | install.py:265-266 | as written, a line of 4301 ASCII ones passes `isdigit` and makes `int` raise, ending the program |
| Menu.LongNumeralIgnored | install.py:265-286 | with the corrected parse, that line is a number off the 15-entry menu and is ignored |
| Menu.Step | install.py:261-286 | a turn keeps the selection length, quits exactly on `q`/`Q`, produces an install report exactly on Enter (the one `install_selected` gives), and changes the selection only on a toggle or a letter command |
| Menu.StepNumber | install.py:265-267 | typing the number `k` toggles entry `k-1` when `k` is on the menu and changes nothing otherwise |
| Menu.StepNumberTwice | install.py:265-267 | typing the same number twice restores the selection |
| Menu.StepKeepsSelection | install.py:282-286 | Enter, quit and unrecognised lines leave the selection unchanged |
| Menu.StepLetters | install.py:268-281 | as dispatched, `a`/`v` add their category, `A` sets all, `c` clears all, `m` adds the not-installed entries |
| Menu.Initial | install.py:196 | the loop starts with one false flag per registry entry |
| Menu.Run | install.py:252-286 | the selection length is preserved; each line read at the "Choice" prompt is recorded, at most one report per such line; after a batch that ran, the next line is taken by "Press Enter to continue" and not dispatched; the session ends by quitting exactly when the last line read at the "Choice" prompt is `q`/`Q`, and no earlier one is |
| Menu.QuitEndsSession | install.py:284-286 | once a session has quit, lines after it are never read: appending them does not change the session |
| Menu.AcknowledgementTakesLine | install.py:237-252 | with something selected, the line after Enter answers "Press Enter to continue", whatever it says (`q` included): it is neither dispatched nor recorded as a choice |
| Menu.MainLoop | install.py:255-286 | the imperative loop from the start-up state yields the same selection, reports and quit flag as `Run` |
| Scenarios.SelectBaseOnTrio | install.py:268-270 | on the Git / Claude Code / vibe-kanban registry `a` selects Git alone |
| Scenarios.InstallGitPresent | install.py:237-248 | on any search path where `git` resolves, with Git selected the batch is one attempt reporting Git already installed and no install action runs |
| Scenarios.InstallAcknowledgeQuit | install.py:237-286 | with Git selected and `git` resolvable, Enter, Enter, `q` gives one "already installed" report, an acknowledged pause, and a quit |
| Scenarios.SelectBaseInstallQuit | install.py:252-286 | `a`, Enter, Enter, `q` with `git` resolvable: Git selected, one "already installed" attempt, the second Enter acknowledges the batch, the session ends by quitting |
| Scenarios.QuitAtAcknowledgementIsSwallowed | install.py:252-286 | `a`, Enter, `q` with `git` resolvable: the `q` answers "Press Enter to continue", so the session does not quit |
| Scenarios.MissingWithGitOnly | install.py:278-281 | `m` with only `git` resolvable selects Claude Code and vibe-kanban but not Git |
| Scenarios.ToggleTwiceThenInstall | install.py:237-241 | `2`, `2`, Enter: nothing is selected and the report is "nothing selected" |

## Findings

| source | as written | input that shows it | evidently intended | confidence | as-written member | corrected member |
|---|---|---|---|---|---|---|
| install.py:265-266 | `choice.isdigit()` guards `int(choice)`, but `isdigit` also accepts digit characters that are not decimal, and numerals longer than `int` converts from a string; for both `int` raises `ValueError`, and nothing catches it | the line `²` (superscript two); a line of more than 4300 ASCII digits (on Python 3.11 and later, and security releases of 3.7 to 3.10, where `int` limits the digits it converts) | a line that is not a menu number is ignored like any other unrecognised line (for instance by testing `isdecimal()` and the length, or by catching `ValueError`) | medium, not executed | Menu.ParseAsWritten, Menu.SuperscriptCrashes, Menu.LongNumeralCrashes | Menu.Parse, Menu.SuperscriptIgnored, Menu.LongNumeralIgnored |

The rest of the model (`Menu.Step`, `Menu.Run`) uses the corrected `Menu.Parse`.

## Left out

- The import-time installation of `rich` through pip (install.py:12-25): an import side effect.
- All rendering: `show_menu`, colours, panels, tables, the per-item headers and messages, and the prompt texts (install.py:203-234, 243-251): terminal I/O. The line that "Press Enter to continue" reads (install.py:252) is modelled; its text is not.
- `run` and the shell helpers `brew_install`, `apt_install`, `npm_install`, `curl_install`, `curl_sh_install`, and every per-package `install_*` function (install.py:39-60, 91-165): subprocess and network plumbing; each install action is an opaque event identified by its index.
- Host detection with `platform.system()` / `platform.machine()` (install.py:28, 120): it only selects branches inside the opaque install actions.
- Exit status of install commands: returned by `run` but read by nothing, so no failure or rollback behaviour exists to model.
- Orchestrator.InstallSelected: the search path is one snapshot for the whole batch; an install earlier in the batch that makes a later entry's check command resolve is not modelled.
- Menu.Parse: only ASCII `0`-`9` count as digits; Python's `int` also converts the other Unicode decimal digits (for instance full-width `３`, which the program reads as menu item 3), and the model ignores such lines.
- Menu.ParseAsWritten: knows only the superscripts ¹²³ among the digit characters that are not decimal; the others `isdigit` accepts (`⁴` and the other superscripts, circled digits such as `①`) crash the program in the same way but are dispatched as unrecognised lines here, and Unicode decimal digits such as `３`, which the program toggles by, are ignored here. The 4300-digit limit is Python's default (`sys.get_int_max_str_digits()`, Python 3.11 and later and security releases of 3.7 to 3.10); it is taken as fixed, and older interpreters without the limit are not modelled.
- Menu.Run: the prompt library's own input handling (the empty default, end of input, keyboard interrupt) is not modelled; each line is taken as the string the prompt returns, and a session over a finite list of lines simply stops when the lines run out, at either prompt.
