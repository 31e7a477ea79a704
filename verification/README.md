# OpenAlea dependency build pipeline, modelled in Dafny

OpenAlea builds third-party libraries (Qt, SIP, PyQt, QScintilla, QGLViewer,
Boost, MinGW) on Windows and packages them as eggs. It does this in a
resumable pipeline:

- Each unit (a project, or an egg) goes through an ordered registry of
  one-letter steps.
- A completion record (`proc_flags` in the deploy builder, `done_tasks` in the
  release `Formula`) remembers which steps succeeded.
- A later run skips a step when all three hold: it is recorded done, the user
  did not force it, and it is skippable.
- Actions report success, failure or `Later`. `Later` means "deferred": nothing
  is recorded.

This project models three parts:

- The deploy driver `dependency_builder.py`:
  - the registries and `must_skip_proc`
  - the step loop of `build_proj`
  - `main` with its load/save of the record
  - the default project and egg actions
  - `merge_list_dict` and `ascii_file_replace`
- The release `Formula` class:
  - its task table and memoised pending-task list
  - `process_me`, which tolerates failures of packages outside `--only`
  - its default task methods, its substitution table and its naming helpers
- `environ_var.py`, which persists environment variables:
  - as a `/etc/profile.d` script on POSIX
  - in the Windows registry otherwise

Modules, one per file:

- `Text` (`text.dfy`): the Python string operations the code relies on, over
  `seq<char>`:
  - `in`, `startswith`
  - `join`, `split`
  - `replace`, with its empty-pattern behaviour
  - `strip(chars)`, a character set rather than a prefix
  - ASCII `upper`
- `Outcomes` (`outcomes.dfy`): `Option`, `Result`, and `StepOutcome`.
  - `StepOutcome` is one of `Done`, `Later`, `Failed` (the action returned
    `False`) or `Raised` (an exception escaped).
- `Registry` (`registry.dfy`): `proj_process_map`, `egg_process_map` and the
  help epilog.
- `Completion` (`completion.dfy`): the completion record, a map from a unit key
  to the string of completed codes.
  - `mark_proc_as_done` and `task_is_done` are `MarkDone`.
  - `__enter__` is `Load`.
- `DependencyBuilder` (`builder.dfy`):
  - the `projs`/`eggs` tables and record keys
  - `must_skip_proc`
  - `build_proj`, as a loop method proved equal to a recursive reference
  - `main`
- `BuilderActions` (`deploy_actions.dfy`): the default actions of
  `BaseProjectBuilder` and `BaseEggBuilder`, and the utilities.
- `Substitutions` (`substitutions.dfy`): the default substitution tables and
  `dict.update`.
- `Formula` (`formula.dfy`): the release task machinery.
- `FormulaActions` (`formula_actions.dfy`): the release task methods,
  `egg_name`, `packagename` and `_filter_packages`.
- `EnvironVar` (`environ.dfy`): `set_lsb_env` and `set_win_env`.

Some values are inputs to the model rather than computed by it:

- An oracle from step code to `StepOutcome` stands for each builder action
  that runs a command or compiles.
- File-system facts (does a file exist, its size, the directory listing, glob
  matches), network replies and the current year are parameters.
- `os.path.normpath` and `os.path.join` are parameters (`norm`, `pj`).
- The path separator `os.pathsep` is a parameter (`sep`).

The model follows the code's behaviour where it is surprising, and proves
lemmas that pin each surprise down:

- **`__find_pending_tasks` looks up `'_' + task`.** `all_tasks` is keyed by the
  bare letters. With the declared table, no task is ever pending
  (`Formula.DefaultTableNeverPending`).
- **`egg_name` strips characters, not a prefix.** It strips the characters
  `e`, `g` and `_` from both ends, so `egg_gnuplot` gives `nuplot`.
- **The release `_fix_source_dir` never sets `_source_dir_fixed`.** The
  statement that would set it comes after both `return`s.
- **The release `_unpack` has no early return for a `None` url.** It still
  unpacks when the source directory is missing.
- **The release `_upload_egg` sets `use_cfg_login` and never resets it.**
- **`set_win_env` enters its loop on `darwin`.** The `win` substring test
  passes there.

## Model

| member | source | states |
|---|---|---|
| Text.Split | src/openalea/deploy/environ_var.py:44 | `str.split` with a one-character separator yields at least one piece, and no piece holds the separator |
| Text.JoinSplit | src/openalea/deploy/environ_var.py:44 | joining the pieces of a split with the same separator gives the original string back |
| Text.SplitJoin | deploy/src/openalea/deploy/system_dependencies/dependency_builder.py:52 | splitting a path list joined with `os.pathsep` gives the parts back, when no part holds the separator |
| Text.SplitCount | src/openalea/deploy/environ_var.py:44 | a split yields one piece more than there are separators, so a two-name unpacking needs exactly one `=` |
| Text.SplitAround | src/openalea/deploy/environ_var.py:116 | splitting `a;b` gives the pieces of `a` followed by the pieces of `b` |
| Text.SplitNoSep | src/openalea/deploy/environ_var.py:114 | a string without the separator splits into itself alone |
| Text.JoinPair | deploy/src/openalea/deploy/system_dependencies/dependency_builder.py:513 | joining two values puts exactly one separator between them |
| Text.ReplaceAll | deploy/src/openalea/deploy/system_dependencies/dependency_builder.py:182 | `str.replace` with a replacement as long as the pattern keeps the length of the text |
| Text.ReplaceRoundTrip | deploy/src/openalea/deploy/system_dependencies/dependency_builder.py:182 | `replace` changes nothing but the occurrences: replacing each occurrence with a fresh marker and the marker back restores the text |
| Text.ReplaceAbsent | deploy/src/openalea/deploy/system_dependencies/dependency_builder.py:181-182 | replacing a non-empty pattern that does not occur leaves the text unchanged |
| Text.ReplaceCharAbsent | deploy/src/openalea/deploy/system_dependencies/dependency_builder.py:182 | replacing a character that does not occur leaves the text unchanged |
| Text.ReplaceLeavesNone | deploy/src/openalea/deploy/system_dependencies/dependency_builder.py:182 | every occurrence is replaced: after replacing a pattern by a character foreign to it, the pattern no longer occurs |
| Text.ReplaceEmptySpread | deploy/src/openalea/deploy/system_dependencies/dependency_builder.py:182 | replacing the empty string puts the replacement before every character and at the end: the length, each original character and each inserted copy at its position |
| Text.LStrip | release/src/openalea/release/__init__.py:175 | `lstrip(chars)` returns a suffix of the input, everything removed is in `chars`, and the result does not start with one of them |
| Text.RStrip | release/src/openalea/release/__init__.py:175 | `rstrip(chars)` returns a prefix of the input, everything removed is in `chars`, and the result does not end with one of them |
| Text.Strip | deploy/src/openalea/deploy/system_dependencies/dependency_builder.py:306 | `strip(chars)` returns a slice of the input whose surroundings consist only of `chars`, and whose ends are not in `chars` |
| Text.LStripPrefix | release/src/openalea/release/__init__.py:175 | `lstrip` removes a leading run of `chars` exactly up to the first character outside the set |
| Text.RStripKeeps | release/src/openalea/release/__init__.py:175 | `rstrip` leaves a string ending outside `chars` unchanged |
| Registry.Find | deploy/src/openalea/deploy/system_dependencies/dependency_builder.py:341 | the lookup `d[proc]` returns an entry of the registry that carries code `proc`, and finds nothing exactly when `proc` is not a key |
| Registry.FindRegistered | deploy/src/openalea/deploy/system_dependencies/dependency_builder.py:341 | in a registry with unique keys, looking up an entry's code returns that entry |
| Registry.ProcessMapsWellFormed | deploy/src/openalea/deploy/system_dependencies/dependency_builder.py:237-251 | both registries have unique codes; their keys joined in order (`CodesOf`, the default `supported_procs`) are `dufcbixy` and `ceu`; exactly `f`, `x`, `y` are not skippable, and every egg step is skippable |
| Registry.EpilogEntries | deploy/src/openalea/deploy/system_dependencies/dependency_builder.py:1054-1064 | the epilog lists registry codes in registry order (a subsequence of the keys) |
| Registry.EpilogListsSkippable | deploy/src/openalea/deploy/system_dependencies/dependency_builder.py:1054-1064 | an epilog entry is a skippable step shown under its nice name, and every skippable step is listed (both directions) |
| Registry.EpilogShowsSkippableFlags | deploy/src/openalea/deploy/system_dependencies/dependency_builder.py:1054-1064 | `build_epilog` (`BuildEpilog`): every skippable step of either registry appears as a `\t<code> : <nice name>` line of the help text |
| Completion.MarkDone | deploy/src/openalea/deploy/system_dependencies/dependency_builder.py:321-328 | marking adds the code to the unit's completed set and nothing else, keeps other units' entries, never lists a code twice, and leaves the key present |
| Completion.DoneNeedsEntry | deploy/src/openalea/deploy/system_dependencies/dependency_builder.py:343 | `IsDone`, the test `proc in proc_flags.setdefault(name, "")` (and `is_task_done`): a step is done iff the unit has an entry that lists its code; a missing entry reads as empty |
| Completion.MarkDoneIdempotent | release/src/openalea/release/__init__.py:531-537 | marking the same step twice is marking it once |
| Completion.MarkDoneCommutesOnCodes | deploy/src/openalea/deploy/system_dependencies/dependency_builder.py:326-328 | the set of completed codes does not depend on the order in which two steps were marked |
| Completion.Load | deploy/src/openalea/deploy/system_dependencies/dependency_builder.py:273-280 | the loaded record is the stored one; an unreadable file gives an empty record, which claims no completed step |
| DependencyBuilder.RecordKey | deploy/src/openalea/deploy/system_dependencies/dependency_builder.py:325 | a project is recorded under its name, an egg under its name followed by `_egg`, and only an egg key is longer than the name |
| DependencyBuilder.ProcessMapUnique | deploy/src/openalea/deploy/system_dependencies/dependency_builder.py:237-251 | the registry a unit kind uses has unique step codes |
| DependencyBuilder.ProjNamesDistinct | deploy/src/openalea/deploy/system_dependencies/dependency_builder.py:58-69 | the project table's names are pairwise distinct |
| DependencyBuilder.ProjNamesPlain | deploy/src/openalea/deploy/system_dependencies/dependency_builder.py:58-69 | no project name has `_` four characters from its end, the position of the `_` in an egg key |
| DependencyBuilder.EggNamesDistinct | deploy/src/openalea/deploy/system_dependencies/dependency_builder.py:71-78 | the egg table's names are pairwise distinct |
| DependencyBuilder.MainUnitKeysDistinct | deploy/src/openalea/deploy/system_dependencies/dependency_builder.py:325 | no two units that `main` hands to `build_proj` (`MainUnits`) share a completion-record key; the `_egg` suffix separates the `qt4` egg from the `qt4` project |
| DependencyBuilder.SkipCheck | deploy/src/openalea/deploy/system_dependencies/dependency_builder.py:330-344 | an unsupported step is skipped; a supported step is skipped iff it is recorded done, not forced, and skippable as registered |
| DependencyBuilder.MustSkipProc | deploy/src/openalea/deploy/system_dependencies/dependency_builder.py:330-344 | the same rule, read under the unit's own record key (`name` or `name_egg`) and registry |
| DependencyBuilder.NonSkippableNeverSkipped | deploy/src/openalea/deploy/system_dependencies/dependency_builder.py:341-343 | a supported step that is not skippable runs, whatever the record and the options say |
| DependencyBuilder.Planned | deploy/src/openalea/deploy/system_dependencies/dependency_builder.py:305-307 | the plan lists remaining registry codes in registry order, at most one per step |
| DependencyBuilder.PlannedMembership | deploy/src/openalea/deploy/system_dependencies/dependency_builder.py:305-310 | a code is planned iff some remaining step carries it and the skip rule does not skip it (both directions) |
| DependencyBuilder.PlannedIgnoresOtherCodes | deploy/src/openalea/deploy/system_dependencies/dependency_builder.py:341-343 | the plan depends only on whether the remaining steps' codes are recorded; marking an earlier step does not change it |
| DependencyBuilder.ConsFollows | deploy/src/openalea/deploy/system_dependencies/dependency_builder.py:313-319 | a passing action in front of a run that follows its plan yields a run that follows the extended plan |
| DependencyBuilder.RunSteps | deploy/src/openalea/deploy/system_dependencies/dependency_builder.py:305-319 | the reference run of the step loop: when it exits (`sys.exit(-1)`), it invoked something and the last action invoked did not pass |
| DependencyBuilder.FollowsStep | deploy/src/openalea/deploy/system_dependencies/dependency_builder.py:307-319 | one iteration keeps the run on its plan: skipped steps are not invoked, a passing action is followed by the rest of the plan, a failing one ends the run |
| DependencyBuilder.RunFollowsPlan | deploy/src/openalea/deploy/system_dependencies/dependency_builder.py:305-319 | actions run in plan order; a run that does not exit runs the whole plan, all passing; one that exits ran a prefix whose last action failed |
| DependencyBuilder.RunMarksSuccesses | deploy/src/openalea/deploy/system_dependencies/dependency_builder.py:312-319 | the unit's record ends up with exactly the old codes plus the invoked actions that succeeded; other units' records are unchanged; no duplicates appear |
| DependencyBuilder.BuildUnit | deploy/src/openalea/deploy/system_dependencies/dependency_builder.py:286-319 | `build_proj` for one unit: only its own record key changes, it ends up with the old codes plus the invoked actions that succeeded, and the invoked actions follow its plan |
| DependencyBuilder.BuildProj | deploy/src/openalea/deploy/system_dependencies/dependency_builder.py:286-319 | the imperative loop computes exactly the recursive reference run (record, invoked codes, exit flag) |
| DependencyBuilder.LaterLeavesUnmarked | deploy/src/openalea/deploy/system_dependencies/dependency_builder.py:313-314 | a step whose action defers is not recorded as done after the unit |
| DependencyBuilder.ResumeScenario | deploy/src/openalea/deploy/system_dependencies/dependency_builder.py:330-344 | a rerun after `d` and `u` completed runs `fcbixy`; forcing `u` runs `ufcbixy` |
| DependencyBuilder.ResumePlans | deploy/src/openalea/deploy/system_dependencies/dependency_builder.py:341-343 | the plans of the resume example, without and with `u` forced |
| DependencyBuilder.ResumeHead | deploy/src/openalea/deploy/system_dependencies/dependency_builder.py:341-343 | in the example, download stays skipped as done whether or not `u` is forced |
| DependencyBuilder.ResumeUnpack | deploy/src/openalea/deploy/system_dependencies/dependency_builder.py:341-343 | in the example, unpack is re-planned only when forced |
| DependencyBuilder.ResumeTail | deploy/src/openalea/deploy/system_dependencies/dependency_builder.py:341-343 | from the fix step on, the example's plan does not depend on the forced codes |
| DependencyBuilder.ResumeMiddle | deploy/src/openalea/deploy/system_dependencies/dependency_builder.py:341-343 | in the example, the configure step is planned though not forced |
| DependencyBuilder.ResumeBuild | deploy/src/openalea/deploy/system_dependencies/dependency_builder.py:341-343 | in the example, the build step is planned though not forced |
| DependencyBuilder.ResumeLast | deploy/src/openalea/deploy/system_dependencies/dependency_builder.py:341-343 | install and both path extensions are planned in the example |
| DependencyBuilder.MingwrtOnlyInstalls | deploy/src/openalea/deploy/system_dependencies/dependency_builder.py:644-645 | the `mingwrt` builder supports only `i`, so whatever is forced it invokes at most one action |
| DependencyBuilder.MingwrtPlan | deploy/src/openalea/deploy/system_dependencies/dependency_builder.py:644-645 | with only `i` supported, the plan holds at most one step |
| DependencyBuilder.RunUnitsHaltBounds | deploy/src/openalea/deploy/system_dependencies/dependency_builder.py:315-317 | after `sys.exit` in a unit, no later unit invokes anything |
| DependencyBuilder.RunUnits | deploy/src/openalea/deploy/system_dependencies/dependency_builder.py:1102-1107 | `main`'s two loops: a record key that no remaining unit owns keeps its loaded value |
| DependencyBuilder.ByPositionConcat | deploy/src/openalea/deploy/system_dependencies/dependency_builder.py:1103-1107 | one unit's invocations followed by those of later units stay ordered by unit |
| DependencyBuilder.RunUnitsOrdered | deploy/src/openalea/deploy/system_dependencies/dependency_builder.py:1102-1107 | units run one after the other: invocations are ordered by unit position |
| DependencyBuilder.RunUnitsKeepsUnreached | deploy/src/openalea/deploy/system_dependencies/dependency_builder.py:1102-1107 | a record key that no reached unit owns is unchanged |
| DependencyBuilder.RunPipeline | deploy/src/openalea/deploy/system_dependencies/dependency_builder.py:1090-1107 | after an exit, nothing was invoked beyond the exiting unit, and every later unit's record is saved as it was loaded |
| BuilderActions.GatheredAppend | deploy/src/openalea/deploy/system_dependencies/dependency_builder.py:86-87 | gathering lists over two halves of the input gathers each half in turn |
| BuilderActions.GatheredSingle | deploy/src/openalea/deploy/system_dependencies/dependency_builder.py:86-87 | a key given once keeps exactly its own list |
| BuilderActions.GatheredAbsent | deploy/src/openalea/deploy/system_dependencies/dependency_builder.py:86-87 | a key not given gathers nothing |
| BuilderActions.GatheredSnoc | deploy/src/openalea/deploy/system_dependencies/dependency_builder.py:86-87 | one more pair extends only its own key's list |
| BuilderActions.GatherStep | deploy/src/openalea/deploy/system_dependencies/dependency_builder.py:86-87 | `d[k].extend(v)` keeps the dictionary equal to the lists gathered so far |
| BuilderActions.MergeListDict | deploy/src/openalea/deploy/system_dependencies/dependency_builder.py:81-88 | exactly the input keys are present, and each maps to its lists appended in input order and joined with the separator |
| BuilderActions.AsciiFileReplace | deploy/src/openalea/deploy/system_dependencies/dependency_builder.py:170-187 | the file is rewritten iff the old string occurs in it; otherwise its text is unchanged |
| BuilderActions.ReplaceCharRemoves | deploy/src/openalea/deploy/system_dependencies/dependency_builder.py:182 | replacing a character by text without it removes every occurrence |
| BuilderActions.AsciiReplaceCharGone | deploy/src/openalea/deploy/system_dependencies/dependency_builder.py:180-183 | for a one-character old string, the file is rewritten iff the character occurs, and afterwards it does not |
| BuilderActions.AsciiReplaceEveryOccurrence | deploy/src/openalea/deploy/system_dependencies/dependency_builder.py:180-183 | for any non-empty old string: a patched file holds no occurrence of it, and a round trip through a fresh marker restores the text |
| BuilderActions.AsciiReplaceEmptyOld | deploy/src/openalea/deploy/system_dependencies/dependency_builder.py:180-183 | an empty old string always triggers a rewrite, which inserts the new string before every character and at the end, keeping each character in order |
| BuilderActions.DownloadSource | deploy/src/openalea/deploy/system_dependencies/dependency_builder.py:443-473 | no url: success without a fetch; fetched iff the server reports a size and the local file is missing or smaller; an unreachable server fails; a bad header raises |
| BuilderActions.DownloadNotRepeated | deploy/src/openalea/deploy/system_dependencies/dependency_builder.py:461-464 | after a complete fetch, the next call succeeds without fetching |
| BuilderActions.RFind | deploy/src/openalea/deploy/system_dependencies/dependency_builder.py:481 | the position found holds the character and none follows it, or -1 when absent |
| BuilderActions.SplitExt | deploy/src/openalea/deploy/system_dependencies/dependency_builder.py:481 | the two parts concatenate to the path, and the extension is empty or one dot with no further dot or separator |
| BuilderActions.SplitExtAtLastDot | deploy/src/openalea/deploy/system_dependencies/dependency_builder.py:481-487 | an archive name such as `qt4_src.zip` splits at its last dot |
| BuilderActions.SplitExtLeadingDot | deploy/src/openalea/deploy/system_dependencies/dependency_builder.py:481 | a name whose only dot leads it has no extension |
| BuilderActions.UnpackSource | deploy/src/openalea/deploy/system_dependencies/dependency_builder.py:475-494 | no url or an existing source dir: success without extraction; extraction iff the extension is `.zip` or `.tgz`; only a failing extraction fails, and it raises |
| BuilderActions.UnpackSecondCallNoop | deploy/src/openalea/deploy/system_dependencies/dependency_builder.py:479-480 | after a successful call the source dir exists, so a second call extracts nothing |
| BuilderActions.FixSourceDir | deploy/src/openalea/deploy/system_dependencies/dependency_builder.py:496-506 | fails iff a subdir pattern is given and nothing matches; then the dir is kept; otherwise it becomes the first match |
| BuilderActions.FixSourceDirDescendsAgain | deploy/src/openalea/deploy/system_dependencies/dependency_builder.py:496-506 | no flag is kept: a second call globs again under the chosen dir, descending once more iff something matches there |
| BuilderActions.ExtendSysPathAppend | deploy/src/openalea/deploy/system_dependencies/dependency_builder.py:508-514 | without extras, nothing changes; with extras, a missing `PATH` raises and otherwise only `PATH` changes, to the old value, the separator, the extras |
| BuilderActions.ExtendPythonPathAppend | deploy/src/openalea/deploy/system_dependencies/dependency_builder.py:516-525 | extras go after `PYTHONPATH` (unset reads as empty), and `sys.path` gains the tuple or the split string |
| BuilderActions.AppendKeepsOldEntriesFirst | deploy/src/openalea/deploy/system_dependencies/dependency_builder.py:513 | the entries of the new `PATH` are the old entries followed by the extras |
| BuilderActions.PythonPathAgreesWithSysPath | deploy/src/openalea/deploy/system_dependencies/dependency_builder.py:519-524 | `sys.path` gains exactly the entries written into `PYTHONPATH` |
| BuilderActions.UploadEggDeploy | deploy/src/openalea/deploy/system_dependencies/dependency_builder.py:622-628 | never raises; done iff both login and password are non-empty and the upload succeeds; deferred iff a credential it reads is `None` or empty; failed iff a key it reads is missing or the upload fails |
| BuilderActions.UploadNeedsCredentials | deploy/src/openalea/deploy/system_dependencies/dependency_builder.py:622-628 | the upload's own result matters iff both credentials are non-empty |
| Substitutions.Update | deploy/src/openalea/deploy/system_dependencies/dependency_builder.py:606-607 | `dict.update`: the keys of both tables, with the override winning on shared keys and the base kept elsewhere |
| Substitutions.UpdateIdempotent | deploy/src/openalea/deploy/system_dependencies/dependency_builder.py:607 | updating twice with the same overrides is updating once, and an empty override keeps the base |
| Substitutions.DeployEggDefaults | deploy/src/openalea/deploy/system_dependencies/dependency_builder.py:578-598 | the egg defaults have exactly the 17 declared keys, name the egg, carry the given year, and leave the directory entries `None` |
| Substitutions.DeployConfTable | deploy/src/openalea/deploy/system_dependencies/dependency_builder.py:603-610 | the template table is the defaults updated with the builder's substitutions, key by key |
| Substitutions.DeployConfWithoutOverrides | deploy/src/openalea/deploy/system_dependencies/dependency_builder.py:630-631 | a builder without its own substitutions gets the defaults unchanged |
| Substitutions.ReleaseDefaults | release/src/openalea/release/__init__.py:101-123 | the release defaults have exactly the 19 declared keys, name the egg, carry the year, and point `lib`/`include`/`bin` into the sources |
| Substitutions.ReleaseConfTable | release/src/openalea/release/__init__.py:311-319 | the template table (defaults from `__init__` updated with `setup()`, `ReleaseSetup`) keeps the default keys; each directory entry names the current source dir when its subdir exists and is `None` otherwise; when the dir did not move, an entry keeps its default iff its subdir exists; every other default survives |
| Formula.Get | release/src/openalea/release/__init__.py:150 | `all_tasks.get(key)` finds the first entry stored under `key`, and nothing exactly when no entry has that key |
| Formula.DefaultTable | release/src/openalea/release/__init__.py:35-47 | the declared task table is keyed by one-letter codes |
| Formula.JoinKeysLetters | release/src/openalea/release/__init__.py:50 | over one-letter keys, `supported_tasks` lists the keys' letters in table order |
| Formula.PendingIn | release/src/openalea/release/__init__.py:146-165 | at most one pending entry per supported code (membership and order are fixed by the two lemmas below) |
| Formula.PendingMembership | release/src/openalea/release/__init__.py:146-165 | an entry is pending iff its code is supported, `'_' + code` is in the table with that method and flag, and done-and-not-forced-and-skippable fails |
| Formula.PendingOrder | release/src/openalea/release/__init__.py:149-164 | pending tasks come in the order of `supported_tasks` |
| Formula.OneLetterKeysMissUnderscore | release/src/openalea/release/__init__.py:150-154 | in a one-letter-keyed table the `'_' + task` lookup finds nothing |
| Formula.NothingPendingWhenKeysMissed | release/src/openalea/release/__init__.py:146-165 | with one-letter keys the pending list is empty |
| Formula.DefaultTableNeverPending | release/src/openalea/release/__init__.py:146-165 | with the declared `all_tasks`, no task is ever pending, whatever the record, forced tasks or restriction |
| Formula.RestrictionOverridesForced | release/src/openalea/release/__init__.py:157-161 | with a project restriction, whether a task counts as forced (`Forced`) no longer depends on the per-package forced codes, so neither does the pending list |
| Formula.FindPendingTasksStable | release/src/openalea/release/__init__.py:146-165 | `__find_pending_tasks` (`FindPendingTasks`) does not read a list stored before, so recomputing it changes nothing; the stored list holds exactly the supported tasks found under `'_' + task` that the skip rule keeps |
| Formula.HasPendingMemoised | release/src/openalea/release/__init__.py:138-141 | `has_pending` (`HasPending`): asking again gives the same answer and state; marking a task done afterwards does not refresh the list |
| Formula.HasPendingVerbose | release/src/openalea/release/__init__.py:167-171 | true iff some pending task is not silent |
| Formula.ProcessPlan | release/src/openalea/release/__init__.py:191-193 | the planned codes are pending codes in pending order, at most one per pending task |
| Formula.ProcessPlanMembership | release/src/openalea/release/__init__.py:191-193 | a code is planned iff some remaining pending task carries it and the package is selected or the task is not skippable (both directions) |
| Formula.PrefixedAlong | release/src/openalea/release/__init__.py:199-213 | an action that lets the loop go on, in front of a run that follows its plan, follows the extended plan |
| Formula.RunPending | release/src/openalea/release/__init__.py:191-215 | the task loop of `process_me` never reports a missing pending list, and returns `False` only for a selected package |
| Formula.RunPendingFollowsPlan | release/src/openalea/release/__init__.py:191-215 | tasks run in plan order; `True` means the whole plan ran; `False` means a selected package failed at the last invoked task; an exception stops the loop |
| Formula.RunPendingMarks | release/src/openalea/release/__init__.py:199-213 | the package's record gains exactly the invoked tasks that succeeded |
| Formula.RunPendingKeepsOthers | release/src/openalea/release/__init__.py:213 | no other package's record changes |
| Formula.UnselectedPlanNonSkippable | release/src/openalea/release/__init__.py:192-193 | an unselected package plans only its non-skippable tasks |
| Formula.ProcessMe | release/src/openalea/release/__init__.py:180-215 | `process_me`: fails on a missing pending list exactly when it was never computed, and returns `False` only when the package is selected by `--only` |
| Formula.ProcessMeTolerant | release/src/openalea/release/__init__.py:180-215 | a package outside `--only` never returns `False`, and only its non-skippable pending tasks run |
| Formula.ProcessMeLaterUnmarked | release/src/openalea/release/__init__.py:200-202 | a deferred task stays unrecorded |
| FormulaActions.Download | release/src/openalea/release/__init__.py:217-230 | fetches iff a url is set and the archive name is not listed, and otherwise succeeds; a fetch succeeds iff `url` returns true (`FromBool`), and only a raising `url` makes the task raise, since the method has no `try_except` |
| FormulaActions.DownloadOnce | release/src/openalea/release/__init__.py:224-227 | once the archive is listed, the next call succeeds without fetching |
| FormulaActions.FixSourceDirRelease | release/src/openalea/release/__init__.py:250-266 | `None` without a subdir or when the flag is set; `False` keeps the dir when the subdir is missing; `True` moves into it; the flag never changes |
| FormulaActions.FixSourceDirNeverLatches | release/src/openalea/release/__init__.py:264-266 | after a success the flag is still unset, so the next call descends again |
| FormulaActions.FixSourceDirVersionsAgree | release/src/openalea/release/__init__.py:250-266 | when `into_subdir` finds the first glob match, the release and deploy versions succeed on the same inputs and move to the same dir |
| FormulaActions.Unpack | release/src/openalea/release/__init__.py:232-248 | unpacks iff the source dir is missing (even without a url); succeeds iff the dir existed or unpacking worked; raises iff a needed `unpack` raises, and then the dir is not fixed; otherwise the dir is fixed afterwards |
| FormulaActions.UrlNoneStillUnpacks | release/src/openalea/release/__init__.py:236-245 | without a url the deploy builder returns at once, while the release unpacks and reports the unpack result |
| FormulaActions.UnpackRaiseSkipsFix | release/src/openalea/release/__init__.py:243-247 | a raising `unpack` leaves the source dir where it was, while a failing one still descends into the archive subdir |
| FormulaActions.ExtendSysPathPrepend | release/src/openalea/release/__init__.py:268-274 | with extras, a missing `PATH` raises and otherwise only `PATH` changes, to the extras, the separator, the old value |
| FormulaActions.ExtendPythonPathPrepend | release/src/openalea/release/__init__.py:276-285 | extras go before `PYTHONPATH`; `sys.path` grows as in the deploy builders |
| FormulaActions.PrependPutsExtraFirst | release/src/openalea/release/__init__.py:273 | the release `PATH` entries are the extras then the old ones; the deploy builder's are the reverse |
| FormulaActions.UploadEggRelease | release/src/openalea/release/__init__.py:341-350 | never raises and never clears the configured-login flag; a missing key fails; an empty login or password sets the flag and then succeeds, defers or fails as the configured upload succeeds, returns `False` or raises; with both credentials the flag picks the upload, and a raise fails |
| FormulaActions.CfgLoginSticks | release/src/openalea/release/__init__.py:343-350 | where the deploy builder defers, the release sets the flag, and a later upload with credentials still reports the configured upload |
| FormulaActions.EggName | release/src/openalea/release/__init__.py:173-175 | the egg name is a slice of the class name with only `e`, `g`, `_` removed around it, and it neither starts nor ends with them |
| FormulaActions.EggNameOfPlainName | release/src/openalea/release/__init__.py:175 | `egg_` followed by a name not starting or ending with `e`, `g`, `_` gives that name |
| FormulaActions.EggNameEatsLetters | release/src/openalea/release/__init__.py:175 | `egg_gnuplot` names the egg `nuplot` |
| FormulaActions.PackageNameOfPlainEgg | release/src/openalea/release/__init__.py:481-487 | `packagename` (`PackageName`) falls back to the egg name when none is declared, and `_filter_packages` then keeps that package |
| FormulaActions.FilterPackages | release/src/openalea/release/__init__.py:485-487 | keeps exactly the packages that are the package or one of its subpackages, each as often as in the input, in input order |
| FormulaActions.FilterKeepsSubpackagesOnly | release/src/openalea/release/__init__.py:486-487 | a sibling that shares the prefix without the dot (`vplantsx`) is dropped |
| EnvironVar.ParseEntry | src/openalea/deploy/environ_var.py:44 | succeeds iff the entry holds exactly one `=`, and then the entry is name, `=`, value; otherwise reports the entry |
| EnvironVar.ParseEntryRoundTrip | src/openalea/deploy/environ_var.py:44 | parsing `name=value` gives back the pair |
| EnvironVar.ExportFragment | src/openalea/deploy/environ_var.py:45-53 | empty iff the name or the value is empty; a search path gets the set-or-append block, any other variable a plain export |
| EnvironVar.ExportLineRoundTrip | src/openalea/deploy/environ_var.py:53 | the assignment inside an export line parses back to the entry |
| EnvironVar.ExportString | src/openalea/deploy/environ_var.py:40-53 | the script text builds iff every entry holds exactly one `=`; otherwise the malformed entry is reported |
| EnvironVar.ExportStringAppend | src/openalea/deploy/environ_var.py:42-53 | the script text for a concatenation of entries is the concatenation of their texts |
| EnvironVar.EmptyValueExportsNothing | src/openalea/deploy/environ_var.py:52-53 | an `X=` entry adds nothing to the script |
| EnvironVar.SetLsbEnv | src/openalea/deploy/environ_var.py:29-70 | does nothing off POSIX; reports a malformed entry before writing; otherwise writes `/etc/profile.d/<name>.sh` with the header and then the exports |
| EnvironVar.ExtendPathContains | src/openalea/deploy/environ_var.py:114-116 | `ExtendPath`: afterwards the value is an entry, and the old entries come first and in order |
| EnvironVar.ExtendPathIdempotent | src/openalea/deploy/environ_var.py:115-119 | extending twice with one entry is extending once |
| EnvironVar.SetWinVar | src/openalea/deploy/environ_var.py:107-122 | a malformed entry stops with that entry; a successful step changes at most the named value |
| EnvironVar.PathNameTest | src/openalea/deploy/environ_var.py:110 | `name.upper() == 'PATH'` (`Upper`) accepts exactly the four-letter names spelling `path` in any mix of cases |
| EnvironVar.SetWinVarStores | src/openalea/deploy/environ_var.py:107-122 | an ordinary variable is stored when name and value are non-empty (`Write`) and the registry is kept otherwise; a `PATH` entry needs an existing `PATH` and ends up among its entries |
| EnvironVar.SetWinVarIdempotent | src/openalea/deploy/environ_var.py:107-122 | applying the same entry again leaves the registry as it is |
| EnvironVar.DarwinPassesPlatformTest | src/openalea/deploy/environ_var.py:85 | `darwin` passes the Windows platform test |
| EnvironVar.SetWinEnv | src/openalea/deploy/environ_var.py:79-122 | off Windows, or without `_winreg`, the registry is untouched; a reported malformed entry is one of the inputs |
| EnvironVar.SetWinEnvKeepsOthers | src/openalea/deploy/environ_var.py:88-122 | a registry value that no entry names keeps its value |
| EnvironVar.SetWinEnvAppend | src/openalea/deploy/environ_var.py:88-122 | entries after an error are never applied; an error-free run over `a + b` is the run over `a` followed by the run over `b` |

## Left out

- File contents, the network, archives, subprocesses and `os.chdir` are not
  modelled. Whatever they decide is an input: existence flags, sizes,
  listings, glob matches, fetch/extract/upload success, and the action
  oracle. The `in_dir` wrapper is left out for the same reason.
- Printing and logging are left out, including `make_silent`,
  `traceback.print_exc` and the `/etc/profile.d` failure message. The
  `os.system` call that sources the script is left out too. None of these
  changes a returned value or the record.
- The file-open failure of `set_lsb_env` is left out. `EnvironVar.SetLsbEnv`
  returns the path and content to write; whether the open succeeds is I/O.
- `repr` and `string.Template` substitution are left out. The model stops at
  the table of Python values that `_configure_script` hands to the template.
- `os.path.normpath` and `os.path.join` are not modelled; they are parameters.
  `os.pathsep` is a parameter `sep`.
- The `proc_flags.pk` file format (`pprint` / `eval`) is left out. `Load`
  receives the parsed map, or `None` when reading or evaluating it failed.
  `__exit__` saves `PipelineRun.rec`.
- The `setdefault` calls in `must_skip_proc`, `is_task_done` and
  `is_task_forced` insert an empty string. These insertions are not
  modelled, because an empty entry reads exactly like a missing one.
  `MarkDone` does leave the key present.
- The following are outside the modelled core:
  - the concrete builders (`qt4`, `sip`, `boost`, the `egg_*` builders) and
    their `configure`/`build`/`install`/`script_substitutions`
  - `_configure`, `_build`, `_install`, `_patch`, `_make`, `_eggify`,
    `_bdist_egg` and `_copy_egg` (file renaming, egg globbing)
  - these enter only through the action oracle, and
    `DependencyBuilder.MingwrtOnlyInstalls` uses only `mingwrt`'s
    `supported_procs`
- The `yet_installed` branch of `Formula.setup` is not modelled. It imports the
  installed package and globs its files. Also left out:
  `find_packages_and_directories`, `setup_2`, `package` and `module`.
- Command-line parsing (`argparse`) and the singleton/registry metaclasses
  are not modelled. `BuildEnvironment.set_options` and the working
  directories are left out too. Forced codes arrive as the `options`
  record; a unit's builder is represented by its `supported` string.
- Extra paths that are neither `None`, a tuple nor a `str` are not modelled.
  The source writes such a value unchanged into the join, which raises.
- `EnvironVar.SetWinVar`: a failing `ConnectRegistry` or `OpenKey` (for
  example without administrator rights) raises out of `set_win_env`; this
  failure is not modelled, and the registry is always reachable.
- `EnvironVar.SetWinVar`: Windows registry value names are compared exactly,
  although the registry compares them without regard to case. The
  `QueryValueEx` lookup of `PATH` is likewise exact.
- `Text.Upper`: only ASCII letters are upper-cased. Python's full Unicode
  case mapping is not modelled.
- `Formula.PendingIn` states only a length bound itself. Its content and
  order are stated by `PendingMembership` and `PendingOrder`.
- `BuilderActions.DownloadSource` covers only a `Content-Length` that is
  missing or not a number (`NoLength`, raises) and a whole size. The
  `float("inf")` initial value is unreachable and is not modelled.
- Download progress reporting (`download_reporter`) is left out.
- The `--no-upload` removal of entries from `all_tasks` is not modelled as a
  separate operation. Any table can be passed as `FormulaState.allTasks`.
