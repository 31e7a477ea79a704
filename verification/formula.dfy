/**
 The task pipeline of the release `Formula` class: the task table, the
 pending-task list computed once and memoised, the project restriction
 that replaces the per-package forced tasks, and `process_me`, which
 tolerates failures of packages outside the `--only` selection.

 Task actions are abstracted as an oracle from a task code to the outcome
 of the method `process_me` calls for it.
 */
module Formula {
  import opened Text
  import opened Outcomes
  import opened Completion

  /** An entry of `all_tasks`: the method to call and whether the task may
      be skipped once done. */
  datatype TaskSpec = TaskSpec(func: String, skippable: bool)

  type TaskTable = seq<(String, TaskSpec)>

  /** `Formula.all_tasks`, an ordered dictionary keyed by one-letter task
      codes. */
  const AllTasks: TaskTable := [
    ("d", TaskSpec("download", true)),
    ("a", TaskSpec("unpack", true)),
    ("p", TaskSpec("patch", true)),
    ("c", TaskSpec("configure", true)),
    ("m", TaskSpec("make", true)),
    ("i", TaskSpec("install", true)),
    ("b", TaskSpec("bdist_egg", true)),
    ("u", TaskSpec("upload_egg", true)),
    ("g", TaskSpec("copy_egg", true)),
    ("x", TaskSpec("extend_sys_path", false)),
    ("y", TaskSpec("extend_python_path", false))
  ]

  /** `silent_tasks`: tasks whose output may be swallowed. */
  const SilentTasks: String := "fxy"

  /** `"".join(all_tasks.keys())`, the default `supported_tasks`. */
  function JoinKeys(t: TaskTable): String {
    if |t| == 0 then "" else t[0].0 + JoinKeys(t[1..])
  }

  /** `all_tasks.get(key)`: the entry under `key`, the first one should
      the table list the key twice (an ordered dictionary never does). */
  function Get(t: TaskTable, key: String): (r: Option<TaskSpec>)
    ensures r.Some? ==> (key, r.value) in t
    ensures r.Some? ==> exists i :: 0 <= i < |t| && t[i] == (key, r.value) && forall j :: 0 <= j < i ==> t[j].0 != key
    ensures r.None? <==> forall k :: 0 <= k < |t| ==> t[k].0 != key
  {
    if |t| == 0 then None
    else if t[0].0 == key then Some(t[0].1)
    else
      var r := Get(t[1..], key);
      assert forall k :: 1 <= k < |t| ==> t[k] == t[1..][k - 1];
      r
  }

  /** The declared table is keyed by one-letter codes. */
  lemma DefaultTable()
    ensures forall k :: 0 <= k < |AllTasks| ==> |AllTasks[k].0| == 1
  {
  }

  /** Over a table of one-letter keys, `JoinKeys` lists the keys' letters
      in table order. */
  lemma {:induction false} JoinKeysLetters(t: TaskTable)
    requires forall k :: 0 <= k < |t| ==> |t[k].0| == 1
    ensures |JoinKeys(t)| == |t|
    ensures forall i :: 0 <= i < |t| ==> JoinKeys(t)[i] == t[i].0[0]
    decreases |t|
  {
    if |t| > 0 {
      JoinKeysLetters(t[1..]);
      assert t[0].0 == [t[0].0[0]];
      forall i | 1 <= i < |t| ensures JoinKeys(t)[i] == t[i].0[0] {
        assert JoinKeys(t)[i] == JoinKeys(t[1..])[i - 1];
        assert t[1..][i - 1] == t[i];
      }
    }
  }

  /** A pending task: its code, its method and whether it is skippable. */
  datatype Pending = Pending(task: char, func: String, skippable: bool)

  /** The state of one `Formula` instance that the task machinery reads and
      writes. `forced` is the options dictionary (`options[name]` lists the
      forced codes); `restriction` is `options.get("only_action_projs")`;
      `pending` is `None` until computed. */
  datatype FormulaState = FormulaState(
    name: String,
    allTasks: TaskTable,
    supported: String,
    done: Record,
    forced: Record,
    restriction: Option<String>,
    pending: Option<seq<Pending>>)

  /** Whether task `t` counts as forced: membership in the restriction when
      there is one, otherwise in the package's own forced string. */
  predicate Forced(f: FormulaState, t: char)
    ensures f.restriction.Some? ==> (Forced(f, t) <==> t in f.restriction.value)
    ensures f.restriction.None? ==> (Forced(f, t) <==> f.name in f.forced && t in f.forced[f.name])
  {
    if f.restriction.Some? then t in f.restriction.value else IsDone(f.forced, f.name, t)
  }

  /** `skip = done and not forced and skippable`. */
  predicate SkipTask(f: FormulaState, t: char, skippable: bool) {
    IsDone(f.done, f.name, t) && !Forced(f, t) && skippable
  }

  /** The table key `__find_pending_tasks` looks a task up under. */
  function TaskKey(t: char): String {
    "_" + [t]
  }

  /** `__find_pending_tasks` over the codes `tasks`: a code whose key is
      missing from the table is dropped, the others are kept unless the
      skip rule holds. */
  function PendingIn(f: FormulaState, tasks: String): (r: seq<Pending>)
    ensures |r| <= |tasks|
    decreases |tasks|
  {
    if |tasks| == 0 then []
    else
      var rest := PendingIn(f, tasks[1..]);
      match Get(f.allTasks, TaskKey(tasks[0]))
      case None => rest
      case Some(spec) =>
        if SkipTask(f, tasks[0], spec.skippable) then rest
        else [Pending(tasks[0], spec.func, spec.skippable)] + rest
  }

  function PendingCodes(ps: seq<Pending>): (r: String)
    ensures |r| == |ps|
    ensures forall k :: 0 <= k < |ps| ==> r[k] == ps[k].task
  {
    seq(|ps|, k requires 0 <= k < |ps| => ps[k].task)
  }

  /** A pending entry is a supported code whose `'_'`-prefixed key is in the
      table, with that entry's method and flag, that the skip rule lets
      through. */
  lemma {:induction false} PendingMembership(f: FormulaState, tasks: String, p: Pending)
    ensures p in PendingIn(f, tasks) <==>
      p.task in tasks && Get(f.allTasks, TaskKey(p.task)) == Some(TaskSpec(p.func, p.skippable))
      && !SkipTask(f, p.task, p.skippable)
    decreases |tasks|
  {
    if |tasks| > 0 {
      PendingMembership(f, tasks[1..], p);
      assert tasks == [tasks[0]] + tasks[1..];
    }
  }

  /** Pending tasks come in the order of `supported_tasks`. */
  lemma {:induction false} PendingOrder(f: FormulaState, tasks: String)
    ensures IsSubseq(PendingCodes(PendingIn(f, tasks)), tasks)
    decreases |tasks|
  {
    if |tasks| > 0 {
      PendingOrder(f, tasks[1..]);
      var rest := PendingIn(f, tasks[1..]);
      var r := PendingIn(f, tasks);
      assert tasks == [tasks[0]] + tasks[1..];
      if r == rest {
        SubseqSkip(tasks[0], PendingCodes(rest), tasks[1..]);
      } else {
        assert PendingCodes(r) == [tasks[0]] + PendingCodes(rest);
        SubseqCons(tasks[0], PendingCodes(rest), tasks[1..]);
      }
    }
  }

  /** In a table keyed by one-letter codes no `'_'`-prefixed key is found. */
  lemma OneLetterKeysMissUnderscore(t: TaskTable, c: char)
    requires forall k :: 0 <= k < |t| ==> |t[k].0| == 1
    ensures Get(t, TaskKey(c)) == None
  {
  }

  lemma {:induction false} NothingPendingWhenKeysMissed(f: FormulaState, tasks: String)
    requires forall k :: 0 <= k < |f.allTasks| ==> |f.allTasks[k].0| == 1
    ensures PendingIn(f, tasks) == []
    decreases |tasks|
  {
    if |tasks| > 0 {
      OneLetterKeysMissUnderscore(f.allTasks, tasks[0]);
      NothingPendingWhenKeysMissed(f, tasks[1..]);
    }
  }

  /** With the table `Formula` declares, the `'_' + task` lookup never
      succeeds, so no task is ever pending, whatever the record, the forced
      tasks or the restriction say. */
  lemma DefaultTableNeverPending(f: FormulaState)
    requires f.allTasks == AllTasks
    ensures PendingIn(f, f.supported) == []
  {
    DefaultTable();
    NothingPendingWhenKeysMissed(f, f.supported);
  }

  /** A restriction replaces the per-package forced codes: with one, the
      pending list no longer depends on `options[name]`. */
  lemma {:induction false} RestrictionOverridesForced(f: FormulaState, forced2: Record, tasks: String)
    requires f.restriction.Some?
    ensures PendingIn(f, tasks) == PendingIn(f.(forced := forced2), tasks)
    decreases |tasks|
  {
    if |tasks| > 0 {
      RestrictionOverridesForced(f, forced2, tasks[1..]);
    }
  }

  /** `__find_pending_tasks` stores its result in `pending`. */
  function FindPendingTasks(f: FormulaState): (g: FormulaState)
    ensures g.pending == Some(PendingIn(f, f.supported))
    ensures g.(pending := f.pending) == f
  {
    f.(pending := Some(PendingIn(f, f.supported)))
  }

  /** The pending list does not read a previously stored list. */
  lemma {:induction false} PendingSameWithoutList(f: FormulaState, tasks: String, stored: Option<seq<Pending>>)
    ensures PendingIn(f.(pending := stored), tasks) == PendingIn(f, tasks)
    decreases |tasks|
  {
    if |tasks| > 0 {
      PendingSameWithoutList(f, tasks[1..], stored);
    }
  }

  /** The pending list depends on the table, the record and the options,
      not on a list computed before: recomputing it changes nothing, and
      it holds exactly the entries `PendingMembership` describes. */
  lemma FindPendingTasksStable(f: FormulaState, p: Pending)
    ensures FindPendingTasks(FindPendingTasks(f)) == FindPendingTasks(f)
    ensures p in FindPendingTasks(f).pending.value <==>
      p.task in f.supported && Get(f.allTasks, TaskKey(p.task)) == Some(TaskSpec(p.func, p.skippable))
      && !SkipTask(f, p.task, p.skippable)
  {
    var g := FindPendingTasks(f);
    assert g.(pending := f.pending) == f;
    PendingSameWithoutList(f, f.supported, g.pending);
    PendingMembership(f, f.supported, p);
  }

  /** `has_pending`: compute the pending list the first time only; true
      exactly when it is not empty. */
  function HasPending(f: FormulaState): (r: (bool, FormulaState))
    ensures r.1.pending.Some?
    ensures r.0 <==> |r.1.pending.value| > 0
    ensures f.pending.Some? ==> r.1 == f
    ensures f.pending.None? ==> r.1 == FindPendingTasks(f)
  {
    var g := if f.pending.None? then FindPendingTasks(f) else f;
    (|g.pending.value| != 0, g)
  }

  /** The list is computed once: asking again returns the same answer and
      state, and later changes to the record do not refresh it, so a task
      marked done afterwards still counts as pending. */
  lemma HasPendingMemoised(f: FormulaState, name: String, t: char)
    ensures HasPending(HasPending(f).1) == HasPending(f)
    ensures var g := HasPending(f).1;
      HasPending(g.(done := MarkDone(g.done, name, t))).0 == HasPending(f).0
  {
  }

  /** `__has_pending_verbose_tasks`: some pending task is not silent. */
  function HasPendingVerbose(ps: seq<Pending>): (r: bool)
    ensures r <==> exists k :: 0 <= k < |ps| && ps[k].task !in SilentTasks
  {
    if |ps| == 0 then false
    else if ps[0].task !in SilentTasks then true
    else
      var r := HasPendingVerbose(ps[1..]);
      assert forall k :: 1 <= k < |ps| ==> ps[k] == ps[1..][k - 1];
      r
  }

  /** `should_process = only is None or self.name in only`. */
  predicate ShouldProcess(name: String, only: Option<seq<String>>) {
    only.None? || name in only.value
  }

  /** What `process_me` leaves behind: `PendingMissing` when the pending
      list was never computed (iterating `None` raises a TypeError);
      otherwise the returned flag, the updated record and the codes of the
      actions invoked, or `Crashed` when an action raised. */
  datatype ProcessResult =
    | PendingMissing
    | Returned(ok: bool, done: Record, ran: String)
    | Crashed(done: Record, ran: String)

  /** An outcome after which `process_me` goes on to the next task. */
  predicate Continues(o: StepOutcome, should: bool) {
    o == Done || o == Later || (o == Failed && !should)
  }

  function Prefixed(c: char, r: ProcessResult): ProcessResult {
    match r
    case PendingMissing => PendingMissing
    case Returned(ok, done, ran) => Returned(ok, done, [c] + ran)
    case Crashed(done, ran) => Crashed(done, [c] + ran)
  }

  /** The loop of `process_me` over `ps[i..]` for package `name`. */
  function RunPending(ps: seq<Pending>, i: nat, name: String, should: bool, act: char -> StepOutcome,
                      done: Record): (r: ProcessResult)
    requires i <= |ps|
    ensures !r.PendingMissing?
    ensures r.Returned? && !r.ok ==> should
    decreases |ps| - i
  {
    if i == |ps| then Returned(true, done, "")
    else
      var p := ps[i];
      if p.skippable && !should then RunPending(ps, i + 1, name, should, act, done)
      else
        match act(p.task)
        case Later => Prefixed(p.task, RunPending(ps, i + 1, name, should, act, done))
        case Failed =>
          if should then Returned(false, done, [p.task])
          else Prefixed(p.task, RunPending(ps, i + 1, name, should, act, done))
        case Raised => Crashed(done, [p.task])
        case Done => Prefixed(p.task, RunPending(ps, i + 1, name, should, act, MarkDone(done, name, p.task)))
  }

  /** `process_me(only)`. */
  function ProcessMe(f: FormulaState, only: Option<seq<String>>, act: char -> StepOutcome): (r: ProcessResult)
    ensures r.PendingMissing? <==> f.pending.None?
    ensures r.Returned? && !r.ok ==> ShouldProcess(f.name, only)
  {
    if f.pending.None? then PendingMissing
    else RunPending(f.pending.value, 0, f.name, ShouldProcess(f.name, only), act, f.done)
  }

  /** The codes of `ps[i..]` that `process_me` runs: all of them for a
      selected package, only the non-skippable ones otherwise. */
  function ProcessPlan(ps: seq<Pending>, i: nat, should: bool): (r: String)
    requires i <= |ps|
    ensures |r| <= |ps| - i
    ensures IsSubseq(r, PendingCodes(ps)[i..])
    decreases |ps| - i
  {
    if i == |ps| then ""
    else
      var rest := ProcessPlan(ps, i + 1, should);
      assert PendingCodes(ps)[i..] == [ps[i].task] + PendingCodes(ps)[i + 1..];
      if ps[i].skippable && !should then
        SubseqSkip(ps[i].task, rest, PendingCodes(ps)[i + 1..]);
        rest
      else
        SubseqCons(ps[i].task, rest, PendingCodes(ps)[i + 1..]);
        [ps[i].task] + rest
  }

  /** What the plan holds: a task is planned exactly when a pending entry
      from `i` on carries it and the package is selected or the entry is
      not skippable. */
  lemma {:induction false} ProcessPlanMembership(ps: seq<Pending>, i: nat, should: bool, c: char)
    requires i <= |ps|
    ensures c in ProcessPlan(ps, i, should)
      <==> exists k :: i <= k < |ps| && ps[k].task == c && (should || !ps[k].skippable)
    decreases |ps| - i
  {
    if i < |ps| {
      ProcessPlanMembership(ps, i + 1, should, c);
      if ps[i].task == c && (should || !ps[i].skippable) {
        assert c in ProcessPlan(ps, i, should);
      }
    }
  }

  /** The invoked actions are the plan when `process_me` returned `True`,
      and a non-empty prefix of it otherwise. */
  predicate RanAlongPlan(r: ProcessResult, plan: String) {
    match r
    case PendingMissing => false
    case Returned(ok, _, ran) => if ok then ran == plan else |ran| > 0 && |ran| <= |plan| && ran == plan[..|ran|]
    case Crashed(_, ran) => |ran| > 0 && |ran| <= |plan| && ran == plan[..|ran|]
  }

  /** Every invoked action but the last let the loop go on; the last one
      did exactly when `True` was returned, `False` comes from a failure of
      a selected package and a crash from an exception. */
  predicate OutcomesExplain(r: ProcessResult, act: char -> StepOutcome, should: bool) {
    match r
    case PendingMissing => false
    case Returned(ok, _, ran) =>
      && (forall k :: 0 <= k < |ran| - 1 ==> Continues(act(ran[k]), should))
      && (|ran| > 0 ==> (ok <==> Continues(act(ran[|ran| - 1]), should)))
      && (!ok ==> |ran| > 0 && act(ran[|ran| - 1]) == Failed && should)
    case Crashed(_, ran) =>
      && (forall k :: 0 <= k < |ran| - 1 ==> Continues(act(ran[k]), should))
      && |ran| > 0 && act(ran[|ran| - 1]) == Raised
  }

  lemma PrefixedAlong(c: char, r: ProcessResult, plan: String, act: char -> StepOutcome, should: bool)
    requires RanAlongPlan(r, plan) && OutcomesExplain(r, act, should) && Continues(act(c), should)
    ensures RanAlongPlan(Prefixed(c, r), [c] + plan)
    ensures OutcomesExplain(Prefixed(c, r), act, should)
  {
    var ran := [c] + r.ran;
    assert Prefixed(c, r).ran == ran;
    assert forall k :: 1 <= k < |ran| ==> ran[k] == r.ran[k - 1];
    if !(r.Returned? && r.ok) {
      assert ([c] + plan)[..|ran|] == [c] + plan[..|r.ran|];
    }
  }

  /** `process_me` runs the plan in order: a selected package stops at its
      first failure and returns `False`, an unselected one goes past its
      failures, an exception stops either. */
  lemma {:induction false} RunPendingFollowsPlan(ps: seq<Pending>, i: nat, name: String, should: bool,
                                                 act: char -> StepOutcome, done: Record)
    requires i <= |ps|
    ensures RanAlongPlan(RunPending(ps, i, name, should, act, done), ProcessPlan(ps, i, should))
    ensures OutcomesExplain(RunPending(ps, i, name, should, act, done), act, should)
    decreases |ps| - i
  {
    if i < |ps| {
      var p := ps[i];
      var plan := ProcessPlan(ps, i + 1, should);
      if p.skippable && !should {
        RunPendingFollowsPlan(ps, i + 1, name, should, act, done);
      } else if act(p.task) == Done {
        RunPendingFollowsPlan(ps, i + 1, name, should, act, MarkDone(done, name, p.task));
        PrefixedAlong(p.task, RunPending(ps, i + 1, name, should, act, MarkDone(done, name, p.task)), plan, act, should);
      } else if Continues(act(p.task), should) {
        RunPendingFollowsPlan(ps, i + 1, name, should, act, done);
        PrefixedAlong(p.task, RunPending(ps, i + 1, name, should, act, done), plan, act, should);
      } else {
        assert [p.task] == ([p.task] + plan)[..1];
      }
    }
  }

  /** Only successes are recorded: the package's record gains exactly the
      invoked tasks whose action succeeded, `Later` and failures leave no
      mark, and no other package's record changes. */
  lemma {:induction false} RunPendingMarks(ps: seq<Pending>, i: nat, name: String, should: bool,
                                           act: char -> StepOutcome, done: Record)
    requires i <= |ps|
    ensures var r := RunPending(ps, i, name, should, act, done);
      && !r.PendingMissing?
      && (forall c :: IsDone(r.done, name, c) <==> IsDone(done, name, c) || (c in r.ran && act(c) == Done))
    decreases |ps| - i
  {
    if i < |ps| {
      var p := ps[i];
      var r := RunPending(ps, i, name, should, act, done);
      if p.skippable && !should {
        RunPendingMarks(ps, i + 1, name, should, act, done);
      } else if Continues(act(p.task), should) {
        var d' := if act(p.task) == Done then MarkDone(done, name, p.task) else done;
        var sub := RunPending(ps, i + 1, name, should, act, d');
        RunPendingMarks(ps, i + 1, name, should, act, d');
        assert r == Prefixed(p.task, sub);
        forall c ensures IsDone(r.done, name, c) <==> IsDone(done, name, c) || (c in r.ran && act(c) == Done) {
          assert c in r.ran <==> c == p.task || c in sub.ran;
        }
      }
    }
  }

  /** Running a package's tasks touches no other package's record. */
  lemma {:induction false} RunPendingKeepsOthers(ps: seq<Pending>, i: nat, name: String, should: bool,
                                                 act: char -> StepOutcome, done: Record, k: String)
    requires i <= |ps| && k != name
    ensures var r := RunPending(ps, i, name, should, act, done);
      !r.PendingMissing? && Lookup(r.done, k) == Lookup(done, k)
    decreases |ps| - i
  {
    if i < |ps| {
      var p := ps[i];
      if p.skippable && !should {
        RunPendingKeepsOthers(ps, i + 1, name, should, act, done, k);
      } else if act(p.task) == Done {
        var d' := MarkDone(done, name, p.task);
        RunPendingKeepsOthers(ps, i + 1, name, should, act, d', k);
        assert Lookup(d', k) == Lookup(done, k);
      } else if Continues(act(p.task), should) {
        RunPendingKeepsOthers(ps, i + 1, name, should, act, done, k);
      }
    }
  }

  /** The plan of an unselected package holds its non-skippable tasks only. */
  lemma {:induction false} UnselectedPlanNonSkippable(ps: seq<Pending>, i: nat, c: char)
    requires i <= |ps|
    requires c in ProcessPlan(ps, i, false)
    ensures exists k :: i <= k < |ps| && ps[k].task == c && !ps[k].skippable
    decreases |ps| - i
  {
    if !(ps[i].task == c && !ps[i].skippable) {
      UnselectedPlanNonSkippable(ps, i + 1, c);
    }
  }

  /** `process_me` for a package outside `--only`: it never returns
      `False`, and every action it invokes belongs to a non-skippable
      pending task (extending `PATH` or `PYTHONPATH`). */
  lemma ProcessMeTolerant(f: FormulaState, only: Option<seq<String>>, act: char -> StepOutcome)
    requires f.pending.Some? && !ShouldProcess(f.name, only)
    ensures var r := ProcessMe(f, only, act);
      && !r.PendingMissing?
      && (r.Returned? ==> r.ok)
      && (forall c :: c in r.ran ==> exists p :: p in f.pending.value && p.task == c && !p.skippable)
  {
    var ps := f.pending.value;
    RunPendingFollowsPlan(ps, 0, f.name, false, act, f.done);
    var r := ProcessMe(f, only, act);
    var plan := ProcessPlan(ps, 0, false);
    forall c | c in r.ran ensures exists p :: p in ps && p.task == c && !p.skippable {
      assert c in plan by {
        var k :| 0 <= k < |r.ran| && r.ran[k] == c;
        assert plan[k] == c;
      }
      UnselectedPlanNonSkippable(ps, 0, c);
      var k :| 0 <= k < |ps| && ps[k].task == c && !ps[k].skippable;
      assert ps[k] in ps;
    }
  }

  /** A deferred task stays unrecorded even though its action ran. */
  lemma ProcessMeLaterUnmarked(f: FormulaState, only: Option<seq<String>>, act: char -> StepOutcome, t: char)
    requires f.pending.Some? && act(t) == Later && !IsDone(f.done, f.name, t)
    ensures var r := ProcessMe(f, only, act); !r.PendingMissing? && !IsDone(r.done, f.name, t)
  {
    RunPendingMarks(f.pending.value, 0, f.name, ShouldProcess(f.name, only), act, f.done);
  }
}
