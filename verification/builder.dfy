/**
 The driver of `dependency_builder.py`: the projects and eggs it processes,
 the per-step skip decision (`must_skip_proc`), the step loop of
 `build_proj`, and `main`, which runs every project and then every egg
 inside the `with env:` block that loads and saves the completion record.

 Builder actions are abstracted as an oracle from a unit and a step code to
 the step's outcome; what each default action decides is modelled in
 module BuilderActions.
 */
module DependencyBuilder {
  import opened Text
  import opened Outcomes
  import opened Registry
  import opened Completion

  datatype UnitKind = ProjectUnit | EggUnit

  /** A `Project` or an `Egg` as handed to `build_proj`. */
  datatype Unit = Unit(kind: UnitKind, name: String)

  /** The source description of a project (`namedtuple("Project", ...)`).
      A `None` url means another project already fetched these sources. */
  datatype Project = Project(name: String, url: Option<String>, dlname: String, archSubdir: Option<String>)

  /** `projs`, in processing order. */
  const Projs: seq<Project> := [
    Project("mingwrt", None, "mingw", None),
    Project("qt4", Some("http://download.qt.nokia.com/qt/source/qt-everywhere-opensource-src-4.7.4.zip"), "qt4_src.zip", Some("qt-every*")),
    Project("sip", Some("http://www.riverbankcomputing.co.uk/static/Downloads/sip4/sip-4.13.zip"), "sip_src.zip", Some("sip*")),
    Project("pyqt4", Some("http://www.riverbankcomputing.co.uk/static/Downloads/PyQt4/PyQt-win-gpl-4.8.6.zip"), "pyqt4_src.zip", Some("PyQt*")),
    Project("qscintilla", Some("http://www.riverbankcomputing.co.uk/static/Downloads/QScintilla2/QScintilla-gpl-2.5.1.zip"), "qscintilla_src.zip", Some("QScint*/Qt4")),
    Project("pyqscintilla", None, "qscintilla_src.zip", Some("QScint*/Python")),
    Project("qglviewer", Some("https://gforge.inria.fr/frs/download.php/28138/libQGLViewer-2.3.9-py.tgz"), "qglviewer_src.tgz", Some("libQGLV*/QGLViewer")),
    Project("pyqglviewer", Some("https://gforge.inria.fr/frs/download.php/28212/PyQGLViewer-0.9.1.zip"), "pyqglviewer_src.zip", Some("PyQGLV*")),
    Project("boost", Some("http://switch.dl.sourceforge.net/project/boost/boost/1.48.0/boost_1_48_0.zip"), "boost_src.zip", Some("boost*"))
  ]

  /** `eggs`, in processing order. */
  const EggNames: seq<String> := ["mingw", "mingwrt", "qt4", "qt4_dev", "pyqglviewer", "boost"]

  /** The units `main` hands to `build_proj`: every project, then every egg. */
  function MainUnits(): (r: seq<Unit>)
    ensures |r| == |Projs| + |EggNames|
    ensures forall k :: 0 <= k < |Projs| ==> r[k] == Unit(ProjectUnit, Projs[k].name)
    ensures forall k :: 0 <= k < |EggNames| ==> r[|Projs| + k] == Unit(EggUnit, EggNames[k])
  {
    seq(|Projs|, k requires 0 <= k < |Projs| => Unit(ProjectUnit, Projs[k].name))
    + seq(|EggNames|, k requires 0 <= k < |EggNames| => Unit(EggUnit, EggNames[k]))
  }

  /** The key of a unit in the completion record and in the forced-step
      options: a project by its name, an egg by its name plus `_egg`. */
  function RecordKey(u: Unit): (r: String)
    ensures StartsWith(r, u.name)
    ensures (|r| == |u.name|) <==> (u.kind == ProjectUnit)
    ensures u.kind == EggUnit ==> r[|u.name|..] == "_egg"
  {
    match u.kind
    case EggUnit =>
      var r := u.name + "_egg";
      assert r[..|u.name|] == u.name && r[|u.name|..] == "_egg";
      r
    case ProjectUnit => u.name
  }

  /** Projects are driven by `proj_process_map`, eggs by `egg_process_map`. */
  function ProcessMap(kind: UnitKind): seq<Step> {
    if kind == EggUnit then EggProcessMap else ProjProcessMap
  }

  lemma ProcessMapUnique(kind: UnitKind)
    ensures UniqueCodes(ProcessMap(kind))
  {
    ProcessMapsWellFormed();
  }

  /** Project names are pairwise distinct. */
  lemma ProjNamesDistinct()
    ensures forall a, b :: 0 <= a < b < |Projs| ==> Projs[a].name != Projs[b].name
  {
  }

  /** No project name ends like an egg key (`_` four characters from the
      end). */
  lemma ProjNamesPlain()
    ensures forall a :: 0 <= a < |Projs| ==> |Projs[a].name| < 4 || Projs[a].name[|Projs[a].name| - 4] != '_'
  {
  }

  /** Egg names are pairwise distinct. */
  lemma EggNamesDistinct()
    ensures forall a, b :: 0 <= a < b < |EggNames| ==> EggNames[a] != EggNames[b]
  {
  }

  /** No two units of `main` share a record key, so one unit's steps never
      touch another unit's record: the `_egg` suffix keeps the `qt4` egg apart
      from the `qt4` project. */
  lemma MainUnitKeysDistinct()
    ensures forall a, b :: 0 <= a < b < |MainUnits()| ==> RecordKey(MainUnits()[a]) != RecordKey(MainUnits()[b])
  {
    var us := MainUnits();
    ProjNamesDistinct();
    ProjNamesPlain();
    EggNamesDistinct();
    forall a, b | 0 <= a < b < |us| ensures RecordKey(us[a]) != RecordKey(us[b]) {
      if b < |Projs| {
        assert RecordKey(us[a]) == Projs[a].name && RecordKey(us[b]) == Projs[b].name;
      } else if a >= |Projs| {
        var x, y := EggNames[a - |Projs|], EggNames[b - |Projs|];
        assert RecordKey(us[a]) == x + "_egg" && RecordKey(us[b]) == y + "_egg";
        assert x != y;
      } else {
        var k := RecordKey(us[b]);
        assert k == EggNames[b - |Projs|] + "_egg";
        assert k[|k| - 4] == '_';
        assert RecordKey(us[a]) == Projs[a].name;
      }
    }
  }

  /** The decision rule for one registered step, judged against a unit's
      completed codes `done` and forced codes `forced`. */
  predicate SkipRule(s: Step, supported: String, done: String, forced: String) {
    s.code !in supported || (s.code in done && s.code !in forced && s.skippable)
  }


  /** The body of `must_skip_proc` for a registry `reg`, the unit's
      completed codes `done` and its forced codes `forced`. The skippable
      flag is read back from the registry by code, as `d[proc][1]`. */
  function SkipCheck(reg: seq<Step>, supported: String, proc: char, done: String, forced: String): (skip: bool)
    requires UniqueCodes(reg)
    requires proc in supported ==> proc in CodesOf(reg)
    ensures proc !in supported ==> skip
    ensures forall i :: 0 <= i < |reg| && reg[i].code == proc ==> (skip <==> SkipRule(reg[i], supported, done, forced))
  {
    if proc !in supported then true
    else
      var entry := Find(reg, proc);
      assert forall i :: 0 <= i < |reg| && reg[i].code == proc ==> entry == Some(reg[i]) by {
        forall i | 0 <= i < |reg| && reg[i].code == proc ensures entry == Some(reg[i]) {
          FindRegistered(reg, i);
        }
      }
      proc in done && proc !in forced && entry.value.skippable
  }

  /** `must_skip_proc`: whether `build_proj` bypasses step `proc` of unit `u`
      whose builder supports the codes `supported`: always when the builder
      does not support it, otherwise exactly when it is recorded done, not
      forced, and skippable. Projects and eggs are looked up under their own
      record keys and registries. */
  function MustSkipProc(u: Unit, supported: String, proc: char, rec: Record, options: Record): (skip: bool)
    requires proc in supported ==> proc in CodesOf(ProcessMap(u.kind))
    ensures proc !in supported ==> skip
    ensures forall i :: 0 <= i < |ProcessMap(u.kind)| && ProcessMap(u.kind)[i].code == proc ==>
      (skip <==> SkipRule(ProcessMap(u.kind)[i], supported, Lookup(rec, RecordKey(u)), Lookup(options, RecordKey(u))))
  {
    ProcessMapUnique(u.kind);
    SkipCheck(ProcessMap(u.kind), supported, proc, Lookup(rec, RecordKey(u)), Lookup(options, RecordKey(u)))
  }

  /** Steps that are not skippable (`f`, `x`, `y` of a project) run whenever
      the builder supports them, whatever the record or the options say. */
  lemma NonSkippableNeverSkipped(u: Unit, supported: String, i: nat, rec: Record, options: Record)
    requires i < |ProcessMap(u.kind)| && !ProcessMap(u.kind)[i].skippable
    requires ProcessMap(u.kind)[i].code in supported
    ensures !MustSkipProc(u, supported, ProcessMap(u.kind)[i].code, rec, options)
  {
  }

  /** The codes of `reg[i..]` the rule lets run, all judged against the
      record as it stood when the unit started. */
  function Planned(reg: seq<Step>, i: nat, supported: String, done: String, forced: String): (r: String)
    requires i <= |reg|
    ensures |r| <= |reg| - i
    ensures IsSubseq(r, CodesOf(reg)[i..])
    decreases |reg| - i
  {
    if i == |reg| then ""
    else
      var rest := Planned(reg, i + 1, supported, done, forced);
      assert CodesOf(reg)[i..] == [reg[i].code] + CodesOf(reg)[i + 1..];
      if SkipRule(reg[i], supported, done, forced) then
        SubseqSkip(reg[i].code, rest, CodesOf(reg)[i + 1..]);
        rest
      else
        SubseqCons(reg[i].code, rest, CodesOf(reg)[i + 1..]);
        [reg[i].code] + rest
  }

  /** What a plan holds: a code is planned exactly when one of the steps
      it covers carries it and the skip rule lets that step run. With the
      order `Planned` keeps, a done, unforced, skippable step is never
      planned, and a supported step that is not skippable always is. */
  lemma {:induction false} PlannedMembership(reg: seq<Step>, i: nat, supported: String, done: String, forced: String, c: char)
    requires i <= |reg|
    ensures c in Planned(reg, i, supported, done, forced)
      <==> exists k :: i <= k < |reg| && reg[k].code == c && !SkipRule(reg[k], supported, done, forced)
    decreases |reg| - i
  {
    if i < |reg| {
      PlannedMembership(reg, i + 1, supported, done, forced, c);
      if reg[i].code == c && !SkipRule(reg[i], supported, done, forced) {
        assert c in Planned(reg, i, supported, done, forced);
      }
    }
  }

  /** The plan only looks at the codes of the steps it covers. */
  lemma {:induction false} PlannedIgnoresOtherCodes(reg: seq<Step>, i: nat, supported: String, d1: String, d2: String, forced: String)
    requires i <= |reg|
    requires forall j :: i <= j < |reg| ==> (reg[j].code in d1 <==> reg[j].code in d2)
    ensures Planned(reg, i, supported, d1, forced) == Planned(reg, i, supported, d2, forced)
    decreases |reg| - i
  {
    if i < |reg| {
      PlannedIgnoresOtherCodes(reg, i + 1, supported, d1, d2, forced);
    }
  }

  /** What one call of `build_proj` leaves behind: the record, the codes of
      the actions it invoked in order, and whether it ended the program. */
  datatype UnitRun = UnitRun(rec: Record, ran: String, exited: bool)

  /** The step loop of `build_proj` over registry `reg` from position `i`
      on, for the unit recorded under `key` with forced codes `forced`. */
  function RunSteps(reg: seq<Step>, key: String, supported: String, forced: String, act: char -> StepOutcome,
                    i: nat, rec: Record): (r: UnitRun)
    requires UniqueCodes(reg) && i <= |reg|
    ensures r.exited ==> |r.ran| > 0 && !Passes(act(r.ran[|r.ran| - 1]))
    decreases |reg| - i
  {
    if i == |reg| then UnitRun(rec, "", false)
    else
      var c := reg[i].code;
      assert c in CodesOf(reg);
      if SkipCheck(reg, supported, c, Lookup(rec, key), forced) then
        RunSteps(reg, key, supported, forced, act, i + 1, rec)
      else
        match act(c)
        case Later =>
          var sub := RunSteps(reg, key, supported, forced, act, i + 1, rec);
          UnitRun(sub.rec, [c] + sub.ran, sub.exited)
        case Failed => UnitRun(rec, [c], true)
        case Raised => UnitRun(rec, [c], true)
        case Done =>
          var sub := RunSteps(reg, key, supported, forced, act, i + 1, MarkDone(rec, key, c));
          UnitRun(sub.rec, [c] + sub.ran, sub.exited)
  }

  /** The actions a run invoked form the plan when the run did not exit,
      and a prefix of it otherwise: skipped steps are never invoked and
      nothing after a failure is. */
  predicate FollowsPlan(r: UnitRun, plan: String) {
    if r.exited then |r.ran| > 0 && |r.ran| <= |plan| && r.ran == plan[..|r.ran|] else r.ran == plan
  }

  /** Every invoked action passed, except the last one of a run that exited,
      which failed. */
  predicate OutcomesAgree(r: UnitRun, act: char -> StepOutcome) {
    && (forall k :: 0 <= k < |r.ran| - 1 ==> Passes(act(r.ran[k])))
    && (|r.ran| > 0 ==> (Passes(act(r.ran[|r.ran| - 1])) <==> !r.exited))
  }

  lemma ConsFollows(c: char, sub: UnitRun, plan: String, act: char -> StepOutcome)
    requires FollowsPlan(sub, plan) && OutcomesAgree(sub, act) && Passes(act(c))
    ensures FollowsPlan(UnitRun(sub.rec, [c] + sub.ran, sub.exited), [c] + plan)
    ensures OutcomesAgree(UnitRun(sub.rec, [c] + sub.ran, sub.exited), act)
  {
    var ran := [c] + sub.ran;
    assert forall k :: 1 <= k < |ran| ==> ran[k] == sub.ran[k - 1];
    if sub.exited {
      assert ([c] + plan)[..|ran|] == [c] + plan[..|sub.ran|];
    }
  }

  /** One step of `RunSteps`, case by case. */
  lemma RunStepsAt(reg: seq<Step>, key: String, supported: String, forced: String, act: char -> StepOutcome,
                   i: nat, rec: Record)
    requires UniqueCodes(reg) && i < |reg|
    ensures reg[i].code in CodesOf(reg)
    ensures var c := reg[i].code;
      var skip := SkipCheck(reg, supported, c, Lookup(rec, key), forced);
      var r := RunSteps(reg, key, supported, forced, act, i, rec);
      && (skip ==> r == RunSteps(reg, key, supported, forced, act, i + 1, rec))
      && (!skip && (act(c) == Failed || act(c) == Raised) ==> r == UnitRun(rec, [c], true))
      && (!skip && act(c) == Later ==> r == Glue([c], RunSteps(reg, key, supported, forced, act, i + 1, rec)))
      && (!skip && act(c) == Done ==>
            r == Glue([c], RunSteps(reg, key, supported, forced, act, i + 1, MarkDone(rec, key, c))))
  {
    assert reg[i].code in CodesOf(reg);
  }

  /** The run from step `i` follows its plan, given that the runs from step
      `i + 1` do, both from the record as it stands and from the record
      with step `i` marked. */
  lemma FollowsStep(reg: seq<Step>, key: String, supported: String, forced: String,
                    act: char -> StepOutcome, i: nat, rec: Record)
    requires UniqueCodes(reg) && i < |reg|
    requires var sub := RunSteps(reg, key, supported, forced, act, i + 1, rec);
      FollowsPlan(sub, Planned(reg, i + 1, supported, Lookup(rec, key), forced)) && OutcomesAgree(sub, act)
    requires var rec' := MarkDone(rec, key, reg[i].code);
      var sub := RunSteps(reg, key, supported, forced, act, i + 1, rec');
      FollowsPlan(sub, Planned(reg, i + 1, supported, Lookup(rec', key), forced)) && OutcomesAgree(sub, act)
    ensures FollowsPlan(RunSteps(reg, key, supported, forced, act, i, rec), Planned(reg, i, supported, Lookup(rec, key), forced))
    ensures OutcomesAgree(RunSteps(reg, key, supported, forced, act, i, rec), act)
  {
    var c := reg[i].code;
    var done := Lookup(rec, key);
    RunStepsAt(reg, key, supported, forced, act, i, rec);
    var skip := SkipCheck(reg, supported, c, done, forced);
    assert skip == SkipRule(reg[i], supported, done, forced);
    var plan := Planned(reg, i + 1, supported, done, forced);
    if skip {
    } else if act(c) == Later {
      ConsFollows(c, RunSteps(reg, key, supported, forced, act, i + 1, rec), plan, act);
    } else if act(c) == Done {
      var rec' := MarkDone(rec, key, c);
      assert forall j :: i + 1 <= j < |reg| ==> reg[j].code != c;
      PlannedIgnoresOtherCodes(reg, i + 1, supported, Lookup(rec', key), done, forced);
      ConsFollows(c, RunSteps(reg, key, supported, forced, act, i + 1, rec'), plan, act);
    } else {
      assert [c] == ([c] + plan)[..1];
    }
  }

  /** Actions are invoked exactly in plan order: a run that does not exit
      invokes the whole plan and every action passed; a run that exits
      invoked a prefix of the plan whose last action failed and all earlier
      ones passed. */
  lemma {:induction false} RunFollowsPlan(reg: seq<Step>, key: String, supported: String, forced: String,
                                          act: char -> StepOutcome, i: nat, rec: Record)
    requires UniqueCodes(reg) && i <= |reg|
    ensures FollowsPlan(RunSteps(reg, key, supported, forced, act, i, rec), Planned(reg, i, supported, Lookup(rec, key), forced))
    ensures OutcomesAgree(RunSteps(reg, key, supported, forced, act, i, rec), act)
    decreases |reg| - i
  {
    if i < |reg| {
      RunFollowsPlan(reg, key, supported, forced, act, i + 1, rec);
      RunFollowsPlan(reg, key, supported, forced, act, i + 1, MarkDone(rec, key, reg[i].code));
      FollowsStep(reg, key, supported, forced, act, i, rec);
    }
  }

  /** After the loop the unit's record holds exactly the codes it held before
      plus those of the invoked actions that succeeded: `Later` and failures
      leave no mark. No other unit's record changes, and no code is listed
      twice. */
  lemma {:induction false} RunMarksSuccesses(reg: seq<Step>, key: String, supported: String, forced: String,
                                             act: char -> StepOutcome, i: nat, rec: Record)
    requires UniqueCodes(reg) && i <= |reg|
    ensures var r := RunSteps(reg, key, supported, forced, act, i, rec);
      && (forall c :: IsDone(r.rec, key, c) <==> IsDone(rec, key, c) || (c in r.ran && act(c) == Done))
      && (forall k :: k != key ==> Lookup(r.rec, k) == Lookup(rec, k))
      && (NoDup(Lookup(rec, key)) ==> NoDup(Lookup(r.rec, key)))
    decreases |reg| - i
  {
    if i < |reg| {
      var c := reg[i].code;
      assert c in CodesOf(reg);
      if SkipCheck(reg, supported, c, Lookup(rec, key), forced) || act(c) == Later {
        RunMarksSuccesses(reg, key, supported, forced, act, i + 1, rec);
      } else if act(c) == Done {
        var rec' := MarkDone(rec, key, c);
        RunMarksSuccesses(reg, key, supported, forced, act, i + 1, rec');
        assert forall k :: k != key ==> Lookup(rec', k) == Lookup(rec, k);
      }
    }
  }

  /** `build_proj` applied to unit `u` whose builder supports `supported`. */
  function BuildUnit(u: Unit, supported: String, options: Record, act: char -> StepOutcome, rec: Record): (r: UnitRun)
    ensures forall k :: k != RecordKey(u) ==> Lookup(r.rec, k) == Lookup(rec, k)
    ensures forall c :: IsDone(r.rec, RecordKey(u), c) <==> IsDone(rec, RecordKey(u), c) || (c in r.ran && act(c) == Done)
    ensures FollowsPlan(r, Planned(ProcessMap(u.kind), 0, supported, Lookup(rec, RecordKey(u)), Lookup(options, RecordKey(u))))
  {
    ProcessMapUnique(u.kind);
    var reg, key, forced := ProcessMap(u.kind), RecordKey(u), Lookup(options, RecordKey(u));
    RunMarksSuccesses(reg, key, supported, forced, act, 0, rec);
    RunFollowsPlan(reg, key, supported, forced, act, 0, rec);
    RunSteps(reg, key, supported, forced, act, 0, rec)
  }

  function Glue(prefix: String, r: UnitRun): UnitRun {
    UnitRun(r.rec, prefix + r.ran, r.exited)
  }

  /** One step of `RunSteps`, case by case, as it advances a run whose
      codes `ran` have already been reported and whose whole result is
      `total`. */
  lemma RunStepsAdvance(reg: seq<Step>, key: String, supported: String, forced: String, act: char -> StepOutcome,
                        i: nat, cur: Record, ran: String, total: UnitRun)
    requires UniqueCodes(reg) && i < |reg|
    requires Glue(ran, RunSteps(reg, key, supported, forced, act, i, cur)) == total
    ensures reg[i].code in CodesOf(reg)
    ensures var c := reg[i].code;
      var skip := SkipCheck(reg, supported, c, Lookup(cur, key), forced);
      && (skip ==> Glue(ran, RunSteps(reg, key, supported, forced, act, i + 1, cur)) == total)
      && (!skip && (act(c) == Failed || act(c) == Raised) ==> total == UnitRun(cur, ran + [c], true))
      && (!skip && act(c) == Later ==>
            Glue(ran + [c], RunSteps(reg, key, supported, forced, act, i + 1, cur)) == total)
      && (!skip && act(c) == Done ==>
            Glue(ran + [c], RunSteps(reg, key, supported, forced, act, i + 1, MarkDone(cur, key, c))) == total)
  {
    var c := reg[i].code;
    assert c in CodesOf(reg);
    if !SkipCheck(reg, supported, c, Lookup(cur, key), forced) && (act(c) == Later || act(c) == Done) {
      var next := if act(c) == Done then MarkDone(cur, key, c) else cur;
      var sub := RunSteps(reg, key, supported, forced, act, i + 1, next);
      assert ran + ([c] + sub.ran) == (ran + [c]) + sub.ran;
    }
  }

  /** `build_proj(proj)`: visit the unit kind's registry in order, skip what
      `must_skip_proc` says, and act on each outcome: `Later` records nothing
      and goes on, `False` (or an escaping exception) ends the program on the
      spot, anything else marks the step done. */
  method BuildProj(u: Unit, supported: String, options: Record, act: char -> StepOutcome, rec: Record)
    returns (r: UnitRun)
    ensures r == BuildUnit(u, supported, options, act, rec)
  {
    var reg := ProcessMap(u.kind);
    var key := RecordKey(u);
    ghost var forced := Lookup(options, key);
    ProcessMapUnique(u.kind);
    ghost var total := RunSteps(reg, key, supported, forced, act, 0, rec);
    assert BuildUnit(u, supported, options, act, rec) == total;
    var cur := rec;
    var ran := "";
    var i := 0;
    while i < |reg|
      invariant 0 <= i <= |reg|
      invariant Glue(ran, RunSteps(reg, key, supported, forced, act, i, cur)) == total
    {
      var proc := reg[i].code;
      RunStepsAdvance(reg, key, supported, forced, act, i, cur, ran, total);
      var skip := MustSkipProc(u, supported, proc, cur, options);
      assert skip == SkipCheck(reg, supported, proc, Lookup(cur, key), forced);
      if skip {
        i := i + 1;
        continue;
      }
      var success := act(proc);
      if success == Failed || success == Raised {
        assert total == UnitRun(cur, ran + [proc], true);
        return UnitRun(cur, ran + [proc], true);
      }
      cur := if success == Done then MarkDone(cur, key, proc) else cur;
      ran := ran + [proc];
      i := i + 1;
    }
    r := UnitRun(cur, ran, false);
  }

  /** A deferred step is not recorded, even though its action was invoked. */
  lemma LaterLeavesUnmarked(u: Unit, supported: String, options: Record, act: char -> StepOutcome, rec: Record, c: char)
    requires !IsDone(rec, RecordKey(u), c) && act(c) == Later
    ensures !IsDone(BuildUnit(u, supported, options, act, rec).rec, RecordKey(u), c)
  {
    ProcessMapUnique(u.kind);
    RunMarksSuccesses(ProcessMap(u.kind), RecordKey(u), supported, Lookup(options, RecordKey(u)), act, 0, rec);
  }

  /** A rerun after `download` and `unpack` completed, with every action
      succeeding: the other project steps run, including the non-skippable
      `f`, `x` and `y`. Forcing `u` re-runs the unpack as well, while `d`
      stays skipped. */
  lemma ResumeScenario(act: char -> StepOutcome)
    requires forall c :: act(c) == Done
    ensures BuildUnit(Unit(ProjectUnit, "qt4"), "dufcbixy", map[], act, map["qt4" := "du"]).ran == "fcbixy"
    ensures BuildUnit(Unit(ProjectUnit, "qt4"), "dufcbixy", map["qt4" := "u"], act, map["qt4" := "du"]).ran == "ufcbixy"
  {
    var rec := map["qt4" := "du"];
    assert Lookup(rec, "qt4") == "du";
    assert Lookup(map["qt4" := "u"], "qt4") == "u";
    assert Lookup(map[], "qt4") == "";
    ResumePlans();
    ProcessMapsWellFormed();
    RunFollowsPlan(ProjProcessMap, "qt4", "dufcbixy", "", act, 0, rec);
    RunFollowsPlan(ProjProcessMap, "qt4", "dufcbixy", "u", act, 0, rec);
  }

  lemma ResumePlans()
    ensures Planned(ProjProcessMap, 0, "dufcbixy", "du", "") == "fcbixy"
    ensures Planned(ProjProcessMap, 0, "dufcbixy", "du", "u") == "ufcbixy"
  {
    ResumeHead("");
    ResumeHead("u");
  }

  /** The download step of the resume example stays skipped as done. */
  lemma ResumeHead(forced: String)
    requires forced == "" || forced == "u"
    ensures Planned(ProjProcessMap, 0, "dufcbixy", "du", forced) == (if forced == "u" then "ufcbixy" else "fcbixy")
  {
    ResumeUnpack(forced);
    assert 'd' in "du" && 'd' !in forced;
  }

  /** The unpack step of the resume example: skipped as done, unless `u`
      is forced. */
  lemma ResumeUnpack(forced: String)
    requires forced == "" || forced == "u"
    ensures Planned(ProjProcessMap, 1, "dufcbixy", "du", forced) == (if forced == "u" then "u" else "") + "fcbixy"
  {
    ResumeTail(forced);
    assert 'u' in "du";
  }

  /** From the fix step on, the plan of the resume example does not depend
      on the forced codes `u` or none. */
  lemma ResumeTail(forced: String)
    requires forced == "" || forced == "u"
    ensures Planned(ProjProcessMap, 2, "dufcbixy", "du", forced) == "fcbixy"
  {
    ResumeMiddle(forced);
    assert ProjProcessMap[2] == Step('f', "fix_source_dir", false);
  }

  /** The configure step of the resume example runs. */
  lemma ResumeMiddle(forced: String)
    requires forced == "" || forced == "u"
    ensures Planned(ProjProcessMap, 3, "dufcbixy", "du", forced) == "cbixy"
  {
    ResumeBuild(forced);
  }

  /** The build step of the resume example runs. */
  lemma ResumeBuild(forced: String)
    requires forced == "" || forced == "u"
    ensures Planned(ProjProcessMap, 4, "dufcbixy", "du", forced) == "bixy"
  {
    ResumeLast(forced);
  }

  /** The last four steps of the resume example all run. */
  lemma ResumeLast(forced: String)
    requires forced == "" || forced == "u"
    ensures Planned(ProjProcessMap, 5, "dufcbixy", "du", forced) == "ixy"
  {
    var reg := ProjProcessMap;
    assert Planned(reg, 8, "dufcbixy", "du", forced) == "";
    assert Planned(reg, 7, "dufcbixy", "du", forced) == "y";
    assert Planned(reg, 6, "dufcbixy", "du", forced) == "xy";
  }

  /** The `mingwrt` builder supports only `i`: whatever the user forces, it
      invokes at most the install action. */
  lemma MingwrtOnlyInstalls(options: Record, act: char -> StepOutcome, rec: Record)
    ensures |BuildUnit(Unit(ProjectUnit, "mingwrt"), "i", options, act, rec).ran| <= 1
  {
    var f := Lookup(options, "mingwrt");
    var plan := Planned(ProjProcessMap, 0, "i", Lookup(rec, "mingwrt"), f);
    MingwrtPlan(Lookup(rec, "mingwrt"), f);
    ProcessMapsWellFormed();
    RunFollowsPlan(ProjProcessMap, "mingwrt", "i", f, act, 0, rec);
    var r := RunSteps(ProjProcessMap, "mingwrt", "i", f, act, 0, rec);
    assert BuildUnit(Unit(ProjectUnit, "mingwrt"), "i", options, act, rec) == r;
    assert FollowsPlan(r, plan);
    assert |r.ran| <= |plan|;
  }

  /** With only `i` supported, the plan holds at most the install step. */
  lemma MingwrtPlan(d: String, f: String)
    ensures |Planned(ProjProcessMap, 0, "i", d, f)| <= 1
  {
    var reg := ProjProcessMap;
    assert Planned(reg, 6, "i", d, f) == "";
    assert |Planned(reg, 5, "i", d, f)| <= 1;
    assert Planned(reg, 4, "i", d, f) == Planned(reg, 5, "i", d, f);
    assert Planned(reg, 3, "i", d, f) == Planned(reg, 4, "i", d, f);
    assert Planned(reg, 2, "i", d, f) == Planned(reg, 3, "i", d, f);
    assert Planned(reg, 1, "i", d, f) == Planned(reg, 2, "i", d, f);
    assert Planned(reg, 0, "i", d, f) == Planned(reg, 1, "i", d, f);
  }

  /** Everything `main` did: the final record (the one `__exit__` saves,
      also when the run stopped early), every invoked action as a pair of a
      unit position and a step code, and the position of the unit that ended
      the program, if any. */
  datatype PipelineRun = PipelineRun(rec: Record, ran: seq<(nat, char)>, haltedAt: Option<nat>)

  /** Pairs each code of one unit's run with the unit's position. */
  function Tag(j: nat, codes: String): (r: seq<(nat, char)>)
    ensures |r| == |codes|
    ensures forall k :: 0 <= k < |r| ==> r[k] == (j, codes[k])
  {
    seq(|codes|, k requires 0 <= k < |codes| => (j, codes[k]))
  }

  /** `build_proj` for each of `units[j..]` in turn, stopping for good at the
      first unit that exits. */
  function RunUnits(units: seq<Unit>, j: nat, supportedOf: Unit -> String, options: Record,
                    act: (Unit, char) -> StepOutcome, rec: Record): (r: PipelineRun)
    requires j <= |units|
    ensures forall k :: (forall m :: j <= m < |units| ==> RecordKey(units[m]) != k) ==> Lookup(r.rec, k) == Lookup(rec, k)
    decreases |units| - j
  {
    if j == |units| then PipelineRun(rec, [], None)
    else
      var u := units[j];
      var one := BuildUnit(u, supportedOf(u), options, c => act(u, c), rec);
      if one.exited then PipelineRun(one.rec, Tag(j, one.ran), Some(j))
      else
        var rest := RunUnits(units, j + 1, supportedOf, options, act, one.rec);
        PipelineRun(rest.rec, Tag(j, one.ran) + rest.ran, rest.haltedAt)
  }

  /** Invocations are attributed to units from `j` on, none after the unit
      that ended the program. */
  lemma {:induction false} RunUnitsHaltBounds(units: seq<Unit>, j: nat, supportedOf: Unit -> String, options: Record,
                                              act: (Unit, char) -> StepOutcome, rec: Record)
    requires j <= |units|
    ensures var r := RunUnits(units, j, supportedOf, options, act, rec);
      && (r.haltedAt.Some? ==> j <= r.haltedAt.value < |units|)
      && (forall e :: e in r.ran ==> j <= e.0 < |units| && (r.haltedAt.Some? ==> e.0 <= r.haltedAt.value))
    decreases |units| - j
  {
    if j < |units| {
      var u := units[j];
      var one := BuildUnit(u, supportedOf(u), options, c => act(u, c), rec);
      if !one.exited {
        RunUnitsHaltBounds(units, j + 1, supportedOf, options, act, one.rec);
        var rest := RunUnits(units, j + 1, supportedOf, options, act, one.rec);
        var r := RunUnits(units, j, supportedOf, options, act, rec);
        assert r.ran == Tag(j, one.ran) + rest.ran;
        assert forall e :: e in r.ran ==> e in Tag(j, one.ran) || e in rest.ran;
      }
    }
  }

  /** Invocations listed by non-decreasing unit position. */
  predicate ByPosition(ran: seq<(nat, char)>) {
    forall a, b :: 0 <= a < b < |ran| ==> ran[a].0 <= ran[b].0
  }

  /** Invocations of unit `j` followed by ordered invocations of later
      units stay ordered. */
  lemma ByPositionConcat(j: nat, t: seq<(nat, char)>, rest: seq<(nat, char)>)
    requires forall k :: 0 <= k < |t| ==> t[k].0 == j
    requires forall k :: 0 <= k < |rest| ==> j <= rest[k].0
    requires ByPosition(rest)
    ensures ByPosition(t + rest)
  {
    var ran := t + rest;
    forall a, b | 0 <= a < b < |ran| ensures ran[a].0 <= ran[b].0 {
      if b < |t| {
        assert ran[a] == t[a] && ran[b] == t[b];
      } else if a < |t| {
        assert ran[a] == t[a] && ran[b] == rest[b - |t|];
      } else {
        assert ran[a] == rest[a - |t|] && ran[b] == rest[b - |t|];
      }
    }
  }

  /** Units are processed one after the other: the invocations of an earlier
      unit all come before those of a later one. */
  lemma {:induction false} RunUnitsOrdered(units: seq<Unit>, j: nat, supportedOf: Unit -> String, options: Record,
                                           act: (Unit, char) -> StepOutcome, rec: Record)
    requires j <= |units|
    ensures ByPosition(RunUnits(units, j, supportedOf, options, act, rec).ran)
    decreases |units| - j
  {
    if j < |units| {
      var u := units[j];
      var one := BuildUnit(u, supportedOf(u), options, c => act(u, c), rec);
      if !one.exited {
        RunUnitsOrdered(units, j + 1, supportedOf, options, act, one.rec);
        RunUnitsHaltBounds(units, j + 1, supportedOf, options, act, one.rec);
        var rest := RunUnits(units, j + 1, supportedOf, options, act, one.rec).ran;
        assert forall k :: 0 <= k < |rest| ==> j <= rest[k].0 by {
          forall k | 0 <= k < |rest| ensures j <= rest[k].0 {
            assert rest[k] in rest;
          }
        }
        ByPositionConcat(j, Tag(j, one.ran), rest);
      }
    }
  }

  /** Only the records of the units that were reached can have changed. */
  lemma {:induction false} RunUnitsKeepsUnreached(units: seq<Unit>, j: nat, supportedOf: Unit -> String, options: Record,
                                                  act: (Unit, char) -> StepOutcome, rec: Record, key: String)
    requires j <= |units|
    requires var r := RunUnits(units, j, supportedOf, options, act, rec);
      forall k :: j <= k < |units| && (r.haltedAt.None? || k <= r.haltedAt.value) ==> RecordKey(units[k]) != key
    ensures Lookup(RunUnits(units, j, supportedOf, options, act, rec).rec, key) == Lookup(rec, key)
    decreases |units| - j
  {
    if j < |units| {
      var u := units[j];
      var one := BuildUnit(u, supportedOf(u), options, c => act(u, c), rec);
      ProcessMapUnique(u.kind);
      RunMarksSuccesses(ProcessMap(u.kind), RecordKey(u), supportedOf(u), Lookup(options, RecordKey(u)), c => act(u, c), 0, rec);
      RunUnitsHaltBounds(units, j, supportedOf, options, act, rec);
      assert RecordKey(units[j]) != key;
      if !one.exited {
        RunUnitsKeepsUnreached(units, j + 1, supportedOf, options, act, one.rec, key);
      }
    }
  }

  /** `main`: load the record (empty if the file is missing or unreadable),
      build every project then every egg, and return the record that is
      saved on the way out, whether or not a step ended the program. A unit
      after the one that ended the program invokes nothing and keeps its
      record as loaded. */
  function RunPipeline(stored: Option<Record>, supportedOf: Unit -> String, options: Record,
                       act: (Unit, char) -> StepOutcome): (r: PipelineRun)
    ensures r.haltedAt.Some? ==> forall e :: e in r.ran ==> e.0 <= r.haltedAt.value
    ensures r.haltedAt.Some? ==> forall k :: r.haltedAt.value < k < |MainUnits()| ==>
      Lookup(r.rec, RecordKey(MainUnits()[k])) == Lookup(Load(stored), RecordKey(MainUnits()[k]))
  {
    var units := MainUnits();
    var r := RunUnits(units, 0, supportedOf, options, act, Load(stored));
    MainUnitKeysDistinct();
    RunUnitsHaltBounds(units, 0, supportedOf, options, act, Load(stored));
    forall k | r.haltedAt.Some? && r.haltedAt.value < k < |units|
      ensures Lookup(r.rec, RecordKey(units[k])) == Lookup(Load(stored), RecordKey(units[k]))
    {
      RunUnitsKeepsUnreached(units, 0, supportedOf, options, act, Load(stored), RecordKey(units[k]));
    }
    r
  }
}
