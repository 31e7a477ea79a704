/**
 The step registries of `dependency_builder.py`: ordered tables from a
 one-character step code to the builder method that performs the step and
 whether the step may be skipped once recorded as done.
 */
module Registry {
  import opened Text
  import opened Outcomes

  datatype Step = Step(code: char, action: String, skippable: bool)

  /** `proj_process_map`: compiling a third-party project. */
  const ProjProcessMap: seq<Step> := [
    Step('d', "download_source", true),
    Step('u', "unpack_source", true),
    Step('f', "fix_source_dir", false),
    Step('c', "_configure", true),
    Step('b', "_build", true),
    Step('i', "_install", true),
    Step('x', "_extend_sys_path", false),
    Step('y', "_extend_python_path", false)
  ]

  /** `egg_process_map`: packaging an egg. */
  const EggProcessMap: seq<Step> := [
    Step('c', "_configure_script", true),
    Step('e', "_eggify", true),
    Step('u', "_upload_egg", true)
  ]

  /** The registry's keys in order; also a builder's default `supported_procs`. */
  function CodesOf(steps: seq<Step>): (r: String)
    ensures |r| == |steps|
    ensures forall k :: 0 <= k < |steps| ==> r[k] == steps[k].code
  {
    seq(|steps|, k requires 0 <= k < |steps| => steps[k].code)
  }

  /** An ordered dictionary has each key once. */
  predicate UniqueCodes(steps: seq<Step>) {
    forall i, j :: 0 <= i < j < |steps| ==> steps[i].code != steps[j].code
  }

  /** Dictionary lookup `d[code]`: the entry registered under `code`. */
  function Find(steps: seq<Step>, code: char): (r: Option<Step>)
    ensures r.Some? ==> r.value in steps && r.value.code == code
    ensures r.None? <==> code !in CodesOf(steps)
  {
    if |steps| == 0 then None
    else if steps[0].code == code then Some(steps[0])
    else
      var r := Find(steps[1..], code);
      assert CodesOf(steps) == [steps[0].code] + CodesOf(steps[1..]);
      r
  }

  /** In a registry with unique keys, looking a step's code up gives back that step. */
  lemma {:induction false} FindRegistered(steps: seq<Step>, i: nat)
    requires UniqueCodes(steps) && i < |steps|
    ensures Find(steps, steps[i].code) == Some(steps[i])
  {
    if i > 0 {
      assert steps[0].code != steps[i].code;
      assert steps[1..][i - 1] == steps[i];
      FindRegistered(steps[1..], i - 1);
    }
  }

  /** Both registries are well formed; the project registry runs its stages
      in the order download, unpack, fix, configure, build, install, extend
      PATH, extend PYTHONPATH, and exactly `f`, `x` and `y` are not skippable. */
  lemma ProcessMapsWellFormed()
    ensures UniqueCodes(ProjProcessMap) && UniqueCodes(EggProcessMap)
    ensures CodesOf(ProjProcessMap) == "dufcbixy"
    ensures CodesOf(EggProcessMap) == "ceu"
    ensures forall s :: s in ProjProcessMap ==> (!s.skippable <==> s.code in "fxy")
    ensures forall s :: s in EggProcessMap ==> s.skippable
  {
  }

  /** The user-facing name of an action: its method name without surrounding
      underscores (`proc_func.strip("_")`). */
  function NiceName(action: String): String {
    Strip(action, {'_'})
  }

  function EntryCodes(entries: seq<(char, String)>): (r: String)
    ensures |r| == |entries|
    ensures forall k :: 0 <= k < |r| ==> r[k] == entries[k].0
  {
    if |entries| == 0 then "" else [entries[0].0] + EntryCodes(entries[1..])
  }

  /** The `(code, name)` pairs the help epilog lists for a registry: the
      skippable steps only, in registry order. */
  function EpilogEntries(steps: seq<Step>): (r: seq<(char, String)>)
    ensures |r| <= |steps|
    ensures IsSubseq(EntryCodes(r), CodesOf(steps))
  {
    if |steps| == 0 then []
    else
      var rest := EpilogEntries(steps[1..]);
      assert CodesOf(steps) == [steps[0].code] + CodesOf(steps[1..]);
      if steps[0].skippable then
        var r := [(steps[0].code, NiceName(steps[0].action))] + rest;
        assert EntryCodes(r) == [steps[0].code] + EntryCodes(rest);
        SubseqCons(steps[0].code, EntryCodes(rest), CodesOf(steps[1..]));
        r
      else
        SubseqSkip(steps[0].code, EntryCodes(rest), CodesOf(steps[1..]));
        rest
  }

  /** The epilog lists exactly the skippable steps, each under its nice name:
      `f`, `x` and `y` of the project registry never appear. */
  lemma {:induction false} EpilogListsSkippable(steps: seq<Step>)
    ensures forall e :: e in EpilogEntries(steps) ==>
      exists s :: s in steps && s.skippable && e == (s.code, NiceName(s.action))
    ensures forall s :: s in steps && s.skippable ==> (s.code, NiceName(s.action)) in EpilogEntries(steps)
  {
    if |steps| > 0 {
      EpilogListsSkippable(steps[1..]);
      var rest := EpilogEntries(steps[1..]);
      forall e | e in EpilogEntries(steps)
        ensures exists s :: s in steps && s.skippable && e == (s.code, NiceName(s.action))
      {
        if e in rest {
          var s :| s in steps[1..] && s.skippable && e == (s.code, NiceName(s.action));
          assert s in steps;
        } else {
          assert steps[0] in steps;
        }
      }
      forall s | s in steps && s.skippable
        ensures (s.code, NiceName(s.action)) in EpilogEntries(steps)
      {
        if s != steps[0] {
          assert s in steps[1..];
        }
      }
    }
  }

  /** The help line for one flag: a tab, the code, ` : ` and the name. */
  function EpilogLine(e: (char, String)): String {
    "\t" + [e.0] + " : " + e.1 + "\n"
  }

  function EpilogLines(entries: seq<(char, String)>): String {
    if |entries| == 0 then ""
    else EpilogLine(entries[0]) + EpilogLines(entries[1..])
  }

  /** Every entry's line appears in the listing. */
  lemma {:induction false} EpilogLinesHold(entries: seq<(char, String)>, e: (char, String))
    requires e in entries
    ensures Occurs(EpilogLine(e), EpilogLines(entries))
    decreases |entries|
  {
    var rest := EpilogLines(entries[1..]);
    if e == entries[0] {
      assert (EpilogLine(e) + rest)[..|EpilogLine(e)|] == EpilogLine(e);
    } else {
      assert e in entries[1..];
      EpilogLinesHold(entries[1..], e);
      OccursPrepend(EpilogLine(e), EpilogLine(entries[0]), rest);
    }
  }

  const ProjEpilogHeader: String := "PROJ_ACTIONS are a concatenation of flags specifying what actions will be done:\n"
  const EggEpilogHeader: String := "EGG_ACTIONS are a concatenation of flags specifying what actions will be done:\n"

  /** The help text for a project registry and an egg registry: a header
      and one line per skippable step, for each in turn. */
  function Epilog(projSteps: seq<Step>, eggSteps: seq<Step>): String {
    ProjEpilogHeader + EpilogLines(EpilogEntries(projSteps))
    + "\n" + EggEpilogHeader + EpilogLines(EpilogEntries(eggSteps))
  }

  /** `build_epilog`: the command-line help text listing the flags a user
      may force, first for projects then for eggs. */
  function BuildEpilog(): String {
    Epilog(ProjProcessMap, EggProcessMap)
  }

  /** The help text has a line for every skippable step of either
      registry, under its nice name. */
  lemma EpilogShowsSkippableFlags(projSteps: seq<Step>, eggSteps: seq<Step>, s: Step)
    requires s in projSteps || s in eggSteps
    requires s.skippable
    ensures Occurs(EpilogLine((s.code, NiceName(s.action))), Epilog(projSteps, eggSteps))
  {
    var head := ProjEpilogHeader;
    var proj := EpilogLines(EpilogEntries(projSteps));
    var egg := EpilogLines(EpilogEntries(eggSteps));
    var tail := "\n" + EggEpilogHeader + egg;
    var line := EpilogLine((s.code, NiceName(s.action)));
    assert Epilog(projSteps, eggSteps) == (head + proj) + tail;
    if s in projSteps {
      EpilogListsSkippable(projSteps);
      EpilogLinesHold(EpilogEntries(projSteps), (s.code, NiceName(s.action)));
      OccursPrepend(line, head, proj);
      OccursAppend(line, head + proj, tail);
    } else {
      EpilogListsSkippable(eggSteps);
      EpilogLinesHold(EpilogEntries(eggSteps), (s.code, NiceName(s.action)));
      assert tail == ("\n" + EggEpilogHeader) + egg;
      OccursPrepend(line, "\n" + EggEpilogHeader, egg);
      OccursPrepend(line, head + proj, tail);
    }
  }
}
