/**
 The decisions taken by the default task methods of the release `Formula`
 and its naming helpers. As for the deploy builders, the file system, the
 network and the helpers of `openalea.release.utils` (`url`, `unpack`,
 `into_subdir`) are inputs.
 */
module FormulaActions {
  import opened Text
  import opened Outcomes
  import opened BuilderActions

  // ---------------------------------------------------------------------
  // _download

  /** `Formula._download`: a `None` url or an archive name already present
      in the download directory (`listing`) means success without a fetch;
      otherwise the result of `url(...)`. The method has no `try_except`,
      so an exception from `url` escapes to `process_me`. */
  function Download(url: Option<String>, listing: seq<String>, dlname: String, fetch: HelperCall): (r: DownloadResult)
    ensures r.fetched <==> url.Some? && dlname !in listing
    ensures !r.fetched ==> r.outcome == Done
    ensures r.outcome != Later
    ensures r.outcome == Raised <==> r.fetched && fetch.Threw?
    ensures r.fetched ==> (r.outcome == Done <==> fetch == Answered(true))
  {
    if url.None? || dlname in listing then DownloadResult(Done, false)
    else if fetch.Threw? then DownloadResult(Raised, true)
    else DownloadResult(FromBool(fetch.ok), true)
  }

  /** Once the archive is in the download directory, the task is not
      fetched again; unlike `download_source`, a partial file counts as
      downloaded. */
  lemma DownloadOnce(url: Option<String>, listing: seq<String>, dlname: String, fetch1: HelperCall, fetch2: HelperCall)
    requires Download(url, listing, dlname, fetch1).fetched
    ensures Download(url, listing + [dlname], dlname, fetch2) == DownloadResult(Done, false)
  {
    assert dlname in listing + [dlname];
  }

  // ---------------------------------------------------------------------
  // _fix_source_dir, _unpack

  /** The source directory and the `_source_dir_fixed` flag. */
  datatype SourceDir = SourceDir(path: String, fixed: bool)

  /** `Formula._fix_source_dir`, given what `into_subdir` returns (`None`
      when the subdirectory is missing or the call raised). It returns
      `None` when there is no archive subdirectory or the flag is set,
      `False` when the subdirectory is missing (the directory is restored),
      `True` otherwise. The statement setting the flag follows the returns,
      so the flag never changes. */
  function FixSourceDirRelease(st: SourceDir, archiveSubdir: Option<String>, into: Option<String>): (r: (Option<bool>, SourceDir))
    ensures r.1.fixed == st.fixed
    ensures r.0.None? <==> archiveSubdir.None? || |archiveSubdir.value| == 0 || st.fixed
    ensures r.0 == Some(false) ==> r.1 == st
    ensures r.0 == Some(true) ==> into.Some? && r.1.path == into.value
    ensures r.0.None? ==> r.1 == st
  {
    if archiveSubdir.None? || |archiveSubdir.value| == 0 then (None, st)
    else if st.fixed then (None, st)
    else if into.None? then (Some(false), st)
    else (Some(true), st.(path := into.value))
  }

  /** Since the flag is never set, every call with an archive subdirectory
      descends again: the outcome of a call depends only on what
      `into_subdir` finds this time. */
  lemma FixSourceDirNeverLatches(st: SourceDir, sub: String, into1: Option<String>, into2: Option<String>)
    requires !st.fixed && |sub| > 0
    ensures var first := FixSourceDirRelease(st, Some(sub), into1);
      && !first.1.fixed
      && FixSourceDirRelease(first.1, Some(sub), into2).0 == Some(into2.Some?)
  {
  }

  /** With a non-empty archive subdirectory and an unset flag, the release
      and the deploy versions agree when `into_subdir` finds what the glob
      finds first: both succeed exactly when there is a match, and both
      move to it. */
  lemma FixSourceDirVersionsAgree(st: SourceDir, sub: String, matches: seq<String>)
    requires !st.fixed && |sub| > 0
    ensures var rel := FixSourceDirRelease(st, Some(sub), if |matches| > 0 then Some(matches[0]) else None);
      var dep := FixSourceDir(st.path, Some(sub), matches);
      && (rel.0 == Some(true) <==> dep.0 == Done)
      && rel.1.path == dep.1
  {
  }

  /** What `_unpack` reports, whether it called `unpack`, and the source
      directory afterwards. */
  datatype UnpackRelease = UnpackRelease(outcome: StepOutcome, unpacked: bool, dir: SourceDir)

  /** `Formula._unpack`: the `None` url branch sets the result to `True`
      but does not return, so with a missing source directory the archive
      is unpacked anyway. The `_fix_source_dir` call that follows is always
      made and its result ignored, unless `unpack` raised: the method has
      no `try_except`, so that exception escapes before the fix. */
  function Unpack(url: Option<String>, sourceExists: bool, unpack: HelperCall,
                  st: SourceDir, archiveSubdir: Option<String>, into: Option<String>): (r: UnpackRelease)
    ensures r.unpacked <==> !sourceExists
    ensures r.outcome != Later
    ensures r.outcome == Done <==> sourceExists || unpack == Answered(true)
    ensures r.outcome == Raised <==> !sourceExists && unpack.Threw?
    ensures r.outcome != Raised ==> r.dir == FixSourceDirRelease(st, archiveSubdir, into).1
    ensures r.outcome == Raised ==> r.dir == st
  {
    if sourceExists then UnpackRelease(Done, false, FixSourceDirRelease(st, archiveSubdir, into).1)
    else if unpack.Threw? then UnpackRelease(Raised, true, st)
    else UnpackRelease(FromBool(unpack.ok), true, FixSourceDirRelease(st, archiveSubdir, into).1)
  }

  /** The two versions disagree on a project without url: `unpack_source`
      returns at once, `_unpack` still unpacks when the directory is
      missing, and its result then decides the task. */
  lemma UrlNoneStillUnpacks(dlname: String, unpack: HelperCall, st: SourceDir, sub: Option<String>, into: Option<String>)
    ensures UnpackSource(None, dlname, false, unpack == Answered(true)) == UnpackResult(Done, None)
    ensures var r := Unpack(None, false, unpack, st, sub, into); r.unpacked && (r.outcome == Done <==> unpack == Answered(true))
  {
  }

  /** A raising `unpack` stops the task before the source directory is
      fixed, whereas a failing one still descends into the archive
      subdirectory when it can. */
  lemma UnpackRaiseSkipsFix(st: SourceDir, sub: String, into: String)
    requires !st.fixed && |sub| > 0 && into != st.path
    ensures Unpack(None, false, Threw, st, Some(sub), Some(into)).dir.path == st.path
    ensures Unpack(None, false, Answered(false), st, Some(sub), Some(into)).dir.path == into
  {
  }

  // ---------------------------------------------------------------------
  // _extend_sys_path, _extend_python_path

  /** `Formula._extend_sys_path`: the extra paths go in front of `PATH`. */
  function ExtendSysPathPrepend(env: Environ, exp: ExtraPaths, sep: char): (r: Result<Environ, String>)
    ensures exp.NoExtra? ==> r == Ok(env)
    ensures !exp.NoExtra? && "PATH" !in env ==> r.Err?
    ensures r.Ok? ==> r.value.Keys == env.Keys
    ensures r.Ok? ==> forall k :: k in env && k != "PATH" ==> r.value[k] == env[k]
    ensures r.Ok? && !exp.NoExtra? ==> r.value["PATH"] == ExtraString(exp, sep) + [sep] + env["PATH"]
  {
    if exp.NoExtra? then Ok(env)
    else if "PATH" !in env then Err("PATH")
    else
      JoinPair(sep, ExtraString(exp, sep), env["PATH"]);
      Ok(env["PATH" := Join(sep, [ExtraString(exp, sep), env["PATH"]])])
  }

  /** `Formula._extend_python_path`: `sys.path` is extended as in the
      deploy builders, but the entries go in front of `PYTHONPATH`. */
  function ExtendPythonPathPrepend(st: PythonPaths, exp: ExtraPaths, sep: char): (r: PythonPaths)
    ensures exp.NoExtra? ==> r == st
    ensures !exp.NoExtra? ==> r.env == st.env["PYTHONPATH" := ExtraString(exp, sep) + [sep] + Completion.Lookup(st.env, "PYTHONPATH")]
    ensures r.sysPath == ExtendPythonPathAppend(st, exp, sep).sysPath
  {
    if exp.NoExtra? then st
    else
      var added := if exp.Many? then exp.parts else Split(exp.path, sep);
      var prev := Completion.Lookup(st.env, "PYTHONPATH");
      JoinPair(sep, ExtraString(exp, sep), prev);
      PythonPaths(st.env["PYTHONPATH" := Join(sep, [ExtraString(exp, sep), prev])], st.sysPath + added)
  }

  /** The release puts the extra entries first, the deploy builders last:
      the same `PATH` and extras give the two concatenations. */
  lemma PrependPutsExtraFirst(env: Environ, parts: seq<String>, sep: char)
    requires "PATH" in env && |parts| >= 1
    requires forall i :: 0 <= i < |parts| ==> sep !in parts[i]
    ensures var r := ExtendSysPathPrepend(env, Many(parts), sep);
      r.Ok? && Split(r.value["PATH"], sep) == parts + Split(env["PATH"], sep)
    ensures var a := ExtendSysPathAppend(env, Many(parts), sep);
      a.Ok? && Split(a.value["PATH"], sep) == Split(env["PATH"], sep) + parts
  {
    SplitAround(Join(sep, parts), env["PATH"], sep);
    SplitJoin(parts, sep);
    AppendKeepsOldEntriesFirst(env, parts, sep);
  }

  // ---------------------------------------------------------------------
  // _upload_egg

  /** What `_upload_egg` returns and the `use_cfg_login` flag after it. */
  datatype UploadResult = UploadResult(outcome: StepOutcome, useCfgLogin: bool)

  /** `Formula._upload_egg` (inside `try_except`), given how `upload_egg`
      ends with the explicit credentials (`cred`) and with the configured
      login (`cfg`). Without a login or password the flag is set first and
      the configured login is tried: a `False` answer defers the task, an
      exception fails it. With both, `upload_egg` still uses the
      configured login once the flag is set. A missing option key raises,
      caught into `False`. */
  function UploadEggRelease(login: OptionValue, passwd: OptionValue, useCfg: bool, cred: HelperCall, cfg: HelperCall): (r: UploadResult)
    ensures r.outcome != Raised
    ensures useCfg ==> r.useCfgLogin
    ensures login.Absent? || (Truthy(login) && passwd.Absent?) ==> r == UploadResult(Failed, useCfg)
    ensures !login.Absent? && !(Truthy(login) && passwd.Absent?) && !(Truthy(login) && Truthy(passwd)) ==>
      && r.useCfgLogin
      && (r.outcome == Done <==> cfg == Answered(true))
      && (r.outcome == Later <==> cfg == Answered(false))
      && (r.outcome == Failed <==> cfg.Threw?)
    ensures Truthy(login) && Truthy(passwd) ==>
      && r.useCfgLogin == useCfg
      && (r.outcome == Done <==> (if useCfg then cfg else cred) == Answered(true))
      && (r.outcome == Failed <==> (if useCfg then cfg else cred) != Answered(true))
  {
    if login.Absent? then UploadResult(Failed, useCfg)
    else if Truthy(login) && passwd.Absent? then UploadResult(Failed, useCfg)
    else if !Truthy(login) || !Truthy(passwd) then
      UploadResult(if cfg == Answered(true) then Done else if cfg == Answered(false) then Later else Failed, true)
    else UploadResult(Caught(if useCfg then cfg else cred), useCfg)
  }

  /** Unlike the deploy builders, a missing login does not simply defer:
      the configured login is tried first, and it sticks for later
      uploads that do bring credentials. */
  lemma CfgLoginSticks(cred: HelperCall, cfg: HelperCall, login: String, passwd: String)
    requires |login| > 0 && |passwd| > 0
    ensures UploadEggDeploy(NoneValue, NoneValue, cfg == Answered(true)) == Later
    ensures var first := UploadEggRelease(NoneValue, NoneValue, false, cred, cfg);
      && first.useCfgLogin
      && UploadEggRelease(Text(login), Text(passwd), first.useCfgLogin, cred, cfg).outcome == Caught(cfg)
  {
  }

  // ---------------------------------------------------------------------
  // egg_name, packagename, _filter_packages

  /** `cls.__name__.strip("egg_")`: the characters `e`, `g` and `_` are
      removed from both ends, not the prefix `egg_`. */
  function EggName(cls: String): (r: String)
    ensures exists i, j ::
              0 <= i <= j <= |cls| && r == cls[i..j] && AllIn(cls[..i], {'e', 'g', '_'}) && AllIn(cls[j..], {'e', 'g', '_'})
    ensures |r| > 0 ==> r[0] !in {'e', 'g', '_'} && r[|r| - 1] !in {'e', 'g', '_'}
  {
    Strip(cls, {'e', 'g', '_'})
  }

  /** `egg_` followed by a name that neither starts nor ends with `e`, `g`
      or `_` names the egg after that name. */
  lemma EggNameOfPlainName(n: String)
    requires |n| > 0 && n[0] !in {'e', 'g', '_'} && n[|n| - 1] !in {'e', 'g', '_'}
    ensures EggName("egg_" + n) == n
  {
    var cs := {'e', 'g', '_'};
    LStripPrefix("egg_", n, cs);
    RStripKeeps(n, cs);
    StripUnfold("egg_" + n, cs);
  }

  /** The character strip eats into names that begin or end with those
      letters: `egg_gnuplot` names the egg `nuplot`. */
  lemma EggNameEatsLetters()
    ensures EggName("egg_gnuplot") == "nuplot"
  {
    var cs := {'e', 'g', '_'};
    assert "egg_g" + "nuplot" == "egg_gnuplot";
    LStripPrefix("egg_g", "nuplot", cs);
    RStripKeeps("nuplot", cs);
    StripUnfold("egg_gnuplot", cs);
  }

  /** `packagename`: the declared `__packagename__`, or the egg name when
      it is `None` or empty. */
  function PackageName(declared: Option<String>, cls: String): (r: String)
    ensures declared.Some? && |declared.value| > 0 ==> r == declared.value
    ensures declared.None? || |declared.value| == 0 ==> r == EggName(cls)
  {
    if declared.Some? && |declared.value| > 0 then declared.value else EggName(cls)
  }

  /** A package belongs to `name`: it is `name` or one of its subpackages. */
  predicate InPackage(p: String, name: String) {
    p == name || StartsWith(p, name + ".")
  }

  /** Without a declared `__packagename__` (or with an empty one), an
      `egg_<n>` class whose `<n>` neither starts nor ends with `e`, `g` or
      `_` is packaged as `<n>`, and `_filter_packages` keeps `<n>` itself. */
  lemma PackageNameOfPlainEgg(n: String, pkgs: seq<String>)
    requires |n| > 0 && n[0] !in {'e', 'g', '_'} && n[|n| - 1] !in {'e', 'g', '_'}
    ensures PackageName(None, "egg_" + n) == n
    ensures PackageName(Some(""), "egg_" + n) == n
    ensures n in pkgs ==> n in FilterPackages(pkgs, PackageName(None, "egg_" + n))
  {
    EggNameOfPlainName(n);
  }

  /** `_filter_packages`: the packages of `pkgs` that belong to `name`. */
  function FilterPackages(pkgs: seq<String>, name: String): (r: seq<String>)
    ensures forall p :: p in r <==> p in pkgs && InPackage(p, name)
    ensures forall p :: multiset(r)[p] == if InPackage(p, name) then multiset(pkgs)[p] else 0
    ensures IsSubseq(r, pkgs)
    decreases |pkgs|
  {
    if |pkgs| == 0 then []
    else
      var rest := FilterPackages(pkgs[1..], name);
      assert forall p :: p in pkgs <==> p == pkgs[0] || p in pkgs[1..];
      assert multiset(pkgs) == multiset([pkgs[0]]) + multiset(pkgs[1..]) by {
        assert pkgs == [pkgs[0]] + pkgs[1..];
      }
      if InPackage(pkgs[0], name) then
        SubseqCons(pkgs[0], rest, pkgs[1..]);
        assert [pkgs[0]] + pkgs[1..] == pkgs;
        [pkgs[0]] + rest
      else
        SubseqSkip(pkgs[0], rest, pkgs[1..]);
        assert [pkgs[0]] + pkgs[1..] == pkgs;
        rest
  }

  /** A sibling sharing the prefix without the dot is not kept. */
  lemma FilterKeepsSubpackagesOnly()
    ensures FilterPackages(["vplants", "vplants.lpy", "vplantsx"], "vplants") == ["vplants", "vplants.lpy"]
  {
    var pk := ["vplants", "vplants.lpy", "vplantsx"];
    assert InPackage(pk[0], "vplants");
    assert "vplants.lpy"[..8] == "vplants.";
    assert InPackage(pk[1], "vplants");
    assert "vplantsx"[..8][7] != "vplants."[7];
    assert !InPackage(pk[2], "vplants");
    assert pk[1..][1..] == ["vplantsx"];
    assert FilterPackages(pk[2..], "vplants") == [];
  }
}
