/**
 The decisions taken by the default actions of `dependency_builder.py`
 (`BaseProjectBuilder`, `BaseEggBuilder`) and its small utilities. The file
 system, the network and the archive libraries are inputs: what the remote
 server reports, whether the local archive or source directory exists, what
 a glob matches, and whether a fetch or an extraction succeeds.
 */
module BuilderActions {
  import opened Text
  import opened Outcomes
  import Completion

  // ---------------------------------------------------------------------
  // merge_list_dict

  /** The distinct keys of a list of `(key, value)` pairs. */
  function KeysOf(li: seq<(String, seq<String>)>): set<String> {
    set e | e in li :: e.0
  }

  /** The lists given under key `k`, concatenated in input order. */
  function Gathered(li: seq<(String, seq<String>)>, k: String): seq<String>
    decreases |li|
  {
    if |li| == 0 then []
    else Gathered(li[..|li| - 1], k) + (if li[|li| - 1].0 == k then li[|li| - 1].1 else [])
  }

  /** Gathering over a concatenation gathers each part in turn. */
  lemma {:induction false} GatheredAppend(a: seq<(String, seq<String>)>, b: seq<(String, seq<String>)>, k: String)
    ensures Gathered(a + b, k) == Gathered(a, k) + Gathered(b, k)
    decreases |b|
  {
    if |b| > 0 {
      var b' := b[..|b| - 1];
      assert (a + b)[..|a + b| - 1] == a + b';
      assert (a + b)[|a + b| - 1] == b[|b| - 1];
      GatheredAppend(a, b', k);
    } else {
      assert a + b == a;
    }
  }

  /** A key given once keeps exactly its own list. */
  lemma {:induction false} GatheredSingle(li: seq<(String, seq<String>)>, i: nat)
    requires i < |li|
    requires forall j :: 0 <= j < |li| && j != i ==> li[j].0 != li[i].0
    ensures Gathered(li, li[i].0) == li[i].1
  {
    var k := li[i].0;
    GatheredAppend(li[..i], li[i..], k);
    assert li[..i] + li[i..] == li;
    GatheredAppend([li[i]], li[i + 1..], k);
    assert [li[i]] + li[i + 1..] == li[i..];
    GatheredAbsent(li[..i], k);
    GatheredAbsent(li[i + 1..], k);
    assert Gathered([li[i]], k) == Gathered([], k) + li[i].1;
  }

  lemma {:induction false} GatheredAbsent(li: seq<(String, seq<String>)>, k: String)
    requires forall j :: 0 <= j < |li| ==> li[j].0 != k
    ensures Gathered(li, k) == []
    decreases |li|
  {
    if |li| > 0 {
      GatheredAbsent(li[..|li| - 1], k);
    }
  }

  /** The dictionary `merge_list_dict` has built after the first `i`
      pairs. */
  predicate GatheredSoFar(li: seq<(String, seq<String>)>, i: nat, d: map<String, seq<String>>)
    requires i <= |li|
  {
    d.Keys == KeysOf(li[..i]) && forall k :: k in d ==> d[k] == Gathered(li[..i], k)
  }

  /** Appending one pair adds its key. */
  lemma KeysOfSnoc(li: seq<(String, seq<String>)>, x: (String, seq<String>))
    ensures KeysOf(li + [x]) == KeysOf(li) + {x.0}
  {
    assert forall e :: e in li + [x] <==> e in li || e == x;
  }

  /** A key that does not occur has gathered nothing. */
  lemma GatheredMissingKey(li: seq<(String, seq<String>)>, k: String)
    requires k !in KeysOf(li)
    ensures Gathered(li, k) == []
  {
    forall j | 0 <= j < |li| ensures li[j].0 != k {
      assert li[j] in li;
    }
    GatheredAbsent(li, k);
  }

  /** Appending one pair extends the list of its key only. */
  lemma GatheredSnoc(li: seq<(String, seq<String>)>, x: (String, seq<String>), k: String)
    ensures Gathered(li + [x], k) == Gathered(li, k) + (if x.0 == k then x.1 else [])
  {
    assert (li + [x])[..|li|] == li;
  }

  /** Appending the next pair's list under its key keeps the dictionary in
      step with `Gathered`. */
  lemma GatherStep(li: seq<(String, seq<String>)>, i: nat, d: map<String, seq<String>>)
    requires i < |li| && GatheredSoFar(li, i, d)
    ensures var k := li[i].0;
      GatheredSoFar(li, i + 1, d[k := (if k in d then d[k] else []) + li[i].1])
  {
    var k := li[i].0;
    var pre := li[..i];
    assert li[..i + 1] == pre + [li[i]];
    KeysOfSnoc(pre, li[i]);
    if k !in d {
      GatheredMissingKey(pre, k);
    }
    var d' := d[k := (if k in d then d[k] else []) + li[i].1];
    forall k' | k' in d' ensures d'[k'] == Gathered(li[..i + 1], k') {
      GatheredSnoc(pre, li[i], k');
    }
  }

  /** `merge_list_dict`: the lists of equal keys are appended rather than
      overwritten, and each key's list is joined with the path separator
      `sep`. Every input key is present, even one whose lists are all
      empty. */
  method MergeListDict(li: seq<(String, seq<String>)>, sep: char) returns (r: map<String, String>)
    ensures r.Keys == KeysOf(li)
    ensures forall k :: k in r ==> r[k] == Join(sep, Gathered(li, k))
  {
    var d: map<String, seq<String>> := map[];
    var i := 0;
    while i < |li|
      invariant 0 <= i <= |li|
      invariant GatheredSoFar(li, i, d)
    {
      var (k, v) := li[i];
      GatherStep(li, i, d);
      var cur := if k in d then d[k] else [];
      d := d[k := cur + v];
      i := i + 1;
    }
    assert li[..i] == li;
    r := map k | k in d :: Join(sep, d[k]);
  }

  // ---------------------------------------------------------------------
  // ascii_file_replace

  /** `ascii_file_replace` on the file's text: whether the file is
      rewritten, and the text it then holds. */
  function AsciiFileReplace(txt: String, oldstr: String, newstr: String): (r: (bool, String))
    ensures r.0 <==> Occurs(oldstr, txt)
    ensures !r.0 ==> r.1 == txt
  {
    if Occurs(oldstr, txt) then (true, ReplaceAll(txt, oldstr, newstr)) else (false, txt)
  }

  /** Replacing a character by text that does not hold it leaves none of it. */
  lemma {:induction false} ReplaceCharRemoves(s: String, c: char, rep: String)
    requires c !in rep
    ensures c !in ReplaceAll(s, [c], rep)
    decreases |s|
  {
    if |s| > 0 {
      ReplaceCharRemoves(s[1..], c, rep);
      if s[..1] != [c] {
        assert s[0] != c;
      }
    }
  }

  /** Replacing one character: the file is rewritten exactly when the
      character is in it, and afterwards the character is gone unless the
      replacement brings it back. */
  lemma AsciiReplaceCharGone(txt: String, c: char, newstr: String)
    requires c !in newstr
    ensures var r := AsciiFileReplace(txt, [c], newstr); (r.0 <==> c in txt) && c !in r.1
  {
    if c in txt {
      CharOccurs(txt, c);
    } else if Occurs([c], txt) {
      OccursChar(txt, c);
    }
    ReplaceCharRemoves(txt, c, newstr);
  }

  /** Every occurrence is replaced, and nothing else: after replacing a
      non-empty string by a marker character foreign to it, the string no
      longer occurs in the file, and when the marker was not in the file
      either, replacing the markers back restores the original text. */
  lemma AsciiReplaceEveryOccurrence(txt: String, oldstr: String, marker: char)
    requires |oldstr| > 0 && marker !in oldstr
    ensures !Occurs(oldstr, AsciiFileReplace(txt, oldstr, [marker]).1)
    ensures marker !in txt ==>
      AsciiFileReplace(AsciiFileReplace(txt, oldstr, [marker]).1, [marker], oldstr).1 == txt
  {
    var t := ReplaceAll(txt, oldstr, [marker]);
    if !Occurs(oldstr, txt) {
      ReplaceAbsent(txt, oldstr, [marker]);
    }
    assert AsciiFileReplace(txt, oldstr, [marker]).1 == t;
    ReplaceLeavesNone(txt, oldstr, marker);
    if marker !in txt {
      ReplaceRoundTrip(txt, oldstr, marker);
      if !Occurs([marker], t) {
        ReplaceAbsent(t, [marker], oldstr);
      }
      assert AsciiFileReplace(t, [marker], oldstr).1 == ReplaceAll(t, [marker], oldstr);
    }
  }

  /** A character that is in a string occurs in it as a one-letter string. */
  lemma {:induction false} CharOccurs(s: String, c: char)
    requires c in s
    ensures Occurs([c], s)
    decreases |s|
  {
    if s[0] != c {
      CharOccurs(s[1..], c);
    } else {
      assert s[..1] == [c];
    }
  }

  /** A one-letter string occurs only where its character is. */
  lemma {:induction false} OccursChar(s: String, c: char)
    requires Occurs([c], s)
    ensures c in s
    decreases |s|
  {
    if !StartsWith(s, [c]) {
      OccursChar(s[1..], c);
    } else {
      assert s[0] == [c][0];
    }
  }

  /** The empty search string occurs everywhere, so the file is always
      rewritten, with one copy of the replacement before every character
      and one at the end. */
  lemma AsciiReplaceEmptyOld(txt: String, rep: String)
    ensures AsciiFileReplace(txt, "", rep).0
    ensures var r := AsciiFileReplace(txt, "", rep).1;
      && |r| == |txt| + (|txt| + 1) * |rep|
      && (forall k :: 0 <= k < |txt| ==> Spot(k, |rep|) + |rep| < |r| && r[Spot(k, |rep|) + |rep|] == txt[k])
      && (forall j :: 0 <= j <= |txt| ==> Spot(j, |rep|) + |rep| <= |r| && r[Spot(j, |rep|)..Spot(j, |rep|) + |rep|] == rep)
  {
    assert StartsWith(txt, "");
    ReplaceEmptySpread(txt, rep);
  }

  // ---------------------------------------------------------------------
  // download_source

  /** What `urlopen` and the `Content-Length` header report about the
      remote archive. */
  datatype Remote =
    | Unreachable        // `urlopen` raised IOError
    | NoLength           // the header is absent or not a number: the lookup raises
    | Sized(size: nat)

  /** What `download_source` returns and whether it fetched the archive. */
  datatype DownloadResult = DownloadResult(outcome: StepOutcome, fetched: bool)

  /** `download_source` for a project whose url is `url`, given the remote
      state, the local archive's size (`None` when it is missing) and
      whether `urlretrieve` would succeed. */
  function DownloadSource(url: Option<String>, remote: Remote, local: Option<nat>, fetchOk: bool): (r: DownloadResult)
    ensures url.None? ==> r == DownloadResult(Done, false)
    ensures r.fetched <==> url.Some? && remote.Sized? && (local.None? || local.value < remote.size)
    ensures r.fetched ==> (r.outcome == Done <==> fetchOk)
    ensures url.Some? && remote.Unreachable? ==> r.outcome == Failed
    ensures url.Some? && remote.NoLength? ==> r.outcome == Raised
    ensures url.Some? && remote.Sized? && !r.fetched ==> r.outcome == Done
  {
    if url.None? then DownloadResult(Done, false)
    else match remote
      case Unreachable => DownloadResult(Failed, false)
      case NoLength => DownloadResult(Raised, false)
      case Sized(remoteSize) =>
        if local.None? || local.value < remoteSize then DownloadResult(FromBool(fetchOk), true)
        else DownloadResult(Done, false)
  }

  /** A complete archive is not fetched again: once a fetch left the local
      file at the remote size, the next run (the server unchanged) returns
      success without fetching. */
  lemma DownloadNotRepeated(url: Option<String>, size: nat, local: Option<nat>, ok1: bool, ok2: bool)
    requires DownloadSource(url, Sized(size), local, ok1) == DownloadResult(Done, true)
    ensures DownloadSource(url, Sized(size), Some(size), ok2) == DownloadResult(Done, false)
  {
  }

  // ---------------------------------------------------------------------
  // unpack_source

  /** Python `s.rfind(c)`: the last position of `c`, or -1. */
  function RFind(s: String, c: char): (r: int)
    ensures -1 <= r < |s|
    ensures r >= 0 ==> s[r] == c
    ensures forall k :: r < k < |s| ==> s[k] != c
    decreases |s|
  {
    if |s| == 0 then -1
    else if s[|s| - 1] == c then |s| - 1
    else RFind(s[..|s| - 1], c)
  }

  /** Windows `os.path.splitext`: the extension starts at the last dot of
      the last path component, unless every character before that dot in
      the component is a dot (`".bashrc"` has no extension). */
  function SplitExt(p: String): (r: (String, String))
    ensures r.0 + r.1 == p
    ensures r.1 == "" || (r.1[0] == '.' && '.' !in r.1[1..] && '/' !in r.1 && '\\' !in r.1)
  {
    var sepIndex := if RFind(p, '\\') < RFind(p, '/') then RFind(p, '/') else RFind(p, '\\');
    var dotIndex := RFind(p, '.');
    if dotIndex > sepIndex && exists k :: sepIndex + 1 <= k < dotIndex && p[k] != '.' then
      assert p[..dotIndex] + p[dotIndex..] == p;
      (p[..dotIndex], p[dotIndex..])
    else (p, "")
  }

  /** A name without directory separators splits at its last dot, provided
      something other than a dot comes before it. */
  lemma SplitExtAtLastDot(stem: String, ext: String)
    requires '/' !in stem + ext && '\\' !in stem + ext
    requires |ext| > 0 && ext[0] == '.' && '.' !in ext[1..]
    requires exists k :: 0 <= k < |stem| && stem[k] != '.'
    ensures SplitExt(stem + ext) == (stem, ext)
  {
    var p := stem + ext;
    assert p[|stem|] == '.';
    assert forall k :: |stem| < k < |p| ==> p[k] == ext[1..][k - |stem| - 1];
    assert RFind(p, '.') == |stem|;
    assert RFind(p, '/') == -1 && RFind(p, '\\') == -1;
    var k :| 0 <= k < |stem| && stem[k] != '.';
    assert p[k] != '.';
    assert p[..|stem|] == stem && p[|stem|..] == ext;
  }

  /** A name whose only dot leads it has no extension. */
  lemma SplitExtLeadingDot(p: String)
    requires '/' !in p && '\\' !in p
    requires |p| > 0 && p[0] == '.' && '.' !in p[1..]
    ensures SplitExt(p) == (p, "")
  {
    assert forall k :: 0 < k < |p| ==> p[k] == p[1..][k - 1];
    assert RFind(p, '.') == 0;
  }

  datatype Archive = Zip | Tgz

  /** What `unpack_source` returns and which extraction it performed. */
  datatype UnpackResult = UnpackResult(outcome: StepOutcome, extracted: Option<Archive>)

  /** `unpack_source` for a project with url `url` and archive name
      `dlname`, given whether the source directory exists and whether the
      extraction would succeed (a failing extraction raises; nothing
      catches it). Extensions other than `.zip` and `.tgz` extract nothing
      and still report success. */
  function UnpackSource(url: Option<String>, dlname: String, sourceExists: bool, extractOk: bool): (r: UnpackResult)
    ensures url.None? || sourceExists ==> r == UnpackResult(Done, None)
    ensures r.extracted.Some? <==> url.Some? && !sourceExists && SplitExt(dlname).1 in {".zip", ".tgz"}
    ensures r.extracted == Some(Zip) ==> SplitExt(dlname).1 == ".zip"
    ensures r.extracted == Some(Tgz) ==> SplitExt(dlname).1 == ".tgz"
    ensures r.outcome != Done ==> r.extracted.Some? && !extractOk
    ensures r.outcome in {Done, Raised}
  {
    if url.None? || sourceExists then UnpackResult(Done, None)
    else
      var ext := SplitExt(dlname).1;
      if ext == ".zip" then UnpackResult(if extractOk then Done else Raised, Some(Zip))
      else if ext == ".tgz" then UnpackResult(if extractOk then Done else Raised, Some(Tgz))
      else UnpackResult(Done, None)
  }

  /** A successful extraction creates the source directory, so after a
      call that succeeded a second call extracts nothing and succeeds. */
  lemma UnpackSecondCallNoop(url: Option<String>, dlname: String, sourceExists: bool, ok1: bool, ok2: bool)
    requires UnpackSource(url, dlname, sourceExists, ok1).outcome == Done
    ensures var first := UnpackSource(url, dlname, sourceExists, ok1);
      UnpackSource(url, dlname, sourceExists || first.extracted.Some?, ok2) == UnpackResult(Done, None)
  {
  }

  // ---------------------------------------------------------------------
  // fix_source_dir

  /** `fix_source_dir`: with an archive subdirectory pattern the source
      directory becomes the first glob match (`matches`); no match raises an
      IndexError, caught into `False`, and the directory is kept. */
  function FixSourceDir(sourcedir: String, archSubdir: Option<String>, matches: seq<String>): (r: (StepOutcome, String))
    ensures r.0 in {Done, Failed}
    ensures r.0 == Failed <==> archSubdir.Some? && |matches| == 0
    ensures r.1 != sourcedir ==> archSubdir.Some? && |matches| > 0 && r.1 == matches[0]
    ensures archSubdir.Some? && |matches| > 0 ==> r.1 == matches[0]
  {
    if archSubdir.None? then (Done, sourcedir)
    else if |matches| == 0 then (Failed, sourcedir)
    else (Done, matches[0])
  }

  /** No flag records that the directory was fixed: a second call globs
      again under the directory the first one chose, and descends once more
      or fails when nothing matches there. */
  lemma FixSourceDirDescendsAgain(sourcedir: String, sub: String, first: seq<String>, second: seq<String>)
    requires |first| > 0
    ensures var d := FixSourceDir(sourcedir, Some(sub), first).1;
      && d == first[0]
      && (FixSourceDir(d, Some(sub), second).0 == Done <==> |second| > 0)
      && (|second| > 0 ==> FixSourceDir(d, Some(sub), second).1 == second[0])
  {
  }

  // ---------------------------------------------------------------------
  // _extend_sys_path, _extend_python_path

  /** What `extra_paths()` / `extra_python_paths()` return. */
  datatype ExtraPaths = NoExtra | Many(parts: seq<String>) | One(path: String)

  /** The string written into the variable: a tuple is joined with the
      path separator, a string is used as it is. */
  function ExtraString(exp: ExtraPaths, sep: char): String
    requires !exp.NoExtra?
  {
    if exp.Many? then Join(sep, exp.parts) else exp.path
  }

  type Environ = map<String, String>

  /** `BaseProjectBuilder._extend_sys_path`: append the extra paths to
      `PATH`. A missing `PATH` raises a KeyError, which nothing catches. */
  function ExtendSysPathAppend(env: Environ, exp: ExtraPaths, sep: char): (r: Result<Environ, String>)
    ensures exp.NoExtra? ==> r == Ok(env)
    ensures !exp.NoExtra? && "PATH" !in env ==> r.Err?
    ensures r.Ok? ==> r.value.Keys == env.Keys
    ensures r.Ok? ==> forall k :: k in env && k != "PATH" ==> r.value[k] == env[k]
    ensures r.Ok? && !exp.NoExtra? ==> r.value["PATH"] == env["PATH"] + [sep] + ExtraString(exp, sep)
  {
    if exp.NoExtra? then Ok(env)
    else if "PATH" !in env then Err("PATH")
    else
      JoinPair(sep, env["PATH"], ExtraString(exp, sep));
      Ok(env["PATH" := Join(sep, [env["PATH"], ExtraString(exp, sep)])])
  }

  /** What `_extend_python_path` leaves behind: the environment and
      `sys.path`. */
  datatype PythonPaths = PythonPaths(env: Environ, sysPath: seq<String>)

  /** `BaseProjectBuilder._extend_python_path`: extend `sys.path` with the
      extra entries and append them to `PYTHONPATH` (read as `""` when
      unset). */
  function ExtendPythonPathAppend(st: PythonPaths, exp: ExtraPaths, sep: char): (r: PythonPaths)
    ensures exp.NoExtra? ==> r == st
    ensures !exp.NoExtra? ==> r.env == st.env["PYTHONPATH" := Completion.Lookup(st.env, "PYTHONPATH") + [sep] + ExtraString(exp, sep)]
    ensures exp.Many? ==> r.sysPath == st.sysPath + exp.parts
    ensures exp.One? ==> r.sysPath == st.sysPath + Split(exp.path, sep)
  {
    if exp.NoExtra? then st
    else
      var added := if exp.Many? then exp.parts else Split(exp.path, sep);
      var prev := Completion.Lookup(st.env, "PYTHONPATH");
      JoinPair(sep, prev, ExtraString(exp, sep));
      PythonPaths(st.env["PYTHONPATH" := Join(sep, [prev, ExtraString(exp, sep)])], st.sysPath + added)
  }

  /** The entries of the extended `PATH` are the old ones followed by the
      extra ones, when no extra entry holds the separator. */
  lemma AppendKeepsOldEntriesFirst(env: Environ, parts: seq<String>, sep: char)
    requires "PATH" in env && |parts| >= 1
    requires forall i :: 0 <= i < |parts| ==> sep !in parts[i]
    ensures var r := ExtendSysPathAppend(env, Many(parts), sep);
      r.Ok? && Split(r.value["PATH"], sep) == Split(env["PATH"], sep) + parts
  {
    SplitAround(env["PATH"], Join(sep, parts), sep);
    SplitJoin(parts, sep);
  }

  /** Both spellings of the extra python paths put the same entries on
      `sys.path` as the ones written into `PYTHONPATH`. */
  lemma PythonPathAgreesWithSysPath(st: PythonPaths, exp: ExtraPaths, sep: char)
    requires exp.Many? ==> |exp.parts| >= 1 && forall i :: 0 <= i < |exp.parts| ==> sep !in exp.parts[i]
    requires !exp.NoExtra?
    ensures var r := ExtendPythonPathAppend(st, exp, sep);
      r.sysPath == st.sysPath + Split(ExtraString(exp, sep), sep)
  {
    if exp.Many? {
      SplitJoin(exp.parts, sep);
    }
  }

  // ---------------------------------------------------------------------
  // _upload_egg

  /** An entry of the builder's options dictionary. */
  datatype OptionValue = Absent | NoneValue | Text(s: String)

  /** Python truthiness of an option value that was found. */
  predicate Truthy(v: OptionValue) {
    v.Text? && |v.s| > 0
  }

  /** How a call of a helper that reports success ends: it returns whether
      it succeeded, or it raises. For `upload_egg` the raise is a missing
      option key or the shell call failing; for the release helpers `url`
      and `unpack` it is whatever escapes them. */
  datatype HelperCall = Answered(ok: bool) | Threw

  /** The outcome `try_except` reports for a call whose result is passed
      on: an exception becomes `False`. */
  function Caught(c: HelperCall): (r: StepOutcome)
    ensures r == Done <==> c == Answered(true)
    ensures r != Later && r != Raised
  {
    if c == Answered(true) then Done else Failed
  }

  /** `BaseEggBuilder._upload_egg` (inside `try_except`): without a login
      or a password the upload is deferred; a missing option key raises a
      KeyError, caught into `False`; otherwise the upload's own result. The
      password is only read when the login is set. */
  function UploadEggDeploy(login: OptionValue, passwd: OptionValue, uploadOk: bool): (r: StepOutcome)
    ensures r != Raised
    ensures r == Done <==> Truthy(login) && Truthy(passwd) && uploadOk
    ensures r == Later <==> (login.NoneValue? || login == Text("")) || (Truthy(login) && (passwd.NoneValue? || passwd == Text("")))
    ensures r == Failed <==> login.Absent? || (Truthy(login) && (passwd.Absent? || (Truthy(passwd) && !uploadOk)))
  {
    if login.Absent? then Failed
    else if !Truthy(login) then Later
    else if passwd.Absent? then Failed
    else if !Truthy(passwd) then Later
    else FromBool(uploadOk)
  }

  /** The upload itself is attempted exactly when both the login and the
      password are set and non-empty: only then does its result matter. */
  lemma UploadNeedsCredentials(login: OptionValue, passwd: OptionValue)
    ensures UploadEggDeploy(login, passwd, true) != UploadEggDeploy(login, passwd, false)
      <==> Truthy(login) && Truthy(passwd)
  {
  }
}
