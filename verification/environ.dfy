/**
 Persistent environment variables: entries of the form `NAME=VALUE` turned
 into a `/etc/profile.d` shell script on POSIX systems (`set_lsb_env`) or
 written to the machine registry on Windows (`set_win_env`). `PATH` (and,
 in the shell script, `LD_LIBRARY_PATH`) is extended rather than
 overwritten.
 */
module EnvironVar {
  import opened Text
  import opened Outcomes

  /** `vname, value = entry.split('=')`: exactly one `=` unpacks into two
      pieces; any other count raises `ValueError`, reported here as the
      offending entry. */
  function ParseEntry(entry: String): (r: Result<(String, String), String>)
    ensures r.Ok? <==> multiset(entry)['='] == 1
    ensures r.Ok? ==> '=' !in r.value.0 && '=' !in r.value.1
    ensures r.Ok? ==> entry == r.value.0 + "=" + r.value.1
    ensures r.Err? ==> r.error == entry
  {
    var parts := Split(entry, '=');
    SplitCount(entry, '=');
    if |parts| == 2 then
      JoinSplit(entry, '=');
      assert parts == [parts[0], parts[1]];
      JoinPair('=', parts[0], parts[1]);
      Ok((parts[0], parts[1]))
    else
      Err(entry)
  }

  /** Writing `name=value` and parsing it back gives the pair again. */
  lemma ParseEntryRoundTrip(name: String, value: String)
    requires '=' !in name && '=' !in value
    ensures ParseEntry(name + "=" + value) == Ok((name, value))
  {
    SplitAround(name, value, '=');
    assert name + "=" + value == name + ['='] + value;
    SplitNoSep(name, '=');
    SplitNoSep(value, '=');
  }

  /** A variable whose existing value the shell script extends. */
  predicate IsSearchPath(name: String) {
    name == "LD_LIBRARY_PATH" || name == "PATH"
  }

  /** The `if [ -z ... ]` block that sets a search path when it is unset
      and appends to it otherwise. */
  function PathBlock(name: String, value: String): String {
    "if [ -z \"$" + name + "\" ]; then\n"
    + "  export " + name + "=" + value + "\n"
    + "else\n"
    + "  export " + name + "=$" + name + ":" + value + "\n"
    + "fi\n\n"
  }

  /** A plain `export` line followed by a blank line. */
  function ExportLine(name: String, value: String): String {
    "export " + name + "=" + value + "\n\n"
  }

  /** The text `set_lsb_env` adds for one parsed entry: a search path with
      a value gets the extending block, any other variable with a name and
      a value a plain export, and an entry with an empty side nothing. */
  function ExportFragment(name: String, value: String): (r: String)
    ensures |r| == 0 <==> |name| == 0 || |value| == 0
    ensures IsSearchPath(name) && |value| > 0 ==> r == PathBlock(name, value)
    ensures !IsSearchPath(name) && |name| > 0 && |value| > 0 ==> r == ExportLine(name, value)
  {
    if IsSearchPath(name) && |value| > 0 then PathBlock(name, value)
    else if |name| > 0 && |value| > 0 then ExportLine(name, value)
    else ""
  }

  /** The assignment inside a plain export line parses back to the entry
      it came from. */
  lemma ExportLineRoundTrip(name: String, value: String)
    requires '=' !in name && '=' !in value
    ensures var line := ExportLine(name, value);
      && StartsWith(line, "export ")
      && line[|line| - 2..] == "\n\n"
      && ParseEntry(line[7..|line| - 2]) == Ok((name, value))
  {
    var line := ExportLine(name, value);
    assert line == "export " + (name + "=" + value) + "\n\n";
    assert line[7..|line| - 2] == name + "=" + value;
    ParseEntryRoundTrip(name, value);
  }

  /** Every entry of `vars` holds exactly one `=`. */
  predicate AllWellFormed(vars: seq<String>) {
    forall i :: 0 <= i < |vars| ==> multiset(vars[i])['='] == 1
  }

  /** The `exportstr` that `set_lsb_env` builds, entry by entry in order;
      the first malformed entry raises before any file is written. */
  function ExportString(vars: seq<String>): (r: Result<String, String>)
    ensures r.Ok? <==> AllWellFormed(vars)
    ensures r.Err? ==> r.error in vars && multiset(r.error)['='] != 1
    decreases |vars|
  {
    if |vars| == 0 then Ok("")
    else
      match ParseEntry(vars[0])
      case Err(e) => Err(e)
      case Ok(nv) =>
        var rest := ExportString(vars[1..]);
        assert AllWellFormed(vars) <==> AllWellFormed(vars[1..]) by {
          if AllWellFormed(vars[1..]) {
            forall i | 0 <= i < |vars| ensures multiset(vars[i])['='] == 1 {
              if i > 0 { assert vars[i] == vars[1..][i - 1]; }
            }
          }
        }
        if rest.Err? then Err(rest.error)
        else Ok(ExportFragment(nv.0, nv.1) + rest.value)
  }

  /** The export string of a concatenation is the concatenation of the
      export strings. */
  lemma {:induction false} ExportStringAppend(a: seq<String>, b: seq<String>)
    requires AllWellFormed(a) && AllWellFormed(b)
    ensures ExportString(a + b).Ok? && ExportString(a).Ok? && ExportString(b).Ok?
    ensures ExportString(a + b).value == ExportString(a).value + ExportString(b).value
    decreases |a|
  {
    assert AllWellFormed(a + b) by {
      forall i | 0 <= i < |a + b| ensures multiset((a + b)[i])['='] == 1 {
        if i >= |a| { assert (a + b)[i] == b[i - |a|]; }
      }
    }
    if |a| == 0 {
      assert a + b == b;
    } else {
      assert (a + b)[1..] == a[1..] + b;
      assert (a + b)[0] == a[0];
      ExportStringAppend(a[1..], b);
    }
  }

  /** An entry `X=` with an empty value adds nothing to the script. */
  lemma EmptyValueExportsNothing(name: String, rest: seq<String>)
    requires '=' !in name && AllWellFormed(rest)
    ensures ExportString([name + "="] + rest).Ok? && ExportString(rest).Ok?
    ensures ExportString([name + "="] + rest).value == ExportString(rest).value
  {
    ParseEntryRoundTrip(name, "");
    assert name + "=" == name + "=" + "";
    var vars := [name + "="] + rest;
    assert vars[0] == name + "=";
    assert vars[1..] == rest;
  }

  /** The first line of the generated script. */
  const ProfileHeader: String := "#This file has been generated by OpenAlea.Deploy\n\n"

  /** What `set_lsb_env` does on an operating system named `osName`. */
  datatype LsbResult =
    | NotPosix                                 // returns at once: nothing is written
    | BadEntry(entry: String)                  // `split` raised on this entry
    | Script(path: String, content: String)    // the file to write and source

  function SetLsbEnv(osName: String, name: String, vars: seq<String>): (r: LsbResult)
    ensures r.NotPosix? <==> !Occurs("posix", osName)
    ensures r.BadEntry? <==> Occurs("posix", osName) && !AllWellFormed(vars)
    ensures r.Script? ==> r.path == "/etc/profile.d/" + name + ".sh"
    ensures r.Script? ==> (StartsWith(r.content, ProfileHeader)
                           && r.content[|ProfileHeader|..] == ExportString(vars).value)
  {
    if !Occurs("posix", osName) then NotPosix
    else
      match ExportString(vars)
      case Err(e) => BadEntry(e)
      case Ok(s) =>
        var content := ProfileHeader + s;
        assert content[..|ProfileHeader|] == ProfileHeader;
        assert content[|ProfileHeader|..] == s;
        Script("/etc/profile.d/" + name + ".sh", content)
  }

  /** The machine environment in the registry (value names are compared
      exactly; see README). */
  type Registry = map<String, String>

  /** Why `set_win_env` stopped: a malformed entry, or `PATH` missing from
      the registry (`QueryValueEx` raises). */
  datatype WinError = Malformed(entry: String) | PathUnset(name: String)

  /** `SetValueEx` runs only for a non-empty name and a non-empty value. */
  function Write(reg: Registry, name: String, value: String): (r: Registry)
    ensures |name| > 0 && |value| > 0 ==> r == reg[name := value]
    ensures |name| == 0 || |value| == 0 ==> r == reg
  {
    if |name| > 0 && |value| > 0 then reg[name := value] else reg
  }

  /** The new `PATH` value: the existing one, with `value` appended after a
      `;` unless it is already one of its `;`-separated entries. */
  function ExtendPath(actual: String, value: String): (r: String)
    ensures value in Split(actual, ';') ==> r == actual
    ensures value !in Split(actual, ';') ==> r == actual + ";" + value
  {
    if value !in Split(actual, ';') then actual + ";" + value else actual
  }

  /** After extending, `value` is an entry of the path and every old entry
      is still there, first and in order. */
  lemma ExtendPathContains(actual: String, value: String)
    requires ';' !in value
    ensures value in Split(ExtendPath(actual, value), ';')
    ensures |Split(actual, ';')| <= |Split(ExtendPath(actual, value), ';')|
      && Split(ExtendPath(actual, value), ';')[..|Split(actual, ';')|] == Split(actual, ';')
  {
    if value !in Split(actual, ';') {
      assert actual + ";" + value == actual + [';'] + value;
      SplitAround(actual, value, ';');
      SplitNoSep(value, ';');
    }
  }

  /** Extending twice with the same entry is extending once. */
  lemma ExtendPathIdempotent(actual: String, value: String)
    requires ';' !in value
    ensures ExtendPath(ExtendPath(actual, value), value) == ExtendPath(actual, value)
  {
    ExtendPathContains(actual, value);
  }

  /** The test `name.upper() == "PATH"` accepts exactly the four-letter
      names spelling `path` in any mix of cases. */
  lemma PathNameTest(name: String)
    ensures Upper(name) == "PATH" <==>
      |name| == 4 && name[0] in "pP" && name[1] in "aA" && name[2] in "tT" && name[3] in "hH"
  {
    if |name| == 4 {
      UpperCharIs(name[0], 'P');
      UpperCharIs(name[1], 'A');
      UpperCharIs(name[2], 'T');
      UpperCharIs(name[3], 'H');
      if Upper(name) == "PATH" {
        assert Upper(name)[0] == 'P' && Upper(name)[1] == 'A' && Upper(name)[2] == 'T' && Upper(name)[3] == 'H';
      }
    }
  }

  /** An ASCII capital is the upper case of itself and of its small letter
      only. */
  lemma UpperCharIs(c: char, cap: char)
    requires 'A' <= cap <= 'Z'
    ensures UpperChar(c) == cap <==> c == cap || c == (cap as int + 32) as char
  {
  }

  /** One iteration of the `set_win_env` loop. `norm` is
      `os.path.normpath`, applied to `PATH` values only. */
  function SetWinVar(reg: Registry, entry: String, norm: String -> String): (r: Result<Registry, WinError>)
    ensures ParseEntry(entry).Err? ==> r == Err(Malformed(entry))
    ensures r.Ok? ==> ParseEntry(entry).Ok?
    ensures r.Ok? ==> forall k :: k in reg && k != ParseEntry(entry).value.0 ==> k in r.value && r.value[k] == reg[k]
    ensures r.Ok? ==> forall k :: k in r.value && k != ParseEntry(entry).value.0 ==> k in reg
  {
    match ParseEntry(entry)
    case Err(_) => Err(Malformed(entry))
    case Ok((name, value)) =>
      if Upper(name) == "PATH" then
        if name !in reg then Err(PathUnset(name))
        else Ok(Write(reg, name, ExtendPath(reg[name], norm(value))))
      else
        Ok(Write(reg, name, value))
  }

  /** Registering an ordinary variable stores its value (when both sides
      are non-empty); a `PATH` entry ends up among the `;`-separated
      entries of the stored path. */
  lemma SetWinVarStores(reg: Registry, name: String, value: String, norm: String -> String)
    requires '=' !in name && '=' !in value
    ensures var r := SetWinVar(reg, name + "=" + value, norm);
      && (Upper(name) != "PATH" ==> r.Ok?)
      && (Upper(name) != "PATH" && |name| > 0 && |value| > 0 ==> r.value == reg[name := value])
      && (Upper(name) != "PATH" && (|name| == 0 || |value| == 0) ==> r.value == reg)
      && (Upper(name) == "PATH" ==> (r.Ok? <==> name in reg))
      && (Upper(name) == "PATH" && name in reg && ';' !in norm(value) ==>
           name in r.value && norm(value) in Split(r.value[name], ';'))
  {
    ParseEntryRoundTrip(name, value);
    if Upper(name) == "PATH" && name in reg && ';' !in norm(value) {
      var p := ExtendPath(reg[name], norm(value));
      ExtendPathContains(reg[name], norm(value));
      assert |name| > 0 by { assert |Upper(name)| == 4; }
      if |p| == 0 {
        // nothing is written, and the old (empty) path already holds the entry
        assert p == reg[name];
      }
    }
  }

  /** Running the same entry twice leaves the registry as running it once
      (for `PATH`, as long as the normalised value is a single entry). */
  lemma SetWinVarIdempotent(reg: Registry, entry: String, norm: String -> String)
    requires SetWinVar(reg, entry, norm).Ok?
    requires var nv := ParseEntry(entry).value; Upper(nv.0) == "PATH" ==> ';' !in norm(nv.1)
    ensures var once := SetWinVar(reg, entry, norm).value;
      SetWinVar(once, entry, norm) == Ok(once)
  {
    var nv := ParseEntry(entry).value;
    var name, value := nv.0, nv.1;
    var once := SetWinVar(reg, entry, norm).value;
    if Upper(name) == "PATH" {
      var p := ExtendPath(reg[name], norm(value));
      ExtendPathIdempotent(reg[name], norm(value));
      assert |name| > 0 by { assert |Upper(name)| == 4; }
      if |p| > 0 {
        assert once == reg[name := p];
        assert ExtendPath(once[name], norm(value)) == p;
        assert once[name := p] == once;
      } else {
        assert p == reg[name];
        assert once == reg;
      }
    } else if |name| > 0 && |value| > 0 {
      assert once == reg[name := value];
      assert once[name := value] == once;
    }
  }

  /** `sys.platform` selects the registry branch when it contains `win`
      and is not `cygwin`. */
  predicate WinPlatform(platform: String) {
    Occurs("win", platform) && platform != "cygwin"
  }

  /** `darwin` contains `win`: on macOS the loop is entered and only the
      missing `_winreg` module stops it. */
  lemma DarwinPassesPlatformTest()
    ensures WinPlatform("darwin")
  {
    var d := "darwin";
    assert d[3..][..3] == "win";
    assert Occurs("win", d[3..]);
    assert Occurs("win", d[2..]);
    assert Occurs("win", d[1..]);
  }

  /** `set_win_env`: the entries in order, each write kept even when a
      later entry raises, which stops the loop. Without `_winreg` it
      returns before touching the registry. */
  function SetWinEnv(platform: String, hasWinreg: bool, reg: Registry, vars: seq<String>,
                     norm: String -> String): (r: (Registry, Option<WinError>))
    ensures !WinPlatform(platform) || !hasWinreg ==> r == (reg, None)
    ensures r.1.Some? && r.1.value.Malformed? ==> r.1.value.entry in vars
    decreases |vars|
  {
    if !WinPlatform(platform) || !hasWinreg || |vars| == 0 then (reg, None)
    else
      match SetWinVar(reg, vars[0], norm)
      case Err(e) => (reg, Some(e))
      case Ok(next) =>
        var r := SetWinEnv(platform, hasWinreg, next, vars[1..], norm);
        assert r.1.Some? && r.1.value.Malformed? ==> r.1.value.entry in vars by {
          if r.1.Some? && r.1.value.Malformed? {
            assert r.1.value.entry in vars[1..];
          }
        }
        r
  }

  /** The name an entry sets, for entries that parse. */
  predicate Names(entry: String, name: String) {
    ParseEntry(entry).Ok? && ParseEntry(entry).value.0 == name
  }

  /** A registry value that no entry names keeps its value. */
  lemma {:induction false} SetWinEnvKeepsOthers(platform: String, hasWinreg: bool, reg: Registry,
                                                vars: seq<String>, norm: String -> String, k: String)
    requires k in reg
    requires forall i :: 0 <= i < |vars| ==> !Names(vars[i], k)
    ensures var r := SetWinEnv(platform, hasWinreg, reg, vars, norm);
      k in r.0 && r.0[k] == reg[k]
    decreases |vars|
  {
    if WinPlatform(platform) && hasWinreg && |vars| > 0 {
      var step := SetWinVar(reg, vars[0], norm);
      if step.Ok? {
        assert !Names(vars[0], k);
        SetWinEnvKeepsOthers(platform, hasWinreg, step.value, vars[1..], norm, k);
      }
    }
  }

  /** The entries after an error are never applied, and a run that ends
      without error can be split at any point. */
  lemma {:induction false} SetWinEnvAppend(platform: String, hasWinreg: bool, reg: Registry,
                                           a: seq<String>, b: seq<String>, norm: String -> String)
    ensures var ra := SetWinEnv(platform, hasWinreg, reg, a, norm);
      var rab := SetWinEnv(platform, hasWinreg, reg, a + b, norm);
      && (ra.1.Some? ==> rab == ra)
      && (ra.1.None? ==> rab == SetWinEnv(platform, hasWinreg, ra.0, b, norm))
    decreases |a|
  {
    if !WinPlatform(platform) || !hasWinreg {
    } else if |a| == 0 {
      assert a + b == b;
    } else {
      assert (a + b)[0] == a[0];
      assert (a + b)[1..] == a[1..] + b;
      var step := SetWinVar(reg, a[0], norm);
      if step.Ok? {
        SetWinEnvAppend(platform, hasWinreg, step.value, a[1..], b, norm);
      }
    }
  }
}
