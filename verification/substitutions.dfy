/**
 The substitution tables that fill the `setup.py.in` template of an egg:
 a builder's defaults, overridden key by key by the builder's own values
 (`conf = defaults.copy(); conf.update(overrides)`). Values keep the
 Python type they have before `repr` turns them into template text.
 */
module Substitutions {
  import opened Text
  import opened Outcomes

  datatype Value =
    | VStr(s: String)
    | VInt(i: int)
    | VBool(b: bool)
    | VNone
    | VDict(entries: seq<(String, String)>)

  type Table = map<String, Value>

  /** `dict.update`: every key of either table, the override's value
      winning where both have one. */
  function Update(base: Table, over: Table): (r: Table)
    ensures r.Keys == base.Keys + over.Keys
    ensures forall k :: k in over ==> r[k] == over[k]
    ensures forall k :: k in base && k !in over ==> r[k] == base[k]
  {
    base + over
  }

  /** Updating again with the same overrides changes nothing, and an empty
      override keeps the defaults. */
  lemma UpdateIdempotent(base: Table, over: Table)
    ensures Update(Update(base, over), over) == Update(base, over)
    ensures Update(base, map[]) == base
  {
  }

  /** A later update wins over an earlier one. */
  lemma UpdateLastWins(base: Table, o1: Table, o2: Table)
    ensures Update(Update(base, o1), o2) == Update(base, Update(o1, o2))
  {
  }

  /** The keys `BaseEggBuilder.default_substitutions` defines. */
  const DeployEggKeys: set<String> := {
    "NAME", "VERSION", "THIS_YEAR", "SETUP_AUTHORS", "CODE_AUTHOR", "DESCRIPTION",
    "URL", "LICENSE", "ZIP_SAFE", "PACKAGES", "PACKAGE_DIRS", "PACKAGE_DATA",
    "DATA_FILES", "INSTALL_REQUIRES", "BIN_DIRS", "LIB_DIRS", "INC_DIRS"}

  /** The default value under key `k` for egg `name`, built in year
      `year` (the clock is an input). */
  function DeployEggDefault(k: String, name: String, year: int): Value {
    if k == "NAME" then VStr(name)
    else if k == "THIS_YEAR" then VInt(year)
    else if k == "VERSION" then VStr("1.0")
    else if k == "SETUP_AUTHORS" then VStr("Openalea Team")
    else if k == "CODE_AUTHOR" then VStr("Unknown")
    else if k == "DESCRIPTION" || k == "URL" then VStr("")
    else if k == "LICENSE" then VStr("Cecill-C")
    else if k == "ZIP_SAFE" then VBool(false)
    else VNone
  }

  /** The default substitutions of `BaseEggBuilder` for egg `name`. */
  function DeployEggDefaults(name: String, year: int): (t: Table)
    ensures t.Keys == DeployEggKeys
    ensures t["NAME"] == VStr(name) && t["THIS_YEAR"] == VInt(year)
    ensures t["LIB_DIRS"] == VNone && t["INC_DIRS"] == VNone && t["BIN_DIRS"] == VNone
  {
    map k | k in DeployEggKeys :: DeployEggDefault(k, name, year)
  }

  /** The table `BaseEggBuilder._configure_script` hands to the template:
      the defaults updated with `script_substitutions()`. A builder that
      does not override `script_substitutions` (which returns `{}`) gets
      the defaults unchanged. */
  function DeployConfTable(name: String, year: int, script: Table): (t: Table)
    ensures t.Keys == DeployEggDefaults(name, year).Keys + script.Keys
    ensures forall k :: k in script ==> t[k] == script[k]
    ensures forall k :: k in DeployEggDefaults(name, year) && k !in script ==> t[k] == DeployEggDefaults(name, year)[k]
  {
    Update(DeployEggDefaults(name, year), script)
  }

  lemma DeployConfWithoutOverrides(name: String, year: int)
    ensures DeployConfTable(name, year, map[]) == DeployEggDefaults(name, year)
  {
    UpdateIdempotent(DeployEggDefaults(name, year), map[]);
  }

  /** What a release `Formula` class declares that its default table reads. */
  datatype FormulaInfo = FormulaInfo(
    version: String, authors: String, description: String, homepage: String,
    downloadUrl: Option<String>, licence: String, requiredTools: Value)

  /** `os.path.join(dir, leaf)` is an input: the model only uses it to name
      the three standard subdirectories. */
  function SubdirEntry(pj: (String, String) -> String, sourcedir: String, leaf: String): Value {
    VDict([(leaf, pj(sourcedir, leaf))])
  }

  /** The keys `Formula.default_substitutions` defines. */
  const ReleaseKeys: set<String> := {
    "NAME", "VERSION", "THIS_YEAR", "SETUP_AUTHORS", "CODE_AUTHOR", "DESCRIPTION",
    "HOMEPAGE", "URL", "LICENSE", "ZIP_SAFE", "PYTHON_MODS", "PACKAGES", "PACKAGE_DIRS",
    "PACKAGE_DATA", "DATA_FILES", "INSTALL_REQUIRES", "LIB_DIRS", "INC_DIRS", "BIN_DIRS"}

  /** The default value under key `k` of a formula. */
  function ReleaseDefault(k: String, eggName: String, year: int, info: FormulaInfo, sourcedir: String,
                          pj: (String, String) -> String): Value {
    if k == "NAME" then VStr(eggName)
    else if k == "THIS_YEAR" then VInt(year)
    else if k == "LIB_DIRS" then SubdirEntry(pj, sourcedir, "lib")
    else if k == "INC_DIRS" then SubdirEntry(pj, sourcedir, "include")
    else if k == "BIN_DIRS" then SubdirEntry(pj, sourcedir, "bin")
    else if k == "VERSION" then VStr(info.version)
    else if k == "SETUP_AUTHORS" then VStr("Openalea Team")
    else if k == "CODE_AUTHOR" then VStr(info.authors)
    else if k == "DESCRIPTION" then VStr(info.description)
    else if k == "HOMEPAGE" then VStr(info.homepage)
    else if k == "URL" then (if info.downloadUrl.Some? then VStr(info.downloadUrl.value) else VNone)
    else if k == "LICENSE" then VStr(info.licence)
    else if k == "ZIP_SAFE" then VBool(false)
    else if k == "PACKAGE_DATA" then VDict([])
    else if k == "INSTALL_REQUIRES" then info.requiredTools
    else VNone
  }

  /** `Formula.default_substitutions` for egg name `eggName`. */
  function ReleaseDefaults(eggName: String, year: int, info: FormulaInfo, sourcedir: String,
                           pj: (String, String) -> String): (t: Table)
    ensures t.Keys == ReleaseKeys
    ensures t["NAME"] == VStr(eggName) && t["THIS_YEAR"] == VInt(year)
    ensures t["LIB_DIRS"] == SubdirEntry(pj, sourcedir, "lib")
    ensures t["INC_DIRS"] == SubdirEntry(pj, sourcedir, "include")
    ensures t["BIN_DIRS"] == SubdirEntry(pj, sourcedir, "bin")
  {
    map k | k in ReleaseKeys :: ReleaseDefault(k, eggName, year, info, sourcedir, pj)
  }

  /** `Formula.setup` for a package that is compiled (not `yet_installed`):
      each of `lib`, `include` and `bin` is listed only when that
      subdirectory of the sources exists. */
  function ReleaseSetup(sourcedir: String, libExists: bool, incExists: bool, binExists: bool,
                        pj: (String, String) -> String): (t: Table)
    ensures t.Keys == {"LIB_DIRS", "INC_DIRS", "BIN_DIRS"}
    ensures t["LIB_DIRS"] == (if libExists then SubdirEntry(pj, sourcedir, "lib") else VNone)
    ensures t["INC_DIRS"] == (if incExists then SubdirEntry(pj, sourcedir, "include") else VNone)
    ensures t["BIN_DIRS"] == (if binExists then SubdirEntry(pj, sourcedir, "bin") else VNone)
  {
    map[
      "LIB_DIRS" := (if libExists then SubdirEntry(pj, sourcedir, "lib") else VNone),
      "INC_DIRS" := (if incExists then SubdirEntry(pj, sourcedir, "include") else VNone),
      "BIN_DIRS" := (if binExists then SubdirEntry(pj, sourcedir, "bin") else VNone)
    ]
  }

  /** The table `Formula._configure_script` hands to the template. The
      defaults were built in `__init__` from the source directory
      `initDir`; `setup()` reads the current one, `curDir`, which
      `_fix_source_dir` may have moved since. The setup values override
      the defaults: each directory entry names the current directory when
      that subdirectory exists and is `None` otherwise, so the initial
      directory never reaches the template; every other default survives
      and no key is added. When the directory did not move, an entry keeps
      its default exactly when its subdirectory exists. */
  lemma ReleaseConfTable(eggName: String, year: int, info: FormulaInfo, initDir: String, curDir: String,
                         libExists: bool, incExists: bool, binExists: bool, pj: (String, String) -> String)
    ensures var d := ReleaseDefaults(eggName, year, info, initDir, pj);
      var t := Update(d, ReleaseSetup(curDir, libExists, incExists, binExists, pj));
      && t.Keys == d.Keys
      && t["LIB_DIRS"] == (if libExists then SubdirEntry(pj, curDir, "lib") else VNone)
      && t["INC_DIRS"] == (if incExists then SubdirEntry(pj, curDir, "include") else VNone)
      && t["BIN_DIRS"] == (if binExists then SubdirEntry(pj, curDir, "bin") else VNone)
      && (initDir == curDir ==>
            && (t["LIB_DIRS"] == d["LIB_DIRS"] <==> libExists)
            && (t["INC_DIRS"] == d["INC_DIRS"] <==> incExists)
            && (t["BIN_DIRS"] == d["BIN_DIRS"] <==> binExists))
      && (forall k :: k in d && k !in {"LIB_DIRS", "INC_DIRS", "BIN_DIRS"} ==> t[k] == d[k])
  {
    var d := ReleaseDefaults(eggName, year, info, initDir, pj);
    var over := ReleaseSetup(curDir, libExists, incExists, binExists, pj);
    assert "LIB_DIRS" in ReleaseKeys && "INC_DIRS" in ReleaseKeys && "BIN_DIRS" in ReleaseKeys;
    assert over.Keys <= d.Keys;
  }
}
