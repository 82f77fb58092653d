/**
 * The configuration helpers of the `config` module: whether a module was
 * configured by the user (`specified`), the `config.<module>.configured`
 * flag (`unconfigured`), the default-value bookkeeping of `omitted` and
 * `optional`, and `create_project`, which writes a new project's
 * `build/bootstrap.build`, `build/root.build` and `buildfile`.
 *
 * Variables are modelled by name. A scope holds a map from variable names
 * to values; a chain of scopes lists a root scope followed by its outer
 * scopes, innermost first, which is the order a lookup visits them in.
 */
module ConfigUtility {
  import opened Wrappers
  import opened Strings
  import opened Paths
  import opened FileSystem

  // Variables and scopes

  datatype Value = Null | Flag(b: bool) | Text(s: string)

  type Vars = map<string, Value>

  /** The namespace of a module's configuration variables. */
  function Namespace(n: string): (r: string)
    ensures StartsWith(r, "config.")
  {
    "config." + n
  }

  /** The variable recording whether a module was left unconfigured. */
  function FlagName(n: string): (r: string)
    ensures StartsWith(r, Namespace(n) + ".") && EndsWith(r, ".configured")
  {
    var r := "config." + n + ".configured";
    assert r[..|Namespace(n) + "."|] == Namespace(n) + ".";
    assert r[|r| - 11..] == ".configured";
    r
  }

  /** `name` is the namespace variable `ns` itself or one of its dotted sub-variables. */
  predicate InNamespace(name: string, ns: string)
  {
    name == ns || StartsWith(name, ns + ".")
  }

  /** A variable that shows the user configured the module: in the namespace and not a `.configured` flag. */
  predicate Specifies(name: string, n: string)
  {
    InNamespace(name, Namespace(n)) && !EndsWith(name, ".configured")
  }

  /** Some scope of the chain holds a variable that specifies module `n`. */
  predicate SpecifiedIn(chain: seq<Vars>, n: string)
  {
    exists i, name :: 0 <= i < |chain| && name in chain[i] && Specifies(name, n)
  }

  /** The value a lookup of `name` finds: the one in the innermost scope that holds it. */
  function Lookup(chain: seq<Vars>, name: string): (r: Option<Value>)
    ensures r.None? <==> forall i :: 0 <= i < |chain| ==> name !in chain[i]
    ensures r.Some? ==>
      exists i :: 0 <= i < |chain| && name in chain[i] && chain[i][name] == r.value &&
        forall j :: 0 <= j < i ==> name !in chain[j]
    decreases |chain|
  {
    if chain == [] then None
    else if name in chain[0] then Some(chain[0][name])
    else
      var r := Lookup(chain[1..], name);
      assert forall i :: 1 <= i < |chain| ==> chain[i] == chain[1..][i - 1];
      if r.Some? then
        assert exists i :: (1 <= i < |chain| && name in chain[i] && chain[i][name] == r.value &&
          forall j :: 0 <= j < i ==> name !in chain[j]) by {
          var i' :| 0 <= i' < |chain[1..]| && name in chain[1..][i'] && chain[1..][i'][name] == r.value &&
            forall j :: 0 <= j < i' ==> name !in chain[1..][j];
          assert forall j :: 1 <= j < i' + 1 ==> chain[j] == chain[1..][j - 1];
        }
        r
      else r
  }

  /**
   * `unconfigured (rs, n)`: the flag is visible from the root scope, is not
   * null, and holds false.
   */
  function Unconfigured(chain: seq<Vars>, n: string): (r: bool)
    ensures r <==>
      exists i :: 0 <= i < |chain| && FlagName(n) in chain[i] && chain[i][FlagName(n)] == Flag(false) &&
        forall j :: 0 <= j < i ==> FlagName(n) !in chain[j]
  {
    var l := Lookup(chain, FlagName(n));
    if l.Some? && !l.value.Null? then
      l.value.Flag? && !l.value.b
    else
      assert forall i :: 0 <= i < |chain| && FlagName(n) in chain[i] && chain[i][FlagName(n)] == Flag(false) ==>
        exists j :: 0 <= j < i && FlagName(n) in chain[j];
      false
  }

  /** The flag is a boolean variable: absent, null or a boolean in the root scope. */
  predicate FlagTyped(rs: Vars, n: string)
  {
    FlagName(n) in rs ==> !rs[FlagName(n)].Text?
  }

  /**
   * `unconfigured (rs, n, v)`: store `!v` in the root scope's flag; report
   * whether the stored value was null or different.
   */
  function SetUnconfiguredOf(rs: Vars, n: string, v: bool): (r: (Vars, bool))
    requires FlagTyped(rs, n)
    ensures r.0 == rs[FlagName(n) := Flag(!v)]
    ensures r.1 <==> FlagName(n) !in rs || rs[FlagName(n)].Null? || rs[FlagName(n)].b != !v
  {
    var f := FlagName(n);
    if f !in rs || rs[f].Null? || rs[f].b != !v then (rs[f := Flag(!v)], true)
    else
      assert rs[f := Flag(!v)] == rs;
      (rs, false)
  }

  /** After `unconfigured (rs, n, v)`, `unconfigured (rs, n)` reads back `v`. */
  lemma SetUnconfiguredReadBack(chain: seq<Vars>, n: string, v: bool)
    requires |chain| >= 1 && FlagTyped(chain[0], n)
    ensures Unconfigured(chain[0 := SetUnconfiguredOf(chain[0], n, v).0], n) == v
  {
    var c := chain[0 := SetUnconfiguredOf(chain[0], n, v).0];
    assert Lookup(c, FlagName(n)) == Some(Flag(!v));
  }

  /** Setting the flag to what it already holds reports no change. */
  lemma SetUnconfiguredIdempotent(rs: Vars, n: string, v: bool)
    requires FlagTyped(rs, n)
    ensures var r := SetUnconfiguredOf(rs, n, v);
      FlagTyped(r.0, n) && SetUnconfiguredOf(r.0, n, v) == (r.0, false)
  {
  }

  /** The `.configured` flag never makes a module count as specified. */
  lemma SetUnconfiguredKeepsSpecified(chain: seq<Vars>, n: string, v: bool, m: string)
    requires |chain| >= 1 && FlagTyped(chain[0], n)
    ensures SpecifiedIn(chain[0 := SetUnconfiguredOf(chain[0], n, v).0], m) == SpecifiedIn(chain, m)
  {
    var c := chain[0 := SetUnconfiguredOf(chain[0], n, v).0];
    if SpecifiedIn(c, m) {
      var i, name :| 0 <= i < |c| && name in c[i] && Specifies(name, m);
      assert name != FlagName(n);
      assert name in chain[i];
    }
    if SpecifiedIn(chain, m) {
      var i, name :| 0 <= i < |chain| && name in chain[i] && Specifies(name, m);
      assert name in c[i];
    }
  }

  /**
   * A lookup result: the value found, whether it was set as a default
   * (`extra`), and the depth of the scope it was found in.
   */
  datatype Found = Found(value: Value, extra: bool, depth: nat)

  /**
   * `omitted`: the original lookup of a configuration variable, replaced
   * by the override lookup when the variable has overrides (`ovr` present)
   * and the override result differs. The flag says whether the value
   * counts as new: an inherited default or any override does. The source
   * compares the two lookups by identity (the same variable in the same
   * scope); the model compares the found values and their depth, so an
   * override that finds an equal value at the same depth counts as no
   * override.
   */
  function Omitted(org: Option<Found>, ovr: Option<Option<Found>>): (r: (Option<Found>, bool))
    ensures ovr.None? || ovr.value == org ==> r.0 == org
    ensures ovr.Some? && ovr.value != org ==> r.0 == ovr.value && r.1
    ensures !r.1 <==> (org.None? || !org.value.extra) && (ovr.None? || ovr.value == org)
  {
    var n := org.Some? && org.value.extra;
    if ovr.Some? && ovr.value != org then (ovr.value, true)
    else (org, n)
  }

  /** A value that is neither inherited as a default nor overridden is not new, and stays as found. */
  lemma OmittedPlain(org: Option<Found>)
    requires org.None? || !org.value.extra
    ensures Omitted(org, None) == (org, false) && Omitted(org, Some(org)) == (org, false)
  {
  }

  /**
   * The root scope of a project and its outer scopes, whose variables the
   * helpers read and the root scope's of which they assign.
   */
  class Scopes {
    /** The root scope first, then its outer scopes, innermost first. */
    var chain: seq<Vars>

    predicate Valid()
      reads this
    {
      |chain| >= 1
    }

    constructor (rs: Vars, outer: seq<Vars>)
      ensures Valid() && chain == [rs] + outer
    {
      chain := [rs] + outer;
    }

    /**
     * `specified (rs, n)`: visit the scopes from the root scope outwards and
     * the variables of each, stopping at the first one in the `config.<n>`
     * namespace whose name does not end in `.configured`.
     */
    method Specified(n: string) returns (r: bool)
      requires Valid()
      ensures r == SpecifiedIn(chain, n)
    {
      var i := 0;
      while i < |chain|
        invariant 0 <= i <= |chain|
        invariant forall j, name :: 0 <= j < i && name in chain[j] ==> !Specifies(name, n)
      {
        var names := chain[i].Keys;
        while names != {}
          invariant names <= chain[i].Keys
          invariant forall name :: name in chain[i] && name !in names ==> !Specifies(name, n)
          decreases |names|
        {
          var name :| name in names;
          if InNamespace(name, Namespace(n)) && !EndsWith(name, ".configured") {
            assert name in chain[i] && Specifies(name, n);
            return true;
          }
          names := names - {name};
        }
        i := i + 1;
      }
      return false;
    }

    /** `unconfigured (rs, n, v)` on the root scope. */
    method SetUnconfigured(n: string, v: bool) returns (changed: bool)
      requires Valid() && FlagTyped(chain[0], n)
      modifies this
      ensures Valid()
      ensures chain == old(chain)[0 := SetUnconfiguredOf(old(chain[0]), n, v).0]
      ensures changed == SetUnconfiguredOf(old(chain[0]), n, v).1
      ensures Unconfigured(chain, n) == v
    {
      var rs := chain[0];
      var f := FlagName(n);
      if f !in rs || rs[f].Null? || rs[f].b != !v {
        rs := rs[f := Flag(!v)];
        changed := true;
      } else {
        changed := false;
      }
      SetUnconfiguredReadBack(chain, n, v);
      chain := chain[0 := rs];
    }

    /**
     * `optional (rs, var)`: the visible value of the variable; when none is
     * visible, a null value is assigned in the root scope and returned.
     */
    method Optional(name: string) returns (x: Value)
      requires Valid()
      modifies this
      ensures Valid()
      ensures old(Lookup(chain, name)).Some? ==> chain == old(chain) && x == old(Lookup(chain, name)).value
      ensures old(Lookup(chain, name)).None? ==> chain == old(chain)[0 := old(chain[0])[name := Null]] && x == Null
      ensures Lookup(chain, name) == Some(x)
    {
      var l := Lookup(chain, name);
      if l.Some? {
        x := l.value;
      } else {
        chain := chain[0 := chain[0][name := Null]];
        x := Null;
      }
    }
  }

  // Generated project files

  /** The comment that opens every generated file. */
  function Header(who: string): (r: string)
    ensures StartsWith(r, "# Generated by " + who) && EndsWith(r, "\n#")
  {
    var r := "# Generated by " + who + ". Edit if you know what you are doing.\n#";
    assert r[..|"# Generated by " + who|] == "# Generated by " + who;
    assert r[|r| - 2..] == "\n#";
    r
  }

  /** A directory path: well formed and, unless it has no components, written with a trailing separator. */
  predicate DirPath(p: Path)
  {
    WellFormed(p) && (p.comps != [] ==> p.dir)
  }

  /** The `amalgamation =` line of `bootstrap.build`, present only when an amalgamation is given. */
  function AmalgamationLine(amal: Option<Path>): (r: string)
    ensures amal.None? <==> r == ""
    ensures r != "" ==> StartsWith(r, "amalgamation =") && r[|r| - 1] == '\n'
  {
    match amal
    case None => ""
    case Some(a) => if IsEmpty(a) then "amalgamation =\n" else "amalgamation = " + ToString(a) + "\n"
  }

  /**
   * Without an amalgamation there is no line; an empty one gives a line
   * without a value; otherwise the value written parses back to it.
   */
  lemma AmalgamationLineCases(amal: Option<Path>)
    requires amal.Some? ==> DirPath(amal.value)
    ensures amal.None? <==> AmalgamationLine(amal) == ""
    ensures amal.Some? && IsEmpty(amal.value) ==> AmalgamationLine(amal) == "amalgamation =\n"
    ensures amal.Some? && !IsEmpty(amal.value) ==>
      exists s :: AmalgamationLine(amal) == "amalgamation = " + s + "\n" && Parse(s) == amal.value
  {
    match amal
    case None =>
    case Some(a) =>
      assert |AmalgamationLine(amal)| >= |"amalgamation =\n"|;
      if !IsEmpty(a) {
        AmalgamationValueParses(a);
      }
  }

  /** The value written for a non-empty amalgamation parses back to it. */
  lemma AmalgamationValueParses(a: Path)
    requires DirPath(a) && !IsEmpty(a)
    ensures exists s :: AmalgamationLine(Some(a)) == "amalgamation = " + s + "\n" && Parse(s) == a
  {
    ParseToString(a);
  }

  /** `bmod` without the entries equal to `x`, in order. */
  function Without(bmod: seq<string>, x: string): (r: seq<string>)
    ensures forall m :: m in r <==> m in bmod && m != x
    ensures multiset(r)[x] == 0
    decreases |bmod|
  {
    if bmod == [] then []
    else if bmod[0] == x then Without(bmod[1..], x)
    else
      assert forall m :: m in bmod <==> m == bmod[0] || m in bmod[1..];
      [bmod[0]] + Without(bmod[1..], x)
  }

  /** The modules `bootstrap.build` loads, in order: `config` first when requested, then `bmod`. */
  function BootstrapModules(config: bool, bmod: seq<string>): seq<string>
  {
    if config then ["config"] + Without(bmod, "config") else bmod
  }

  /**
   * `config` is loaded exactly once when requested, every module of `bmod`
   * is loaded, and nothing else is; without `config` the list is `bmod`.
   */
  lemma BootstrapModulesLoaded(config: bool, bmod: seq<string>)
    ensures config ==> multiset(BootstrapModules(config, bmod))["config"] == 1
    ensures forall m :: m in BootstrapModules(config, bmod) <==> m in bmod || (config && m == "config")
    ensures !config ==> BootstrapModules(config, bmod) == bmod
  {
    if config {
      assert multiset(["config"] + Without(bmod, "config")) == multiset(["config"]) + multiset(Without(bmod, "config"));
    }
  }

  /** One `using <module>` line per module, in order. */
  function UsingLines(mods: seq<string>): string
    decreases |mods|
  {
    if mods == [] then "" else "using " + mods[0] + "\n" + UsingLines(mods[1..])
  }

  /** The text of `build/bootstrap.build`. */
  function BootstrapText(who: string, amal: Option<Path>, bmod: seq<string>, config: bool): (r: string)
    ensures StartsWith(r, Header(who) + "\nproject =\n" + AmalgamationLine(amal) + "\n")
    ensures EndsWith(r, UsingLines(BootstrapModules(config, bmod)))
  {
    var pre := Header(who) + "\nproject =\n" + AmalgamationLine(amal) + "\n";
    var r := pre + UsingLines(BootstrapModules(config, bmod));
    assert r[..|pre|] == pre;
    r
  }

  /** An entry of `rmod`: a module name, optionally preceded by '?', not empty after it. */
  predicate ModuleEntry(cm: string)
  {
    |cm| >= 1 && (cm[0] == '?' ==> |cm| >= 2)
  }

  predicate OptionalEntry(cm: string)
    requires ModuleEntry(cm)
  {
    cm[0] == '?'
  }

  /** The module an entry of `rmod` names, without its '?'. */
  function EntryModule(cm: string): (m: string)
    requires ModuleEntry(cm)
    ensures |m| >= 1
    ensures if OptionalEntry(cm) then "?" + m == cm else m == cm
  {
    var m := if cm[0] == '?' then cm[1..] else cm;
    assert cm[0] == '?' ==> cm == [cm[0]] + cm[1..];
    m
  }

  /** The module `root.build` loads for an entry: a trailing '.' is dropped, otherwise `.config` is appended. */
  function RootModule(cm: string): (r: string)
    requires ModuleEntry(cm)
    ensures var m := EntryModule(cm);
      if m[|m| - 1] == '.' then r + "." == m else r == m + ".config"
  {
    var m := EntryModule(cm);
    if m[|m| - 1] == '.' then
      assert m[..|m| - 1] + "." == m;
      m[..|m| - 1]
    else m + ".config"
  }

  /** The `root.build` line for an entry: `using?` for an optional entry, `using` otherwise. */
  function ModuleLine(cm: string): (r: string)
    requires ModuleEntry(cm)
    ensures StartsWith(r, "using? ") <==> OptionalEntry(cm)
    ensures r == (if OptionalEntry(cm) then "using? " else "using ") + RootModule(cm) + "\n"
  {
    var opt := cm[0] == '?';
    var r := (if opt then "using? " else "using ") + RootModule(cm) + "\n";
    assert opt ==> r[..7] == "using? ";
    assert !opt ==> r[5] == ' ';
    r
  }

  function ModuleLines(rmod: seq<string>): string
    requires forall i :: 0 <= i < |rmod| ==> ModuleEntry(rmod[i])
    decreases |rmod|
  {
    if rmod == [] then "" else ModuleLine(rmod[0]) + ModuleLines(rmod[1..])
  }

  /**
   * The text of `build/root.build`. The trailing block is written when
   * `rpos` is non-empty, but it repeats `rpre`: `rpos` itself is never
   * written.
   */
  function RootText(who: string, rpre: string, rmod: seq<string>, rpos: string): (r: string)
    requires forall i :: 0 <= i < |rmod| ==> ModuleEntry(rmod[i])
    ensures StartsWith(r, Header(who) + "\n")
    ensures rpos == "" ==> EndsWith(r, ModuleLines(rmod))
    ensures rpos != "" ==> EndsWith(r, "\n" + rpre + "\n")
  {
    var h := Header(who) + "\n";
    var p := if rpre != "" then rpre + "\n\n" else "";
    var e := if rpos != "" then "\n" + rpre + "\n" else "";
    StartsWithConcat(h, p, ModuleLines(rmod));
    StartsWithExtend(h + p + ModuleLines(rmod), h, e);
    EndsWithConcat(h + p, ModuleLines(rmod), e);
    EndsWithConcat(h + p, ModuleLines(rmod), "");
    assert ModuleLines(rmod) + "" == ModuleLines(rmod);
    EndsWithConcat(h + p + ModuleLines(rmod), e, "");
    assert e + "" == e;
    assert h + p + ModuleLines(rmod) + e + "" == h + p + ModuleLines(rmod) + e;
    h + p + ModuleLines(rmod) + e
  }

  /** Only whether `rpos` is empty matters to `root.build`; a non-empty one yields a second copy of `rpre`. */
  lemma RootTextRepeatsPrologue(who: string, rpre: string, rmod: seq<string>, rpos1: string, rpos2: string)
    requires forall i :: 0 <= i < |rmod| ==> ModuleEntry(rmod[i])
    requires rpos1 != "" && rpos2 != ""
    ensures RootText(who, rpre, rmod, rpos1) == RootText(who, rpre, rmod, rpos2)
    ensures EndsWith(RootText(who, rpre, rmod, rpos1), "\n" + rpre + "\n")
  {
    var r := RootText(who, rpre, rmod, rpos1);
    var tail := "\n" + rpre + "\n";
    assert r[|r| - |tail|..] == tail;
  }

  /** The text of the root `buildfile`: every subdirectory except `build/`. */
  function BuildfileText(who: string): (r: string)
    ensures StartsWith(r, Header(who) + "\n") && EndsWith(r, "./: {*/ -build/}\n")
  {
    var pre := Header(who) + "\n";
    var r := pre + "./: {*/ -build/}\n";
    assert r[..|pre|] == pre;
    assert r[|r| - |"./: {*/ -build/}\n"|..] == "./: {*/ -build/}\n";
    r
  }

  // Creating the project

  datatype Diag =
    | NotEmpty(dir: Path)
    | MkdirFailed(dir: Path)
    | WriteFailed(file: Path)

  function BuildDir(d: Path): Path { Path(d.absolute, d.comps + ["build"], true) }
  function BootstrapFile(d: Path): Path { Path(d.absolute, d.comps + ["build", "bootstrap.build"], false) }
  function RootFile(d: Path): Path { Path(d.absolute, d.comps + ["build", "root.build"], false) }
  function BuildfileFile(d: Path): Path { Path(d.absolute, d.comps + ["buildfile"], false) }

  /**
   * Creating a directory and its missing ancestors, outermost first; the
   * flag is false, and the entries those created so far, once one of them
   * cannot be created.
   */
  function MkdirPOf(m: Entries, k: seq<string>): (r: (Entries, bool))
    ensures forall key :: key in m ==> key in r.0 && r.0[key] == m[key]
    ensures r.1 ==> IsDir(r.0, k)
    decreases |k|
  {
    if k == [] then (m, true)
    else
      var (m1, ok) := MkdirPOf(m, k[..|k| - 1]);
      if !ok then (m1, false)
      else match MkdirOf(m1, k)
        case None => (m1, false)
        case Some(m2) => (m2, true)
  }


  /** A failure of `mkdir_p` part of the way stops it there. */
  lemma {:induction false} MkdirPFailureSticks(m: Entries, k: seq<string>, i: nat)
    requires i <= |k| && !MkdirPOf(m, k[..i]).1
    ensures MkdirPOf(m, k) == MkdirPOf(m, k[..i])
    decreases |k| - i
  {
    if i < |k| {
      var q := k[..i + 1];
      assert q[..|q| - 1] == k[..i];
      MkdirPFailureSticks(m, k, i + 1);
    } else {
      assert k[..i] == k;
    }
  }

  /**
   * `mkdir_p` succeeds exactly when no ancestor of `k` (nor `k` itself) is a
   * file; it then leaves every prefix of `k` a directory, and it only ever
   * adds directories on the prefixes of `k`.
   */
  lemma {:induction false} MkdirPShape(m: Entries, k: seq<string>)
    ensures MkdirPOf(m, k).1 <==> forall i :: 1 <= i <= |k| ==> !IsFile(m, k[..i])
    ensures MkdirPOf(m, k).1 ==> forall i :: 0 <= i <= |k| ==> IsDir(MkdirPOf(m, k).0, k[..i])
    ensures forall key :: key in m ==> key in MkdirPOf(m, k).0 && MkdirPOf(m, k).0[key] == m[key]
    ensures forall key :: key in MkdirPOf(m, k).0 && key !in m ==>
      |key| <= |k| && key == k[..|key|] && MkdirPOf(m, k).0[key] == Dir
    decreases |k|
  {
    if k != [] {
      var p := k[..|k| - 1];
      MkdirPShape(m, p);
      var (m1, ok1) := MkdirPOf(m, p);
      assert forall i :: 0 <= i <= |p| ==> p[..i] == k[..i];
      assert k[..|k|] == k;
      if ok1 {
        assert IsDir(m1, p);
        assert ParentIsDir(m1, k);
        assert k in m1 <==> k in m;
        assert k in m ==> m1[k] == m[k];
        var r := MkdirOf(m1, k);
        if r.None? {
          assert IsFile(m, k[..|k|]);
        } else {
          assert !IsFile(m, k);
          assert IsDir(r.value, k);
          forall i | 0 <= i <= |k| ensures IsDir(r.value, k[..i]) {
            if i < |k| {
              assert IsDir(m1, p[..i]);
            }
          }
        }
      }
    }
  }

  /**
   * Creating `build/` and writing `build/bootstrap.build`, `build/root.build`
   * and, when given, the root `buildfile`, each step failing the whole.
   */
  function WriteFilesOf(m: Entries, d: Path, boot: string, root: string, buildfile: Option<string>)
    : (r: (Entries, Outcome<Diag>))
    ensures forall key :: key in m ==> key in r.0
    ensures forall key :: IsDir(m, key) ==> IsDir(r.0, key)
    ensures r.1.Fail? ==>
      (r.1.error in {MkdirFailed(BuildDir(d)), WriteFailed(BootstrapFile(d)), WriteFailed(RootFile(d)), WriteFailed(BuildfileFile(d))})
    ensures r.1.Fail? && r.1.error == WriteFailed(BuildfileFile(d)) ==> buildfile.Some?
  {
    match MkdirOf(m, BuildDir(d).comps)
    case None => (m, Fail(MkdirFailed(BuildDir(d))))
    case Some(m2) =>
      if OpenWriteOf(m2, BootstrapFile(d).comps, false).None? then (m2, Fail(WriteFailed(BootstrapFile(d))))
      else
        var m3 := m2[BootstrapFile(d).comps := File(boot)];
        if OpenWriteOf(m3, RootFile(d).comps, false).None? then (m3, Fail(WriteFailed(RootFile(d))))
        else
          var m4 := m3[RootFile(d).comps := File(root)];
          match buildfile
          case None => (m4, Pass)
          case Some(text) =>
            if OpenWriteOf(m4, BuildfileFile(d).comps, false).None? then (m4, Fail(WriteFailed(BuildfileFile(d))))
            else (m4[BuildfileFile(d).comps := File(text)], Pass)
  }

  /**
   * The steps of `create_project` on the filesystem, as a function of the
   * entries before it and of the texts of the files it writes.
   */
  function CreateProjectOf(m: Entries, d: Path, boot: string, root: string, buildfile: Option<string>)
    : (r: (Entries, Outcome<Diag>))
    ensures forall key :: key in m ==> key in r.0
    ensures forall key :: IsDir(m, key) ==> IsDir(r.0, key)
    ensures r.1 == Fail(NotEmpty(d)) ==> r.0 == m
  {
    if IsDir(m, d.comps) && HasChildren(m, d.comps) then (m, Fail(NotEmpty(d)))
    else
      var (m1, ok1) := if IsDir(m, d.comps) then (m, true) else MkdirPOf(m, d.comps);
      if !ok1 then (m1, Fail(MkdirFailed(d)))
      else WriteFilesOf(m1, d, boot, root, buildfile)
  }

  /** The four paths written below the project directory are distinct and lie strictly below it. */
  lemma ProjectPathsDistinct(d: Path)
    ensures var k := d.comps;
      && BuildDir(d).comps[..|k|] == k && BootstrapFile(d).comps[..|k|] == k
      && RootFile(d).comps[..|k|] == k && BuildfileFile(d).comps[..|k|] == k
      && BootstrapFile(d).comps[..|k| + 1] == BuildDir(d).comps && RootFile(d).comps[..|k| + 1] == BuildDir(d).comps
      && BuildDir(d).comps != BootstrapFile(d).comps && BuildDir(d).comps != RootFile(d).comps
      && BuildDir(d).comps != BuildfileFile(d).comps && BootstrapFile(d).comps != RootFile(d).comps
      && BootstrapFile(d).comps != BuildfileFile(d).comps && RootFile(d).comps != BuildfileFile(d).comps
  {
    var k := d.comps;
    assert BootstrapFile(d).comps[|k| + 1] != RootFile(d).comps[|k| + 1];
    assert BuildDir(d).comps[|k|] != BuildfileFile(d).comps[|k|];
    assert BootstrapFile(d).comps[|k|] != BuildfileFile(d).comps[|k|];
  }

  /** When the writes succeed, `build/` is a directory and each file holds its text; the project directory stays. */
  lemma WriteFilesContents(m: Entries, d: Path, boot: string, root: string, buildfile: Option<string>)
    requires WriteFilesOf(m, d, boot, root, buildfile).1.Pass?
    ensures var e := WriteFilesOf(m, d, boot, root, buildfile).0;
      && IsDir(e, BuildDir(d).comps)
      && IsFile(e, BootstrapFile(d).comps) && e[BootstrapFile(d).comps].content == boot
      && IsFile(e, RootFile(d).comps) && e[RootFile(d).comps].content == root
      && (buildfile.Some? ==> IsFile(e, BuildfileFile(d).comps) && e[BuildfileFile(d).comps].content == buildfile.value)
      && (IsDir(m, d.comps) ==> IsDir(e, d.comps))
      && (buildfile.None? ==> BuildfileFile(d).comps in e ==> BuildfileFile(d).comps in m)
      && forall key :: (key in e && key != BuildDir(d).comps && key != BootstrapFile(d).comps &&
        key != RootFile(d).comps && key != BuildfileFile(d).comps) ==> key in m && e[key] == m[key]
  {
    WriteFilesState(m, d, boot, root, buildfile);
    WrittenContents(m, d, boot, root, buildfile);
  }

  /** The entries after writes that pass: `build/` a directory, then each file set to its text. */
  function Written(m: Entries, d: Path, boot: string, root: string, buildfile: Option<string>): (e: Entries)
    ensures forall key :: key in m ==> key in e
  {
    var m2 := if IsDir(m, BuildDir(d).comps) then m else m[BuildDir(d).comps := Dir];
    var m4 := m2[BootstrapFile(d).comps := File(boot)][RootFile(d).comps := File(root)];
    if buildfile.Some? then m4[BuildfileFile(d).comps := File(buildfile.value)] else m4
  }

  /** Writes that pass leave exactly the entries `Written` describes. */
  lemma WriteFilesState(m: Entries, d: Path, boot: string, root: string, buildfile: Option<string>)
    requires WriteFilesOf(m, d, boot, root, buildfile).1.Pass?
    ensures WriteFilesOf(m, d, boot, root, buildfile).0 == Written(m, d, boot, root, buildfile)
  {
  }

  /** What `Written` holds at the four paths, and that it keeps every other entry. */
  lemma WrittenContents(m: Entries, d: Path, boot: string, root: string, buildfile: Option<string>)
    ensures var e := Written(m, d, boot, root, buildfile);
      && IsDir(e, BuildDir(d).comps)
      && IsFile(e, BootstrapFile(d).comps) && e[BootstrapFile(d).comps].content == boot
      && IsFile(e, RootFile(d).comps) && e[RootFile(d).comps].content == root
      && (buildfile.Some? ==> IsFile(e, BuildfileFile(d).comps) && e[BuildfileFile(d).comps].content == buildfile.value)
      && (IsDir(m, d.comps) ==> IsDir(e, d.comps))
      && (buildfile.None? ==> BuildfileFile(d).comps in e ==> BuildfileFile(d).comps in m)
      && forall key :: (key in e && key != BuildDir(d).comps && key != BootstrapFile(d).comps &&
        key != RootFile(d).comps && key != BuildfileFile(d).comps) ==> key in m && e[key] == m[key]
  {
    ProjectPathsDistinct(d);
    var k := d.comps;
    assert k != BuildDir(d).comps && k != BootstrapFile(d).comps;
    assert k != RootFile(d).comps && k != BuildfileFile(d).comps;
  }

  /** In an empty directory the writes succeed. */
  lemma WriteFilesSucceed(m: Entries, d: Path, boot: string, root: string, buildfile: Option<string>)
    requires IsDir(m, d.comps) && !HasChildren(m, d.comps)
    ensures WriteFilesOf(m, d, boot, root, buildfile).1.Pass?
  {
    ProjectPathsAbsent(m, d);
    var k, b := d.comps, BuildDir(d).comps;
    var bs, rf, bf := BootstrapFile(d).comps, RootFile(d).comps, BuildfileFile(d).comps;
    ProjectPathsParents(d);
    var m2 := m[b := Dir];
    assert MkdirOf(m, b) == Some(m2);
    WriteStepsSucceed(m2, k, b, bs, rf, bf, boot, root);
    WriteFilesPass(m, d, boot, root, buildfile);
  }

  /** None of the paths `create_project` writes exists in an empty project directory. */
  lemma ProjectPathsAbsent(m: Entries, d: Path)
    requires !HasChildren(m, d.comps)
    ensures BuildDir(d).comps !in m && BootstrapFile(d).comps !in m
    ensures RootFile(d).comps !in m && BuildfileFile(d).comps !in m
  {
    ProjectPathsDistinct(d);
    BelowEmptyAbsent(m, d.comps, BuildDir(d).comps);
    BelowEmptyAbsent(m, d.comps, BootstrapFile(d).comps);
    BelowEmptyAbsent(m, d.comps, RootFile(d).comps);
    BelowEmptyAbsent(m, d.comps, BuildfileFile(d).comps);
  }

  /** `build/` and `buildfile` lie directly in the project directory, the two build files directly in `build/`. */
  lemma ProjectPathsParents(d: Path)
    ensures var b := BuildDir(d).comps;
      && b != [] && b[..|b| - 1] == d.comps && b != d.comps
      && BootstrapFile(d).comps != [] && BootstrapFile(d).comps[..|BootstrapFile(d).comps| - 1] == b
      && RootFile(d).comps != [] && RootFile(d).comps[..|RootFile(d).comps| - 1] == b
      && BuildfileFile(d).comps != [] && BuildfileFile(d).comps[..|BuildfileFile(d).comps| - 1] == d.comps
      && BootstrapFile(d).comps != RootFile(d).comps && BuildfileFile(d).comps != BootstrapFile(d).comps
      && BuildfileFile(d).comps != RootFile(d).comps && b != BootstrapFile(d).comps && b != RootFile(d).comps
  {
    ProjectPathsDistinct(d);
    var b := BuildDir(d).comps;
    assert b[..|b| - 1] == d.comps;
    assert BootstrapFile(d).comps[..|BootstrapFile(d).comps| - 1] == b;
    assert RootFile(d).comps[..|RootFile(d).comps| - 1] == b;
    assert BuildfileFile(d).comps[..|BuildfileFile(d).comps| - 1] == d.comps;
  }

  /** The writes pass when each of their steps can be taken. */
  lemma WriteFilesPass(m: Entries, d: Path, boot: string, root: string, buildfile: Option<string>)
    requires MkdirOf(m, BuildDir(d).comps).Some?
    requires var m2 := MkdirOf(m, BuildDir(d).comps).value;
      && OpenWriteOf(m2, BootstrapFile(d).comps, false).Some?
      && OpenWriteOf(m2[BootstrapFile(d).comps := File(boot)], RootFile(d).comps, false).Some?
      && OpenWriteOf(m2[BootstrapFile(d).comps := File(boot)][RootFile(d).comps := File(root)], BuildfileFile(d).comps, false).Some?
    ensures WriteFilesOf(m, d, boot, root, buildfile).1.Pass?
  {
  }

  /** The three file writes of `create_project` after `build/` exists. */
  lemma WriteStepsSucceed(m2: Entries, k: seq<string>, b: seq<string>, bs: seq<string>, rf: seq<string>,
                          bf: seq<string>, boot: string, root: string)
    requires IsDir(m2, k) && IsDir(m2, b) && k != b
    requires bs != [] && bs[..|bs| - 1] == b && rf != [] && rf[..|rf| - 1] == b && bf != [] && bf[..|bf| - 1] == k
    requires bs !in m2 && rf !in m2 && bf !in m2 && bs != rf && bf != bs && bf != rf && b != bs && b != rf
    ensures OpenWriteOf(m2, bs, false).Some?
    ensures OpenWriteOf(m2[bs := File(boot)], rf, false).Some?
    ensures OpenWriteOf(m2[bs := File(boot)][rf := File(root)], bf, false).Some?
  {
    var m3 := m2[bs := File(boot)];
    assert IsDir(m3, b) && rf !in m3;
    var m4 := m3[rf := File(root)];
    assert IsDir(m4, k) && bf !in m4;
  }

  /** Nothing lies below a directory without children. */
  lemma BelowEmptyAbsent(m: Entries, d: seq<string>, k: seq<string>)
    requires !HasChildren(m, d) && |d| < |k| && k[..|d|] == d
    ensures k !in m
  {
  }

  /** Every entry's parent is a directory, as in a real filesystem. */
  predicate Rooted(m: Entries)
  {
    forall k :: k in m ==> ParentIsDir(m, k)
  }

  /** In a rooted filesystem every non-empty prefix of an entry is an entry, a directory unless it is the entry. */
  lemma {:induction false} AncestorsExist(m: Entries, k: seq<string>, j: nat)
    requires Rooted(m) && k in m && 1 <= j <= |k|
    ensures k[..j] in m && (j < |k| ==> m[k[..j]] == Dir)
    decreases |k| - j
  {
    if j < |k| {
      AncestorsExist(m, k, j + 1);
      var q := k[..j + 1];
      assert ParentIsDir(m, q);
      assert q[..|q| - 1] == k[..j];
    } else {
      assert k[..j] == k;
    }
  }

  /** A directory that is absent from a rooted filesystem has nothing below it. */
  lemma AbsentHasNoChildren(m: Entries, d: seq<string>)
    requires Rooted(m) && d != [] && d !in m
    ensures !HasChildren(m, d)
  {
    forall k | k in m && |d| < |k|
      ensures k[..|d|] != d
    {
      AncestorsExist(m, k, |d|);
    }
  }

  /**
   * In a rooted filesystem, `create_project` fails exactly when the
   * directory exists and is not empty, or when a file stands where the
   * directory or one of its ancestors should be; creating `build/` and
   * writing the files never fail.
   */
  lemma CreateProjectOutcome(m: Entries, d: Path, boot: string, root: string, buildfile: Option<string>)
    requires Rooted(m)
    ensures var r := CreateProjectOf(m, d, boot, root, buildfile);
      && (r.1 == Fail(NotEmpty(d)) <==> IsDir(m, d.comps) && HasChildren(m, d.comps))
      && (r.1 == Fail(NotEmpty(d)) ==> r.0 == m)
      && (r.1.Pass? <==> !HasChildren(m, d.comps) && forall i :: 1 <= i <= |d.comps| ==> !IsFile(m, d.comps[..i]))
      && (r.1.Fail? ==> r.1.error.NotEmpty? || r.1.error == MkdirFailed(d))
  {
    var k := d.comps;
    if IsDir(m, k) {
      if !HasChildren(m, k) {
        forall i | 1 <= i <= |k| ensures !IsFile(m, k[..i]) {
          assert k in m;
          AncestorsExist(m, k, i);
          if i == |k| {
            assert k[..i] == k;
          }
        }
        WriteFilesSucceed(m, d, boot, root, buildfile);
      }
    } else {
      MkdirPShape(m, k);
      var (m1, ok1) := MkdirPOf(m, k);
      assert k[..|k|] == k;
      if !IsFile(m, k) {
        assert k !in m;
        AbsentHasNoChildren(m, k);
        if ok1 {
          assert forall c :: c in m1 && |k| < |c| ==> c in m;
          assert !HasChildren(m1, k);
          WriteFilesSucceed(m1, d, boot, root, buildfile);
        }
      }
    }
  }

  /** On success the project directory and `build/` are directories and the files hold the generated texts. */
  lemma CreateProjectContents(m: Entries, d: Path, boot: string, root: string, buildfile: Option<string>)
    requires CreateProjectOf(m, d, boot, root, buildfile).1.Pass?
    ensures var e := CreateProjectOf(m, d, boot, root, buildfile).0;
      && IsDir(e, d.comps) && IsDir(e, BuildDir(d).comps)
      && IsFile(e, BootstrapFile(d).comps) && e[BootstrapFile(d).comps].content == boot
      && IsFile(e, RootFile(d).comps) && e[RootFile(d).comps].content == root
      && (buildfile.Some? ==> IsFile(e, BuildfileFile(d).comps) && e[BuildfileFile(d).comps].content == buildfile.value)
      && (buildfile.None? ==> BuildfileFile(d).comps in e ==> BuildfileFile(d).comps in m)
      && forall key :: key in e && key !in m ==>
        key == BuildDir(d).comps || key == BootstrapFile(d).comps || key == RootFile(d).comps ||
        key == BuildfileFile(d).comps || (|key| <= |d.comps| && key == d.comps[..|key|])
  {
    var k := d.comps;
    var (m1, ok1) := if IsDir(m, k) then (m, true) else MkdirPOf(m, k);
    if !IsDir(m, k) {
      MkdirPShape(m, k);
      assert k[..|k|] == k;
      assert BuildfileFile(d).comps in m1 ==> BuildfileFile(d).comps in m;
    }
    assert IsDir(m1, k);
    WriteFilesContents(m1, d, boot, root, buildfile);
    ProjectPathsDistinct(d);
  }

  /** `mkdir_p` as a loop creating each prefix of the directory in turn. */
  method MkdirP(fs: FS, d: Path) returns (ok: bool)
    modifies fs
    ensures (fs.entries, ok) == MkdirPOf(old(fs.entries), d.comps)
  {
    var i := 0;
    while i < |d.comps|
      invariant 0 <= i <= |d.comps|
      invariant (fs.entries, true) == MkdirPOf(old(fs.entries), d.comps[..i])
    {
      assert d.comps[..i + 1][..i] == d.comps[..i];
      ok := fs.Mkdir(Path(d.absolute, d.comps[..i + 1], true));
      if !ok {
        MkdirPFailureSticks(old(fs.entries), d.comps, i + 1);
        return;
      }
      i := i + 1;
    }
    assert d.comps[..i] == d.comps;
    ok := true;
  }

  /** Creating `build/` and writing the files of the project, stopping at the first failure. */
  method WriteFiles(fs: FS, d: Path, boot: string, root: string, buildfile: Option<string>)
    returns (o: Outcome<Diag>)
    modifies fs
    ensures (fs.entries, o) == WriteFilesOf(old(fs.entries), d, boot, root, buildfile)
  {
    var ok := fs.Mkdir(BuildDir(d));
    if !ok {
      return Fail(MkdirFailed(BuildDir(d)));
    }
    ok := fs.Write(BootstrapFile(d), false, boot);
    if !ok {
      return Fail(WriteFailed(BootstrapFile(d)));
    }
    assert "" + boot == boot;
    ok := fs.Write(RootFile(d), false, root);
    if !ok {
      return Fail(WriteFailed(RootFile(d)));
    }
    assert "" + root == root;
    if buildfile.Some? {
      ok := fs.Write(BuildfileFile(d), false, buildfile.value);
      if !ok {
        return Fail(WriteFailed(BuildfileFile(d)));
      }
      assert "" + buildfile.value == buildfile.value;
    }
    o := Pass;
  }

  /**
   * `create_project`: refuse a non-empty existing directory, otherwise
   * create it (with its ancestors) when missing, then create `build/` and
   * write `build/bootstrap.build`, `build/root.build` and, when asked, the
   * root `buildfile`.
   */
  method CreateProject(fs: FS, d: Path, amal: Option<Path>, bmod: seq<string>, rpre: string,
                       rmod: seq<string>, rpos: string, config: bool, buildfile: bool, who: string)
    returns (o: Outcome<Diag>)
    requires forall i :: 0 <= i < |rmod| ==> ModuleEntry(rmod[i])
    modifies fs
    ensures (fs.entries, o) == CreateProjectOf(old(fs.entries), d, BootstrapText(who, amal, bmod, config),
      RootText(who, rpre, rmod, rpos), if buildfile then Some(BuildfileText(who)) else None)
  {
    if IsDir(fs.entries, d.comps) {
      if HasChildren(fs.entries, d.comps) {
        return Fail(NotEmpty(d));
      }
    } else {
      var made := MkdirP(fs, d);
      if !made {
        return Fail(MkdirFailed(d));
      }
    }
    o := WriteFiles(fs, d, BootstrapText(who, amal, bmod, config), RootText(who, rpre, rmod, rpos),
                    if buildfile then Some(BuildfileText(who)) else None);
  }
}
