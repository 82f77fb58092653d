/**
 * Target bookkeeping (build2/target.cxx): target types and their base
 * chains, the recipe state of a target, variable lookup depth, the target
 * set with its extension-update rule, the printed form of a target key,
 * path derivation and the factories and extension functions of the
 * built-in target types.
 */
module Targets {
  import opened Wrappers
  import opened Paths
  import opened Strings

  // Target types

  datatype Factory = NoFactory | TargetFactory | FileFactory | ManFactory

  /** The type's extension function; NoExtension when the type does not use extensions. */
  datatype ExtensionFunction =
    | NoExtension
    | ExtensionVar(default: string)
    | BuildfileExtension
    | ExtensionNull
    | ExtensionFix(fixed: string)

  datatype PrintFunction = DefaultPrint | Print0ExtVerb | Print1ExtVerb

  datatype SearchFunction = SearchTarget | SearchFile | SearchAlias

  datatype TargetType = TargetType(
    name: string,
    base: Option<TargetType>,
    factory: Factory,
    extension: ExtensionFunction,
    printer: PrintFunction,
    search: SearchFunction,
    seeThrough: bool)

  const TargetT := TargetType("target", None, NoFactory, NoExtension, DefaultPrint, SearchTarget, false)
  const MtimeTargetT := TargetType("mtime_target", Some(TargetT), NoFactory, NoExtension, DefaultPrint, SearchTarget, false)
  const PathTargetT := TargetType("path_target", Some(MtimeTargetT), NoFactory, NoExtension, DefaultPrint, SearchTarget, false)
  const FileT := TargetType("file", Some(PathTargetT), FileFactory, ExtensionVar(""), Print1ExtVerb, SearchFile, false)
  const AliasT := TargetType("alias", Some(TargetT), TargetFactory, NoExtension, DefaultPrint, SearchAlias, false)
  const DirT := TargetType("dir", Some(AliasT), TargetFactory, NoExtension, DefaultPrint, SearchAlias, false)
  const FsdirT := TargetType("fsdir", Some(TargetT), TargetFactory, NoExtension, DefaultPrint, SearchTarget, false)
  const BuildfileT := TargetType("buildfile", Some(FileT), FileFactory, BuildfileExtension, DefaultPrint, SearchFile, false)
  const DocT := TargetType("doc", Some(FileT), FileFactory, ExtensionVar(""), Print1ExtVerb, SearchFile, false)
  const ManT := TargetType("man", Some(DocT), ManFactory, ExtensionNull, Print1ExtVerb, SearchFile, false)
  const Man1T := TargetType("man1", Some(ManT), FileFactory, ExtensionFix("1"), Print0ExtVerb, SearchFile, false)

  /** The type followed by its bases, most derived first. */
  function Chain(t: TargetType): (c: seq<TargetType>)
    ensures |c| >= 1 && c[0] == t
    decreases t
  {
    match t.base
    case None => [t]
    case Some(b) => [t] + Chain(b)
  }

  function Depth(t: TargetType): nat
    decreases t
  {
    match t.base
    case None => 0
    case Some(b) => 1 + Depth(b)
  }

  /** Walks the base chain from `t` looking for `tt`. */
  method IsA(t: TargetType, tt: TargetType) returns (r: bool)
    ensures r <==> tt in Chain(t)
  {
    var p: Option<TargetType> := Some(t);
    while p.Some?
      invariant tt in Chain(t) <==> p.Some? && tt in Chain(p.value)
      decreases if p.Some? then Depth(p.value) + 1 else 0
    {
      if p.value == tt {
        return true;
      }
      p := p.value.base;
    }
    return false;
  }

  /** Every type in the chain of `t` has its own chain inside that of `t`. */
  lemma {:induction false} ChainClosed(t: TargetType, u: TargetType)
    requires u in Chain(t)
    ensures forall v :: v in Chain(u) ==> v in Chain(t)
    decreases t
  {
    if u != t {
      ChainClosed(t.base.value, u);
    }
  }

  /** is-a is transitive. */
  lemma IsATransitive(a: TargetType, b: TargetType, c: TargetType)
    requires b in Chain(a) && c in Chain(b)
    ensures c in Chain(a)
  {
    ChainClosed(a, b);
  }

  lemma BuiltinHierarchy()
    ensures FileT in Chain(Man1T) && DocT in Chain(ManT) && FileT in Chain(BuildfileT)
    ensures AliasT in Chain(DirT) && FileT !in Chain(DirT) && TargetT in Chain(FsdirT)
  {
  }

  // Recipes

  datatype RecipeFunction = NoopAction | DefaultAction | GroupAction | OtherFunction(id: nat)

  /** An empty recipe, one holding a plain recipe function, or some other callable. */
  datatype Recipe = EmptyRecipe | FunctionRecipe(f: RecipeFunction) | OtherRecipe(id: nat)

  const NoopRecipe := FunctionRecipe(NoopAction)

  datatype TargetState = Unknown | Unchanged | Postponed | Changed | Failed | Group

  /** The recipe-related state of a target. */
  datatype RecipeSlot = RecipeSlot(action: int, recipe: Recipe, rawState: TargetState, dependents: nat)

  /**
   * A recipe may be set for a later action (`later`: the new action
   * compares greater than the current one under the action ordering) or
   * when none is set; setting one again for the same action is an override,
   * allowed only over noop.
   */
  predicate CanSetRecipe(s: RecipeSlot, a: int, later: bool)
  {
    (later || s.recipe == EmptyRecipe) &&
    (IsOverride(s, a) ==> s.recipe == NoopRecipe)
  }

  predicate IsOverride(s: RecipeSlot, a: int)
  {
    a == s.action && s.recipe != EmptyRecipe
  }

  /** The slot after setting recipe `r` for action `a`. */
  function SetRecipeOf(s: RecipeSlot, a: int, r: Recipe, later: bool): (t: RecipeSlot)
    requires CanSetRecipe(s, a, later)
    ensures t.action == a && t.recipe == r
    ensures t.rawState == Unchanged <==> r == NoopRecipe
    ensures t.rawState == Unknown <==> r != NoopRecipe
    ensures IsOverride(s, a) ==> t.dependents == s.dependents
    ensures !IsOverride(s, a) ==> t.dependents == 0
  {
    RecipeSlot(a, r, if r == NoopRecipe then Unchanged else Unknown,
               if IsOverride(s, a) then s.dependents else 0)
  }

  /** Once a recipe is set, another one for the same action is accepted only over noop. */
  lemma OnlyNoopOverridden(s: RecipeSlot, a: int, r: Recipe, later: bool, later2: bool)
    requires CanSetRecipe(s, a, later)
    requires r != EmptyRecipe
    ensures CanSetRecipe(SetRecipeOf(s, a, r, later), a, later2) <==> later2 && r == NoopRecipe
  {
  }

  /**
   * Overriding a noop recipe keeps the dependents counted since it was set,
   * and the target's state then follows the new recipe.
   */
  lemma OverrideKeepsDependents(s: RecipeSlot, a: int, later: bool, d: nat, r2: Recipe)
    requires CanSetRecipe(s, a, later)
    ensures var s1 := SetRecipeOf(s, a, NoopRecipe, later).(dependents := d);
      CanSetRecipe(s1, a, true) &&
      SetRecipeOf(s1, a, r2, true).dependents == d &&
      (SetRecipeOf(s1, a, r2, true).rawState == Unknown <==> r2 != NoopRecipe)
  {
  }

  // Variable lookup

  /** A lookup result: the value found, if any, and how many levels were searched. */
  datatype Lookup<V> = Lookup(value: Option<V>, depth: nat)

  /**
   * Looks a variable up in the target (depth 1), then in its group (depth
   * 2), then delegates to the scope, whose depth is added when it finds
   * the variable.
   */
  function FindOriginal<V>(inTarget: Option<V>, group: Option<Option<V>>, scope: Lookup<V>): (r: Lookup<V>)
    ensures inTarget.Some? ==> r == Lookup(inTarget, 1)
    ensures inTarget.None? && group.Some? && group.value.Some? ==> r == Lookup(group.value, 2)
    ensures inTarget.None? && (group.None? || group.value.None?) ==>
      r.value == scope.value && r.depth == (if scope.value.Some? then 2 + scope.depth else scope.depth)
  {
    if inTarget.Some? then Lookup(inTarget, 1)
    else if group.Some? && group.value.Some? then Lookup(group.value, 2)
    else Lookup(scope.value, if scope.value.Some? then 2 + scope.depth else scope.depth)
  }

  /** A value found closer to the target is reported at a smaller depth than one found in the scope. */
  lemma LookupDepthOrder<V>(x: V, g: Option<Option<V>>, scope: Lookup<V>)
    requires scope.value.Some? && scope.depth >= 1
    ensures FindOriginal(Some(x), g, scope).depth < FindOriginal(None, None, scope).depth
    ensures FindOriginal(None, Some(Some(x)), scope).depth < FindOriginal(None, None, scope).depth
  {
  }

  // Factories and extensions

  datatype Diag =
    | ManWithoutExtension(name: string)
    | NoDefaultExtension(name: string)
    | PathMismatch(existing: Path, derived: Path)

  /** The extension a newly created target gets from its type's factory. */
  function FactoryExtension(tt: TargetType, name: string, ext: Option<string>): (r: Result<Option<string>, Diag>)
    requires tt.factory != NoFactory
    ensures tt.factory == FileFactory ==> r.Ok? && r.value == Some(ext.GetOr(""))
    ensures tt.factory == ManFactory ==> (r.Ok? <==> ext.Some?) && (r.Ok? ==> r.value == ext)
    ensures tt.factory == TargetFactory ==> r == Ok(ext)
  {
    match tt.factory
    case FileFactory => Ok(Some(if ext.Some? then ext.value else ""))
    case ManFactory => if ext.None? then Err(ManWithoutExtension(name)) else Ok(ext)
    case TargetFactory => Ok(ext)
  }

  /** A file-like target created without an extension is treated as having none: file{foo} is file{foo.}. */
  lemma FileFactoryAlwaysSpecified(name: string, ext: Option<string>)
    ensures FactoryExtension(FileT, name, ext).Ok? && FactoryExtension(FileT, name, ext).value.Some?
    ensures FactoryExtension(Man1T, name, ext).Ok?
    ensures FactoryExtension(ManT, name, ext).Ok? <==> ext.Some?
  {
  }

  /** The buildfile extension: none for the name "buildfile", "build" otherwise. */
  function BuildfileExt(name: string): (e: string)
    ensures e == "" <==> name == "buildfile"
    ensures e != "" ==> e == "build"
  {
    if name == "buildfile" then "" else "build"
  }

  /**
   * The default extension a type derives for a target; `varExt` is the
   * value of the `extension` variable in scope, if set.
   */
  function TypeExtension(tt: TargetType, name: string, varExt: Option<string>): (r: Option<string>)
    requires !tt.extension.NoExtension?
    ensures tt.extension.ExtensionNull? <==> r.None?
    ensures tt.extension.ExtensionFix? ==> r == Some(tt.extension.fixed)
    ensures tt.extension.BuildfileExtension? ==> r == Some(BuildfileExt(name))
    ensures tt.extension.ExtensionVar? ==> r == Some(varExt.GetOr(tt.extension.default))
  {
    match tt.extension
    case ExtensionVar(d) => Some(varExt.GetOr(d))
    case BuildfileExtension => Some(BuildfileExt(name))
    case ExtensionNull => None
    case ExtensionFix(e) => Some(e)
  }

  // Printing target keys

  datatype TargetKey = TargetKey(ttype: TargetType, dir: Path, out: Path, name: string, ext: Option<string>)

  /**
   * The extension part of a printed key at extension verbosity `ev`: none
   * at 0; at 1 only a non-empty assigned one; at 2 and above always, with
   * '?' for an unassigned one. Types without an extension function print none.
   */
  function ExtensionText(usesExtension: bool, ext: Option<string>, ev: nat): (r: string)
    ensures !usesExtension || ev == 0 ==> r == ""
    ensures usesExtension && ev == 1 ==> r == (if ext.Some? && ext.value != "" then "." + ext.value else "")
    ensures usesExtension && ev >= 2 ==> r == "." + (if ext.Some? then ext.value else "?")
  {
    if usesExtension && ev > 0 && (ev > 1 || (ext.Some? && ext.value != "")) then
      "." + (if ext.Some? then ext.value else "?")
    else ""
  }

  /**
   * From verbosity 2 the printed extension tells the extension apart,
   * except that an unassigned one prints like the extension "?".
   */
  lemma ExtensionTextDistinguishes(e1: Option<string>, e2: Option<string>, ev: nat)
    requires ev >= 2 && ExtensionText(true, e1, ev) == ExtensionText(true, e2, ev)
    ensures e1 == e2 || e1.GetOr("?") == e2.GetOr("?") == "?"
  {
    var t1, t2 := ExtensionText(true, e1, ev), ExtensionText(true, e2, ev);
    assert t1[1..] == e1.GetOr("?") && t2[1..] == e2.GetOr("?");
  }

  /** Raising the verbosity never hides an extension that was printed. */
  lemma ExtensionTextMonotone(usesExtension: bool, ext: Option<string>, ev: nat, ev2: nat)
    requires ev <= ev2 && ExtensionText(usesExtension, ext, ev) != ""
    ensures ExtensionText(usesExtension, ext, ev2) == ExtensionText(usesExtension, ext, ev)
  {
  }

  /**
   * The printed form of a key: the directory (as rendered by `relDir` at
   * verbosity below 2), the type name, and in braces the name with its
   * extension (or the directory when the name is empty), then '@' and the
   * out directory (as rendered by `relOut`) when it is not empty.
   */
  function ToStream(k: TargetKey, ev: nat, verb: nat, relDir: string, relOut: string): (s: string)
    requires k.name != "" && k.ttype.extension.NoExtension? ==> k.ext.None?
    ensures k.name != "" ==> StartsWith(s, (if verb < 2 then relDir else ToString(k.dir)) + k.ttype.name + "{" + k.name)
    ensures k.name == "" ==> StartsWith(s, k.ttype.name + "{" + ToString(k.dir) + "}")
    ensures k.name != "" && IsEmpty(k.out) ==>
      EndsWith(s, "{" + k.name + ExtensionText(!k.ttype.extension.NoExtension?, k.ext, ev) + "}")
    ensures !IsEmpty(k.out) ==> EndsWith(s, "}@" + relOut)
  {
    var tail := if !IsEmpty(k.out) then "@" + relOut else "";
    if k.name != "" then
      NamedKeyText(if verb < 2 then relDir else ToString(k.dir), k.ttype.name, k.name,
        ExtensionText(!k.ttype.extension.NoExtension?, k.ext, ev), tail, relOut)
    else
      DirKeyText(k.ttype.name, ToString(k.dir), tail, relOut)
  }

  /** `lead type{name ext}tail`, the printed form of a named key. */
  function NamedKeyText(lead: string, tn: string, name: string, e: string, tail: string, relOut: string): (s: string)
    ensures StartsWith(s, lead + tn + "{" + name)
    ensures tail == "" ==> EndsWith(s, "{" + name + e + "}")
    ensures tail == "@" + relOut ==> EndsWith(s, "}@" + relOut)
  {
    var p := lead + tn + "{" + name;
    StartsWithConcat(p, e, "}");
    StartsWithExtend(p + e + "}", p, tail);
    EndsWithConcat5(lead + tn, "{", name, e, "}");
    EndsWithConcat(p + e, "}", tail);
    assert "}" + ("@" + relOut) == "}@" + relOut;
    p + e + "}" + tail
  }

  /** `type{dir}tail`, the printed form of a key without a name. */
  function DirKeyText(tn: string, dir: string, tail: string, relOut: string): (s: string)
    ensures StartsWith(s, tn + "{" + dir + "}")
    ensures tail == "@" + relOut ==> EndsWith(s, "}@" + relOut)
  {
    var q := tn + "{" + dir + "}";
    StartsWithAppend(q, tail);
    EndsWithConcat(tn + "{" + dir, "}", tail);
    assert "}" + ("@" + relOut) == "}@" + relOut;
    q + tail
  }

  /** The extension verbosity a type's printer uses at stream verbosity `verb`. */
  function PrintVerbosity(p: PrintFunction, verb: nat): (ev: nat)
    ensures p == Print0ExtVerb ==> (ev == 0 <==> verb < 2)
    ensures p == Print1ExtVerb ==> ev >= 1
    ensures verb >= 2 ==> ev == verb
    ensures p == DefaultPrint ==> ev == verb
    ensures p == Print0ExtVerb ==> ev == (if verb == 1 then 0 else verb)
    ensures p == Print1ExtVerb ==> ev == (if verb == 0 then 1 else verb)
  {
    match p
    case DefaultPrint => verb
    case Print0ExtVerb => if verb < 2 then 0 else verb
    case Print1ExtVerb => if verb < 1 then 1 else verb
  }

  /**
   * The key as `operator<<` prints it: `to_stream` at the extension
   * verbosity the type's printer picks.
   */
  function Print(k: TargetKey, verb: nat, relDir: string, relOut: string): (s: string)
    requires k.name != "" && k.ttype.extension.NoExtension? ==> k.ext.None?
    ensures k.name != "" && IsEmpty(k.out) ==>
      EndsWith(s, "{" + k.name + ExtensionText(!k.ttype.extension.NoExtension?, k.ext, PrintVerbosity(k.ttype.printer, verb)) + "}")
    ensures !IsEmpty(k.out) ==> EndsWith(s, "}@" + relOut)
  {
    ToStream(k, PrintVerbosity(k.ttype.printer, verb), verb, relDir, relOut)
  }

  /**
   * For a named key without an out directory: a non-empty extension shows
   * whenever the printer's verbosity is at least 1, none shows for a type
   * without extensions or at printer verbosity 0, and an unassigned one
   * shows as ".?" from verbosity 2.
   */
  lemma PrintShowsExtension(k: TargetKey, verb: nat, relDir: string, relOut: string)
    requires k.name != "" && k.ttype.extension.NoExtension? ==> k.ext.None?
    requires k.name != "" && IsEmpty(k.out)
    ensures (!k.ttype.extension.NoExtension? && k.ext.Some? && k.ext.value != "" &&
             (k.ttype.printer == Print1ExtVerb || (k.ttype.printer == DefaultPrint && verb >= 1) || verb >= 2)) ==>
      EndsWith(Print(k, verb, relDir, relOut), "{" + k.name + "." + k.ext.value + "}")
    ensures (k.ttype.extension.NoExtension? || (k.ttype.printer == Print0ExtVerb && verb < 2) ||
             (k.ttype.printer == DefaultPrint && verb == 0)) ==>
      EndsWith(Print(k, verb, relDir, relOut), "{" + k.name + "}")
    ensures !k.ttype.extension.NoExtension? && k.ext.None? && verb >= 2 ==>
      EndsWith(Print(k, verb, relDir, relOut), "{" + k.name + ".?}")
  {
    var ev := PrintVerbosity(k.ttype.printer, verb);
    var e := ExtensionText(!k.ttype.extension.NoExtension?, k.ext, ev);
    if e == "" {
      assert "{" + k.name + e + "}" == "{" + k.name + "}";
    } else if k.ext.Some? {
      assert e == "." + k.ext.value;
      assert "{" + k.name + e + "}" == "{" + k.name + "." + k.ext.value + "}";
    } else {
      assert e == ".?";
      assert "{" + k.name + e + "}" == "{" + k.name + ".?}";
    }
  }

  /** file{} and man{} show a non-empty extension at every verbosity; man1{} only from verbosity 2. */
  lemma PrintedExtensions(ext: string, verb: nat)
    requires ext != ""
    ensures ExtensionText(true, Some(ext), PrintVerbosity(FileT.printer, verb)) == "." + ext
    ensures ExtensionText(true, Some(ext), PrintVerbosity(ManT.printer, verb)) == "." + ext
    ensures verb < 2 ==> ExtensionText(true, Some(ext), PrintVerbosity(Man1T.printer, verb)) == ""
  {
  }

  // Path derivation

  /** The derived file name: prefix, name, suffix and, when not empty, '.' and the extension. */
  function DerivedName(np: string, name: string, ns: string, ext: string): (n: string)
    ensures ext != "" ==> |n| > |ext| && n[|n| - |ext| - 1] == '.' && n[|n| - |ext|..] == ext
    ensures ext == "" ==> n == np + name + ns
    ensures ext != "" ==> n == np + name + ns + "." + ext
  {
    np + name + ns + (if ext != "" then "." + ext else "")
  }

  /** The derived name determines the extension: different extensions give different names. */
  lemma DerivedNameDeterminesExtension(np: string, name: string, ns: string, e1: string, e2: string)
    requires DerivedName(np, name, ns, e1) == DerivedName(np, name, ns, e2)
    ensures e1 == e2
  {
    var b := np + name + ns;
    var n := DerivedName(np, name, ns, e1);
    if e1 != "" && e2 != "" {
      assert |e1| == |e2|;
      assert e1 == n[|n| - |e1|..] == e2;
    }
  }

  /** The extension a target ends up with: its own, else its type's, else the caller's default. */
  function ResolvedExtension(ext: Option<string>, tt: TargetType, typeExt: Option<string>, de: Option<string>): (r: Option<string>)
    ensures ext.Some? ==> r == ext
    ensures ext.None? && !tt.extension.NoExtension? && typeExt.Some? ==> r == typeExt
    ensures r.None? <==> ext.None? && (tt.extension.NoExtension? || typeExt.None?) && de.None?
  {
    if ext.Some? then ext
    else if !tt.extension.NoExtension? && typeExt.Some? then typeExt
    else de
  }

  // Targets

  /** A target: its identity (type, directories, name) and its mutable state. */
  class Target {
    const ttype: TargetType
    const dir: Path
    const out: Path
    const name: string
    var ext: Option<string>
    var path: Path
    var action: int
    var recipe: Recipe
    var rawState: TargetState
    var dependents: nat

    constructor (tt: TargetType, d: Path, o: Path, n: string, e: Option<string>)
      ensures ttype == tt && dir == d && out == o && name == n && ext == e
      ensures IsEmpty(path) && recipe == EmptyRecipe && rawState == Unknown && dependents == 0
    {
      ttype, dir, out, name, ext := tt, d, o, n, e;
      path := EmptyPath;
      action := 0;
      recipe := EmptyRecipe;
      rawState := Unknown;
      dependents := 0;
    }

    function Key(): TargetSetKey
      reads this
    {
      TargetSetKey(ttype, dir, out, name)
    }

    function Slot(): RecipeSlot
      reads this
    {
      RecipeSlot(action, recipe, rawState, dependents)
    }

    /** Sets the recipe for an action (see SetRecipeOf). */
    method SetRecipe(a: int, r: Recipe, later: bool)
      requires CanSetRecipe(Slot(), a, later)
      modifies this`action, this`recipe, this`rawState, this`dependents
      ensures Slot() == SetRecipeOf(old(Slot()), a, r, later)
    {
      var override := a == action && recipe != EmptyRecipe;
      action := a;
      recipe := r;
      rawState := Unknown;
      if r.FunctionRecipe? && r.f == NoopAction {
        rawState := Unchanged;
      }
      if !override {
        dependents := 0;
      }
    }

    /**
     * Derives the target's path from its directory, name, optional prefix
     * and suffix and extension (`typeExt` is what the type's extension
     * function yields), assigning the extension if unassigned. Sets the path
     * when unset and fails when it differs from the one already assigned.
     */
    method DerivePath(de: Option<string>, np: Option<string>, ns: Option<string>, typeExt: Option<string>)
      returns (o: Outcome<Diag>)
      requires de.Some? ==> !ttype.extension.NoExtension?
      modifies this`ext, this`path
      ensures ext == ResolvedExtension(old(ext), ttype, typeExt, de) || (o.Fail? && ext == old(ext) && path == old(path))
      ensures o.Pass? <==>
        ResolvedExtension(old(ext), ttype, typeExt, de).Some? &&
        var p := DerivedPath(dir, np, name, ns, ResolvedExtension(old(ext), ttype, typeExt, de).value);
        IsEmpty(old(path)) || old(path) == p
      ensures o.Pass? ==>
        path == DerivedPath(dir, np, name, ns, ext.value)
      ensures !o.Pass? ==> path == old(path)
    {
      if ext.None? {
        if !ttype.extension.NoExtension? {
          ext := typeExt;
        }
        if ext.None? {
          if de.Some? {
            ext := de;
          } else {
            return Fail(NoDefaultExtension(name));
          }
        }
      }
      var p := DerivedPath(dir, np, name, ns, ext.value);
      if IsEmpty(path) {
        path := p;
      } else if p != path {
        return Fail(PathMismatch(path, p));
      }
      o := Pass;
    }
  }

  /** The path of a derived name inside the target's directory. */
  function DerivedPath(dir: Path, np: Option<string>, name: string, ns: Option<string>, ext: string): (p: Path)
    ensures p.absolute == dir.absolute && |p.comps| == |dir.comps| + 1 && !p.dir
    ensures p.comps[|dir.comps|] == DerivedName(np.GetOr(""), name, ns.GetOr(""), ext)
  {
    Path(dir.absolute, dir.comps + [DerivedName(np.GetOr(""), name, ns.GetOr(""), ext)], false)
  }

  // The target set

  /** How targets are identified in the set; the extension is not part of it. */
  datatype TargetSetKey = TargetSetKey(ttype: TargetType, dir: Path, out: Path, name: string)

  class TargetSet {
    var targets: map<TargetSetKey, Target>

    /** Every target is filed under its own key. */
    predicate Valid()
      reads this, targets.Values
    {
      forall k :: k in targets ==> targets[k].Key() == k
    }

    constructor ()
      ensures targets == map[] && Valid()
    {
      targets := map[];
    }

    /**
     * Finds the target with the key; when the key carries an extension that
     * differs from the target's, the target takes it.
     */
    method Find(k: TargetSetKey, ext: Option<string>) returns (t: Target?)
      modifies (if k in targets then {targets[k]} else {})`ext
      ensures t != null <==> k in targets
      ensures t != null ==> t == targets[k] && t.ext == (if ext.Some? then ext else old(t.ext))
      ensures t != null ==> t.path == old(t.path) && t.Slot() == old(t.Slot())
      ensures targets == old(targets)
    {
      if k !in targets {
        return null;
      }
      t := targets[k];
      if t.ext != ext && ext.Some? {
        t.ext := ext;
      }
    }

    /**
     * Returns the target with the key, creating it with the type's factory
     * when there is none; `inserted` tells which. A man{} target without an
     * extension cannot be created.
     */
    method Insert(tt: TargetType, dir: Path, out: Path, name: string, ext: Option<string>)
      returns (t: Target?, inserted: bool)
      requires Valid() && tt.factory != NoFactory
      modifies this`targets, targets.Values`ext
      ensures Valid()
      ensures var k := TargetSetKey(tt, dir, out, name);
        && (k in old(targets) ==>
              !inserted && t == old(targets)[k] && targets == old(targets)
              && t.ext == (if ext.Some? then ext else old(t.ext)))
        && (k !in old(targets) && FactoryExtension(tt, name, ext).Ok? ==>
              inserted && t != null && fresh(t) && targets == old(targets)[k := t]
              && t.ext == FactoryExtension(tt, name, ext).value && t.Key() == k)
        && (k !in old(targets) && FactoryExtension(tt, name, ext).Err? ==>
              !inserted && t == null && targets == old(targets))
      ensures forall u :: u in old(targets.Values) && u != t ==> u.ext == old(u.ext)
      ensures forall u :: u in old(targets.Values) ==> u.path == old(u.path) && u.Slot() == old(u.Slot())
    {
      var k := TargetSetKey(tt, dir, out, name);
      t := Find(k, ext);
      inserted := t == null;
      if inserted {
        var e := FactoryExtension(tt, name, ext);
        if e.Err? {
          return null, false;
        }
        t := new Target(tt, dir, out, name, e.value);
        targets := targets[k := t];
      }
    }
  }
}
