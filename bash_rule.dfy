/**
 * The bash module's rules (libbuild2/bash/rule.cxx): matching a script
 * target generated from an .in file, the for-install handshake between the
 * in rule and the install rule, the search for import-installed modules in
 * PATH, and the substitution of `@import <path>@` directives with `source`
 * lines.
 */
module BashRule {
  import opened Wrappers
  import opened Strings
  import opened Paths

  datatype Diag =
    | UpdatedNotForInstall
    | InvalidImportPath(name: string)
    | OutOfProject(target: Path)
    | UnresolvedImport(path: Path)
    | NotUnderRoot(dir: Path)

  // Matching

  datatype IncludeType = Excluded | Adhoc | Normal

  /** A prerequisite as the rule sees it: its inclusion and whether it is an in{} or bash{} target. */
  datatype Prerequisite = Prerequisite(inclusion: IncludeType, isIn: bool, isBash: bool)

  predicate FoundIn(ps: seq<Prerequisite>)
  {
    exists i :: 0 <= i < |ps| && ps[i].inclusion == Normal && ps[i].isIn
  }

  predicate FoundModule(targetIsBash: bool, ps: seq<Prerequisite>)
  {
    targetIsBash || exists i :: 0 <= i < |ps| && ps[i].inclusion == Normal && ps[i].isBash
  }

  /**
   * The rule matches when a normally included in{} prerequisite exists and
   * the target is bash{} or has a normally included bash{} prerequisite.
   */
  method Match(targetIsBash: bool, ps: seq<Prerequisite>) returns (r: bool)
    ensures r <==> FoundIn(ps) && FoundModule(targetIsBash, ps)
  {
    var fi := false;
    var fm := targetIsBash;
    var i := 0;
    while i < |ps|
      invariant 0 <= i <= |ps|
      invariant fi <==> exists j :: 0 <= j < i && ps[j].inclusion == Normal && ps[j].isIn
      invariant fm <==> targetIsBash || exists j :: 0 <= j < i && ps[j].inclusion == Normal && ps[j].isBash
    {
      if ps[i].inclusion == Normal {
        fi := fi || ps[i].isIn;
        fm := fm || ps[i].isBash;
      }
      i := i + 1;
    }
    return fi && fm;
  }

  // The for-install handshake

  /** The in rule's update: records a plain update unless the install rule already signalled. */
  function AfterPerformUpdate(forInstall: Option<bool>): (r: Option<bool>)
    ensures r.Some?
    ensures forInstall.Some? ==> r == forInstall
  {
    if forInstall.None? then Some(false) else forInstall
  }

  /**
   * The install rule's apply: for update, signals install, and fails when
   * the target was already updated but not for install.
   */
  function AfterInstallApply(forInstall: Option<bool>, isUpdate: bool): (r: Result<Option<bool>, Diag>)
    ensures r.Err? <==> isUpdate && forInstall == Some(false)
    ensures r.Ok? && isUpdate ==> r.value == Some(true)
    ensures r.Ok? && !isUpdate ==> r.value == forInstall
  {
    if !isUpdate then Ok(forInstall)
    else if forInstall == Some(false) then Err(UpdatedNotForInstall)
    else Ok(Some(true))
  }

  /**
   * The two orders of the handshake: install first makes the update one
   * for install; update first makes a later install apply fail.
   */
  lemma HandshakeOrders()
    ensures AfterInstallApply(None, true).Ok?
    ensures AfterPerformUpdate(AfterInstallApply(None, true).value) == Some(true)
    ensures AfterInstallApply(AfterPerformUpdate(None), true).Err?
  {
  }

  /** Neither side ever turns an established value into the other one. */
  lemma HandshakeStable(fi: Option<bool>, isUpdate: bool)
    requires fi.Some?
    ensures AfterPerformUpdate(fi) == fi
    ensures AfterInstallApply(fi, isUpdate).Ok? ==> AfterInstallApply(fi, isUpdate).value == fi
  {
    if !isUpdate {
      assert AfterInstallApply(fi, isUpdate) == Ok(fi);
    } else if fi.value {
      assert AfterInstallApply(fi, isUpdate) == Ok(Some(true));
    } else {
      assert AfterInstallApply(fi, isUpdate).Err?;
    }
  }

  /** The per-target match data shared by the two rules. */
  class MatchData {
    var forInstall: Option<bool>

    /** The in rule's apply starts with fresh data. */
    constructor ()
      ensures forInstall.None?
    {
      forInstall := None;
    }

    method PerformUpdate()
      modifies this
      ensures forInstall == AfterPerformUpdate(old(forInstall))
    {
      if forInstall.None? {
        forInstall := Some(false);
      }
    }

    method InstallApply(isUpdate: bool) returns (o: Outcome<Diag>)
      modifies this
      ensures o.Pass? <==> AfterInstallApply(old(forInstall), isUpdate).Ok?
      ensures o.Pass? ==> forInstall == AfterInstallApply(old(forInstall), isUpdate).value
      ensures o.Fail? ==> forInstall == old(forInstall)
    {
      if isUpdate {
        if forInstall.Some? {
          if !forInstall.value {
            return Fail(UpdatedNotForInstall);
          }
        } else {
          forInstall := Some(true);
        }
      }
      return Pass;
    }
  }

  // Searching PATH for import-installed modules

  /** The entries of a PATH value: the pieces between ':' separators, empty ones skipped. */
  method SearchPathEntries(path: string) returns (dirs: seq<string>)
    ensures dirs == NonEmptyPieces(path, ':')
  {
    dirs := [];
    var b := 0;
    var e := NextSeparator(path, b);
    while e < |path|
      invariant b <= e <= |path| && ':' !in path[b..e] && (e < |path| ==> path[e] == ':')
      invariant ScanState(path, dirs, b)
      decreases |path| - b
    {
      ScanAdvance(path, dirs, b, e);
      if b < e {
        dirs := dirs + [path[b..e]];
      }
      b := e + 1;
      e := NextSeparator(path, b);
    }
    ScanFinish(path, dirs, b, e);
    if b < e {
      dirs := dirs + [path[b..e]];
    }
  }

  /** The entries found so far followed by those of the rest of PATH from `b` are all of them. */
  predicate ScanState(path: string, dirs: seq<string>, b: nat)
    requires b <= |path|
  {
    NonEmptyPieces(path, ':') == dirs + DropEmpty(Split(path[b..], ':'))
  }

  lemma ScanAdvance(path: string, dirs: seq<string>, b: nat, e: nat)
    requires b <= e < |path| && ':' !in path[b..e] && path[e] == ':'
    requires ScanState(path, dirs, b)
    ensures ScanState(path, dirs + (if b < e then [path[b..e]] else []), e + 1)
  {
    PathStep(path, b, e);
    var p := if b < e then [path[b..e]] else [];
    assert p == (if path[b..e] == [] then [] else [path[b..e]]);
    var rest := DropEmpty(Split(path[e + 1..], ':'));
    assert DropEmpty(Split(path[b..], ':')) == p + rest;
    AppendAssoc(dirs, p, rest);
  }

  lemma AppendAssoc(a: seq<string>, b: seq<string>, c: seq<string>)
    ensures a + (b + c) == (a + b) + c
  {
  }

  lemma ScanFinish(path: string, dirs: seq<string>, b: nat, e: nat)
    requires b <= e == |path| && ':' !in path[b..e]
    requires ScanState(path, dirs, b)
    ensures dirs + (if b < e then [path[b..e]] else []) == NonEmptyPieces(path, ':')
  {
    PathStep(path, b, e);
  }

  /** `strchr` from `b`: the position of the next ':' at or after `b`, or the end. */
  method NextSeparator(path: string, b: nat) returns (e: nat)
    requires b <= |path|
    ensures b <= e <= |path| && ':' !in path[b..e] && (e < |path| ==> path[e] == ':')
  {
    e := b;
    while e < |path| && path[e] != ':'
      invariant b <= e <= |path|
      invariant ':' !in path[b..e]
    {
      assert path[b..e + 1] == path[b..e] + [path[e]];
      e := e + 1;
    }
  }

  /** One step of the PATH scan: the piece up to the next separator (or the end), then the rest. */
  lemma PathStep(path: string, b: nat, e: nat)
    requires b <= e <= |path| && ':' !in path[b..e] && (e < |path| ==> path[e] == ':')
    ensures DropEmpty(Split(path[b..], ':')) ==
      (if path[b..e] == [] then [] else [path[b..e]]) +
      (if e < |path| then DropEmpty(Split(path[e + 1..], ':')) else [])
  {
    var piece := path[b..e];
    if e < |path| {
      assert path[b..][e - b] == ':' && path[b..][..e - b] == piece;
      SplitFirst(path[b..], ':', e - b);
      assert path[b..][e - b + 1..] == path[e + 1..];
      DropEmptyCons(piece, Split(path[e + 1..], ':'));
    } else {
      assert path[b..] == piece;
      SplitNoSep(piece, ':');
      DropEmptyCons(piece, []);
      assert DropEmpty([]) == [];
    }
  }

  /** Splitting at the first separator. */
  lemma {:induction false} SplitFirst(t: string, sep: char, e: nat)
    requires e < |t| && t[e] == sep && sep !in t[..e]
    ensures Split(t, sep) == [t[..e]] + Split(t[e + 1..], sep)
    decreases e
  {
    if e > 0 {
      assert t[1..][e - 1] == sep;
      var u := t[1..][..e - 1];
      assert forall k :: 0 <= k < |u| ==> u[k] == t[..e][k + 1];
      assert sep !in u;
      SplitFirst(t[1..], sep, e - 1);
      assert t[0] == t[..e][0];
      assert [t[0]] + t[1..][..e - 1] == t[..e];
      assert t[1..][e..] == t[e + 1..];
    }
  }

  lemma DropEmptyCons(x: string, rest: seq<string>)
    ensures DropEmpty([x] + rest) == (if x == [] then [] else [x]) + DropEmpty(rest)
  {
    assert ([x] + rest)[1..] == rest;
  }

  /**
   * The path a bash{} import is looked up under: the project's base
   * directory name, the prerequisite's directory and name, and the
   * extension (bash unless given; none when given empty).
   */
  function ImportSearchPath(projectBase: string, dir: Path, name: string, ext: Option<string>): (ip: Path)
    requires !dir.absolute
    ensures !ip.absolute
    ensures |ip.comps| >= 1 && ip.comps[0] == projectBase
    ensures ip.comps[..|ip.comps| - 1] == [projectBase] + dir.comps
    ensures ext.None? ==> ip.comps[|ip.comps| - 1] == name + ".bash"
    ensures ext == Some("") ==> ip.comps[|ip.comps| - 1] == name
    ensures ext.Some? && ext.value != "" ==> ip.comps[|ip.comps| - 1] == name + "." + ext.value
  {
    var e := ext.GetOr("bash");
    var leaf := if e != "" then name + "." + e else name;
    Path(false, [projectBase] + dir.comps + [leaf], false)
  }

  /** A PATH entry with the import path appended, normalized; None when invalid. */
  function Candidate(entry: string, ip: Path): (r: Option<Path>)
    requires !ip.absolute
    ensures r.Some? ==> IsNormal(r.value)
    ensures r == Normalize(Combine(Parse(entry), ip))
    ensures !Parse(entry).absolute ==> r.Some?
  {
    var d := Parse(entry);
    NormalizeIsNormal(Combine(d, ip));
    Normalize(Combine(d, ip))
  }

  // Substitution

  datatype Substitution = ImportDirective(path: string) | Ordinary(name: string)

  /**
   * A substitution name is an import directive when it is "import" followed
   * by a space or a tab; the rest, trimmed, is the import path.
   */
  function Route(n: string): (r: Substitution)
    ensures r.ImportDirective? <==> |n| > 6 && n[..6] == "import" && (n[6] == ' ' || n[6] == '\t')
    ensures r.ImportDirective? ==> r.path == Trim(n[7..])
    ensures r.Ordinary? ==> r.name == n
  {
    if |n| > 6 && n[..6] == "import" && (n[6] == ' ' || n[6] == '\t') then ImportDirective(Trim(n[7..]))
    else Ordinary(n)
  }

  lemma RouteExamples(x: string)
    ensures Route("import " + x) == ImportDirective(Trim(x))
    ensures Route("import\t" + x) == ImportDirective(Trim(x))
    ensures Route("import").Ordinary?
    ensures Route("imports " + x).Ordinary?
  {
    assert ("import " + x)[..6] == "import" && ("import " + x)[7..] == x;
    assert ("import\t" + x)[..6] == "import" && ("import\t" + x)[7..] == x;
    assert ("imports " + x)[6] == 's';
  }

  /**
   * The import path of a directive: a non-empty relative path, with .bash
   * added when it has no extension, normalized.
   */
  function ImportPath(n: string): (r: Result<Path, Diag>)
    ensures r.Err? <==> IsEmpty(Parse(n)) || Parse(n).absolute
    ensures r.Ok? ==> !r.value.absolute && IsNormal(r.value)
  {
    var p := Parse(n);
    if IsEmpty(p) || p.absolute then Err(InvalidImportPath(n))
    else
      var q := if HasExtension(p) then p else AppendToLeaf(p, ".bash");
      NormalizeIsNormal(q);
      Ok(Normalize(q).value)
  }

  /**
   * For an import path that is already normal, the result is that path,
   * with ".bash" appended to its leaf when the leaf has no extension.
   */
  lemma ImportPathExtension(n: string)
    requires !IsEmpty(Parse(n)) && !Parse(n).absolute && IsNormal(Parse(n))
    ensures HasExtension(Parse(n)) ==> ImportPath(n) == Ok(Parse(n))
    ensures !HasExtension(Parse(n)) ==> ImportPath(n) == Ok(AppendToLeaf(Parse(n), ".bash"))
  {
    var p := Parse(n);
    NormalizeOfNormal(p);
    assert Normalize(p) == Some(p);
    if !HasExtension(p) {
      var q := AppendToLeaf(p, ".bash");
      var last := |p.comps| - 1;
      assert q.comps == p.comps[..last] + [p.comps[last] + ".bash"];
      assert IsNormal(q) by {
        forall i | 0 <= i < |q.comps|
          ensures q.comps[i] != "." && (q.comps[i] == ".." ==> !q.absolute && forall j :: 0 <= j < i ==> q.comps[j] == "..")
        {
          if i < last {
            assert q.comps[i] == p.comps[i];
            assert forall j :: 0 <= j < i ==> q.comps[j] == p.comps[j];
          } else {
            assert |q.comps[i]| >= 5;
          }
        }
      }
      NormalizeOfNormal(q);
      assert Normalize(q) == Some(q);
    }
  }

  /** A plain module name gets the .bash extension; one with an extension keeps it. */
  lemma ImportPathPlainName(n: string)
    requires n != [] && '/' !in n && n != "." && n != ".."
    ensures !HasExtension(Parse(n)) ==> ImportPath(n) == Ok(Path(false, [n + ".bash"], false))
    ensures HasExtension(Parse(n)) ==> ImportPath(n) == Ok(Path(false, [n], false))
  {
    SplitNoSep(n, '/');
    assert Split(n, '/') == [n];
    assert DropEmpty([n]) == [n] by { DropEmptyCons(n, []); }
    var p := Parse(n);
    assert p == Path(false, [n], false);
    assert IsNormal(p);
    NormalizeOfNormal(p);
    var q := AppendToLeaf(p, ".bash");
    assert q == Path(false, [n + ".bash"], false);
    assert n + ".bash" != "." && n + ".bash" != ".." by {
      assert |n + ".bash"| > 2;
    }
    assert IsNormal(q);
    NormalizeOfNormal(q);
  }

  /** A prerequisite target as the import resolution sees it. */
  datatype PrerequisiteTarget = PrerequisiteTarget(
    present: bool,
    adhoc: bool,
    isBash: bool,
    path: Path,
    data: nat,
    root: Option<(Path, Path)>)   // the (src, out) directories of the target's project, if any

  /** The outcome of looking at one prerequisite: skip it, take it, or fail. */
  datatype Verdict = Skip | Take | Reject(d: Diag)

  /** A present, non-ad hoc bash{} prerequisite whose path ends with the import path. */
  predicate Candidates(ip: Path, pt: PrerequisiteTarget)
  {
    pt.present && !pt.adhoc && pt.isBash && Sup(pt.path, ip)
  }

  /** The root the match must start from: src when the path is inside it, else out. */
  function MatchRoot(pt: PrerequisiteTarget): (d: Path)
    requires pt.root.Some?
    ensures Sub(pt.path, pt.root.value.0) ==> d == pt.root.value.0
    ensures !Sub(pt.path, pt.root.value.0) ==> d == pt.root.value.1
  {
    if Sub(pt.path, pt.root.value.0) then pt.root.value.0 else pt.root.value.1
  }

  /** The last `data` characters of the printed path are the printed import path. */
  predicate TailMatches(ip: Path, pt: PrerequisiteTarget)
  {
    var ps := ToString(pt.path);
    pt.data <= |ps| && ps[|ps| - pt.data..] == ToString(ip)
  }

  /**
   * A bash{} prerequisite matches the import path when it ends with it and
   * the match starts at the installation directory (import-installed,
   * `data` being the length of the import path) or at its project's src or
   * out root. A bash{} prerequisite from outside any project that was not
   * import-installed is an error.
   */
  function Consider(ip: Path, pt: PrerequisiteTarget): (v: Verdict)
    ensures v.Take? ==> Sup(pt.path, ip)
    ensures v.Take? <==>
      (Candidates(ip, pt) &&
       if pt.data > 0 then TailMatches(ip, pt) else pt.root.Some? && Leaf(pt.path, MatchRoot(pt)) == Some(ip))
    ensures v.Reject? <==> Candidates(ip, pt) && pt.data == 0 && pt.root.None?
    ensures v.Reject? ==> v.d == OutOfProject(pt.path)
  {
    if !pt.present || pt.adhoc || !pt.isBash || !Sup(pt.path, ip) then Skip
    else if pt.data > 0 then
      var ps := ToString(pt.path);
      var ips := ToString(ip);
      if pt.data <= |ps| && ps[|ps| - pt.data..] == ips then Take else Skip
    else if pt.root.Some? then
      var d := if Sub(pt.path, pt.root.value.0) then pt.root.value.0 else pt.root.value.1;
      if Leaf(pt.path, d) == Some(ip) then Take else Skip
    else Reject(OutOfProject(pt.path))
  }

  /**
   * A prerequisite from a project matches only when it is the import path
   * placed right at its project root: the same tail found deeper below
   * the root does not match.
   */
  lemma ConsiderFromRoot(ip: Path, pt: PrerequisiteTarget)
    requires Candidates(ip, pt) && pt.data == 0 && pt.root.Some?
    ensures Consider(ip, pt).Take? <==>
      Sub(pt.path, MatchRoot(pt)) && |pt.path.comps| == |MatchRoot(pt).comps| + |ip.comps| && !ip.absolute && pt.path.dir == ip.dir
    ensures Consider(ip, pt).Take? ==> pt.path.comps == MatchRoot(pt).comps + ip.comps
  {
    var d := MatchRoot(pt);
    if Sub(pt.path, d) && |pt.path.comps| == |d.comps| + |ip.comps| && pt.path.dir == ip.dir {
      var l := Leaf(pt.path, d).value;
      assert l.comps == pt.path.comps[|d.comps|..];
      assert pt.path.comps[|pt.path.comps| - |ip.comps|..] == ip.comps;
      assert l == ip;
    }
  }

  /** The first prerequisite that matches the import path. */
  function ResolveImportOf(ip: Path, pts: seq<PrerequisiteTarget>): (r: Result<Path, Diag>)
    ensures r.Ok? ==> Sup(r.value, ip) && exists i :: 0 <= i < |pts| && pts[i].path == r.value && Consider(ip, pts[i]).Take?
    decreases |pts|
  {
    if pts == [] then Err(UnresolvedImport(ip))
    else match Consider(ip, pts[0])
      case Take => Ok(pts[0].path)
      case Reject(d) => Err(d)
      case Skip =>
        var r := ResolveImportOf(ip, pts[1..]);
        if r.Ok? then
          var i :| 0 <= i < |pts[1..]| && pts[1..][i].path == r.value && Consider(ip, pts[1..][i]).Take?;
          assert pts[i + 1] == pts[1..][i];
          r
        else r
  }

  /** Earlier prerequisites that are skipped do not affect the resolution. */
  lemma {:induction false} ResolveImportFirst(ip: Path, pts: seq<PrerequisiteTarget>, i: nat)
    requires i < |pts| && Consider(ip, pts[i]).Take?
    requires forall j :: 0 <= j < i ==> Consider(ip, pts[j]).Skip?
    ensures ResolveImportOf(ip, pts) == Ok(pts[i].path)
    decreases i
  {
    if i > 0 {
      assert forall j :: 0 <= j < i - 1 ==> pts[1..][j] == pts[j + 1];
      ResolveImportFirst(ip, pts[1..], i - 1);
    }
  }

  method ResolveImport(ip: Path, pts: seq<PrerequisiteTarget>) returns (r: Result<Path, Diag>)
    ensures r == ResolveImportOf(ip, pts)
  {
    var i := 0;
    while i < |pts|
      invariant 0 <= i <= |pts|
      invariant ResolveImportOf(ip, pts) == ResolveImportOf(ip, pts[i..])
    {
      assert pts[i..][1..] == pts[i + 1..];
      var v := Consider(ip, pts[i]);
      if v.Take? {
        return Ok(pts[i].path);
      } else if v.Reject? {
        return Err(v.d);
      }
      i := i + 1;
    }
    return Err(UnresolvedImport(ip));
  }

  /** One "../" per directory component, built by appending. */
  method Offset(d: Path) returns (o: string)
    ensures o == Repeat("../", |d.comps|)
  {
    o := "";
    var i := 0;
    while i < |d.comps|
      invariant 0 <= i <= |d.comps|
      invariant o == Repeat("../", i)
    {
      o := o + "../";
      i := i + 1;
    }
  }

  const ExeSourcePrefix := "source \"$(dirname \"$(readlink -f \"${BASH_SOURCE[0]}\")\")/"
  const ModuleSourcePrefix := "source \"$(dirname \"${BASH_SOURCE[0]}\")/"

  /** A `source` line: the prefix, the climb to the install directory, the import path, a closing quote. */
  function SourceLine(prefix: string, up: string, ip: string): (r: string)
    ensures EndsWith(r, ip + "\"")
  {
    EndsWithConcat(prefix + up, ip, "\"");
    prefix + up + ip + "\""
  }

  /**
   * The replacement of an import directive. Not installing: source the
   * resolved module. Installing: source it relative to the script's real
   * directory (executables), or relative to the importer's directory,
   * climbing one level per component of the target directory below the
   * project's out root (modules).
   */
  function SubstituteImportOf(
    n: string, pts: seq<PrerequisiteTarget>, forInstall: bool, isExe: bool, tdir: Path, rootOut: Path)
    : (r: Result<string, Diag>)
    ensures r.Ok? ==> ImportPath(n).Ok? && ResolveImportOf(ImportPath(n).value, pts).Ok?
    ensures r.Ok? && !forInstall ==> r.value == "source " + ToString(ResolveImportOf(ImportPath(n).value, pts).value)
    ensures r.Ok? && forInstall && isExe ==> r.value == SourceLine(ExeSourcePrefix, "", ToString(ImportPath(n).value))
    ensures r.Ok? && forInstall && !isExe ==>
      (Sub(tdir, rootOut) &&
       r.value == SourceLine(ModuleSourcePrefix, Repeat("../", |tdir.comps| - |rootOut.comps|), ToString(ImportPath(n).value)))
  {
    match ImportPath(n)
    case Err(e) => Err(e)
    case Ok(ip) =>
      match ResolveImportOf(ip, pts)
      case Err(e) => Err(e)
      case Ok(ap) =>
        if !forInstall then Ok("source " + ToString(ap))
        else if isExe then Ok(SourceLine(ExeSourcePrefix, "", ToString(ip)))
        else match Leaf(tdir, rootOut)
          case None => Err(NotUnderRoot(tdir))
          case Some(d) =>
            assert |rootOut.comps + d.comps| == |tdir.comps|;
            Ok(SourceLine(ModuleSourcePrefix, Repeat("../", |d.comps|), ToString(ip)))
  }

  method SubstituteImport(
    n: string, pts: seq<PrerequisiteTarget>, forInstall: Option<bool>, isExe: bool, tdir: Path, rootOut: Path)
    returns (r: Result<string, Diag>)
    requires forInstall.Some?
    ensures r == SubstituteImportOf(n, pts, forInstall.value, isExe, tdir, rootOut)
  {
    var ip := ImportPath(n);
    if ip.Err? {
      return Err(ip.error);
    }
    var ap := ResolveImport(ip.value, pts);
    if ap.Err? {
      return Err(ap.error);
    }
    if !forInstall.value {
      return Ok("source " + ToString(ap.value));
    }
    if isExe {
      return Ok(SourceLine(ExeSourcePrefix, "", ToString(ip.value)));
    }
    var d := Leaf(tdir, rootOut);
    if d.None? {
      return Err(NotUnderRoot(tdir));
    }
    var o := Offset(d.value);
    return Ok(SourceLine(ModuleSourcePrefix, o, ToString(ip.value)));
  }

  /**
   * The substitution fails exactly when the import path is invalid, does
   * not resolve, or (for an installed module) the target directory is not
   * below the out root.
   */
  lemma SubstituteImportSucceeds(
    n: string, pts: seq<PrerequisiteTarget>, forInstall: bool, isExe: bool, tdir: Path, rootOut: Path)
    ensures SubstituteImportOf(n, pts, forInstall, isExe, tdir, rootOut).Ok? <==>
      (ImportPath(n).Ok? && ResolveImportOf(ImportPath(n).value, pts).Ok? && (forInstall && !isExe ==> Sub(tdir, rootOut)))
  {
  }

  /** When not installing, a resolved import is sourced by the prerequisite's own path. */
  lemma NotInstallingSourcesPrerequisite(n: string, pts: seq<PrerequisiteTarget>, isExe: bool, tdir: Path, rootOut: Path)
    requires SubstituteImportOf(n, pts, false, isExe, tdir, rootOut).Ok?
    ensures exists i :: (0 <= i < |pts| && pts[i].isBash
      && SubstituteImportOf(n, pts, false, isExe, tdir, rootOut).value == "source " + ToString(pts[i].path))
  {
    var ip := ImportPath(n).value;
    var i :| 0 <= i < |pts| && pts[i].path == ResolveImportOf(ip, pts).value && Consider(ip, pts[i]).Take?;
  }

  /**
   * An installed module's `source` line climbs three characters ("../")
   * per component of its directory below the out root, and ends with the
   * import path.
   */
  lemma InstalledModuleOffset(n: string, pts: seq<PrerequisiteTarget>, tdir: Path, rootOut: Path)
    requires SubstituteImportOf(n, pts, true, false, tdir, rootOut).Ok?
    ensures Leaf(tdir, rootOut).Some?
    ensures var line := SubstituteImportOf(n, pts, true, false, tdir, rootOut).value;
      var k := |Leaf(tdir, rootOut).value.comps|;
      |line| == |ModuleSourcePrefix| + 3 * k + |ToString(ImportPath(n).value)| + 1 &&
      EndsWith(line, ToString(ImportPath(n).value) + "\"")
  {
    var d := Leaf(tdir, rootOut).value;
    assert |rootOut.comps + d.comps| == |tdir.comps|;
    RepeatLength("../", |d.comps|);
  }
}
