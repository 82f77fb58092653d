/**
 * The testscript object model (libbuild2/script/script.hxx): pre-parsed
 * lines, regex lines of here-documents, redirects with their effective
 * (dereferenced) value, cleanups with their wildcard forms, commands, pipes
 * and expressions, and the execution environment's cleanup registration.
 */
module Script {
  import Wrappers
  import opened Token
  import opened Paths

  // Pre-parse representation

  datatype LineType = Var | Cmd | CmdIf | CmdIfn | CmdElif | CmdElifn | CmdElse | CmdEnd

  /** A script line: its kind, its tokens for replay, and for a variable line the variable. */
  datatype Line = Line(ltype: LineType, tokens: ReplayTokens, variable: Wrappers.Option<string>)

  predicate ValidLine(l: Line)
  {
    l.ltype == Var <==> l.variable.Some?
  }

  // Regex lines

  /**
   * One line of a regex here-document: a regex (value with flags) or a
   * literal that is either textual (value) or made of special characters
   * (special), never both.
   */
  datatype RegexLine = RegexLine(
    regex: bool,
    value: string,
    flags: string,
    special: string,
    line: uint64,
    column: uint64)

  predicate ValidRegexLine(r: RegexLine)
  {
    !r.regex ==> (r.value == "" || r.special == "") && r.flags == ""
  }

  /** The text of a literal line, whichever of its two fields holds it. */
  function LiteralText(r: RegexLine): string
  {
    r.value + r.special
  }

  /** A regex line with optional special characters. */
  function RegexLineRegex(l: uint64, c: uint64, v: string, f: string, s: string := ""): (r: RegexLine)
    ensures r.regex && r.value == v && r.flags == f && r.special == s
    ensures r.line == l && r.column == c
    ensures ValidRegexLine(r)
  {
    RegexLine(true, v, f, s, l, c)
  }

  /** A literal line: its text goes to `special` when `s` is set, to `value` otherwise. */
  function RegexLineLiteral(l: uint64, c: uint64, v: string, s: bool): (r: RegexLine)
    ensures !r.regex && r.flags == "" && r.line == l && r.column == c
    ensures ValidRegexLine(r)
    ensures LiteralText(r) == v
    ensures r.special != "" ==> s
    ensures r.value != "" ==> !s
  {
    RegexLine(false, if s then "" else v, "", if s then v else "", l, c)
  }

  datatype RegexLines = RegexLines(intro: char, flags: string, lines: seq<RegexLine>)

  // Redirects

  datatype RedirectFMode = Compare | Overwrite | AppendMode

  datatype FileRedirect = FileRedirect(path: Path, mode: RedirectFMode)

  /** A redirect: its tagged value plus modifiers and the here-document end marker. */
  datatype Redirect = Redirect(
    value: RedirectValue,
    modifiers: string,
    end: string,
    endLine: uint64,
    endColumn: uint64)

  datatype RedirectValue =
    | None
    | Pass
    | Null
    | Trace
    | Merge(fd: int)
    | HereStrLiteral(str: string)
    | HereStrRegex(regex: RegexLines)
    | HereDocLiteral(str: string)
    | HereDocRegex(regex: RegexLines)
    | HereDocRef(ref: Redirect)
    | File(file: FileRedirect)

  /** A redirect of type none with no modifiers or end marker. */
  function NoneRedirect(): (r: Redirect)
    ensures r.value.None? && r.modifiers == "" && r.end == ""
  {
    Redirect(None, "", "", 0, 0)
  }

  /** No reference chains: a reference never points at another reference. */
  predicate NoChains(r: Redirect)
  {
    r.value.HereDocRef? ==> !r.value.ref.value.HereDocRef?
  }

  /** A reference to a here-document redirect, which may not itself be a reference. */
  function MakeRef(r: Redirect): (x: Redirect)
    requires !r.value.HereDocRef?
    ensures x.value.HereDocRef? && NoChains(x)
    ensures Effective(x) == r
  {
    Redirect(HereDocRef(r), "", "", 0, 0)
  }

  /** The referenced redirect for a reference, the redirect itself otherwise. */
  function Effective(r: Redirect): (e: Redirect)
    ensures r.value.HereDocRef? ==> e == r.value.ref
    ensures !r.value.HereDocRef? ==> e == r
  {
    if r.value.HereDocRef? then r.value.ref else r
  }

  /** Without chains the effective redirect is never a reference, and dereferencing is idempotent. */
  lemma EffectiveIsFinal(r: Redirect)
    requires NoChains(r)
    ensures !Effective(r).value.HereDocRef?
    ensures Effective(Effective(r)) == Effective(r)
  {
  }

  // Cleanups

  datatype CleanupType = Always | Maybe | Never

  /** A path to remove at the end of the script; a trailing separator marks a directory. */
  datatype Cleanup = Cleanup(ctype: CleanupType, path: Path)

  /** What a cleanup removes, from the trailing separator and the wildcard in the last component. */
  datatype CleanupScope =
    | OneFile          // foo
    | OneDir           // foo/ (must be empty)
    | ImmediateFiles   // dir/*
    | ImmediateDirs    // dir/*/
    | RecursiveFiles   // dir/**
    | RecursiveDirs    // dir/**/
    | WholeTree        // dir/***

  function Classify(c: Cleanup): (s: CleanupScope)
    ensures s in {OneDir, ImmediateDirs, RecursiveDirs} <==> c.path.dir
  {
    var p := c.path;
    var leaf := if p.comps == [] then "" else p.comps[|p.comps| - 1];
    if leaf == "*" then (if p.dir then ImmediateDirs else ImmediateFiles)
    else if leaf == "**" then (if p.dir then RecursiveDirs else RecursiveFiles)
    else if leaf == "***" && !p.dir then WholeTree
    else if p.dir then OneDir
    else OneFile
  }

  /** The five wildcard forms are exactly the last components *, ** and *** (the last without a trailing separator). */
  lemma ClassifyWildcards(c: Cleanup)
    requires c.path.comps != []
    ensures var leaf := c.path.comps[|c.path.comps| - 1];
      Classify(c) !in {OneFile, OneDir} <==> leaf == "*" || leaf == "**" || (leaf == "***" && !c.path.dir)
  {
  }

  // Commands

  datatype ExitComparison = Eq | Ne

  type uint8 = x: int | 0 <= x < 256

  datatype CommandExit = CommandExit(comparison: ExitComparison, code: uint8)

  datatype Command = Command(
    program: Path,
    arguments: seq<string>,
    stdin: Redirect,
    stdout: Redirect,
    stderr: Redirect,
    cleanups: seq<Cleanup>,
    exit: CommandExit)

  /** A command as first built: no redirects, no cleanups, and exit status expected to equal 0. */
  function NewCommand(program: Path, arguments: seq<string>): (c: Command)
    ensures c.program == program && c.arguments == arguments
    ensures c.exit.comparison == Eq && c.exit.code == 0
    ensures c.stdin.value.None? && c.stdout.value.None? && c.stderr.value.None? && c.cleanups == []
  {
    Command(program, arguments, NoneRedirect(), NoneRedirect(), NoneRedirect(), [], CommandExit(Eq, 0))
  }

  type CommandPipe = seq<Command>

  datatype ExprOperator = LogOr | LogAnd

  datatype ExprTerm = ExprTerm(op: ExprOperator, pipe: CommandPipe)

  type CommandExpr = seq<ExprTerm>

  /**
   * Combines the terms left to right, starting from `acc`: each term's
   * operator joins the running value with its pipe's outcome. The source
   * states only that the first term is OR-ed to an implied false (the
   * comment on `expr_term` at libbuild2/script/script.hxx:297); the strict
   * left-to-right grouping without precedence is this model's reading of
   * it, since the evaluator is not part of this model. The result is the
   * starting value or the outcome of one of the pipes.
   */
  function Fold(acc: bool, terms: CommandExpr, outcome: CommandPipe -> bool): (r: bool)
    ensures r == acc || exists i :: 0 <= i < |terms| && r == outcome(terms[i].pipe)
    decreases |terms|
  {
    if terms == [] then acc
    else
      var v := if terms[0].op == LogOr then acc || outcome(terms[0].pipe) else acc && outcome(terms[0].pipe);
      Fold(v, terms[1..], outcome)
  }

  /**
   * The value of an expression given the outcome of each pipe: the first
   * term is OR-ed to an implied false, so its operator does not matter,
   * and the rest are folded left to right as `Fold` reads them. An empty
   * expression is false; otherwise the value is the outcome of one of the
   * pipes.
   */
  function ExprValue(e: CommandExpr, outcome: CommandPipe -> bool): (r: bool)
    ensures e == [] ==> !r
    ensures e != [] ==> exists i :: 0 <= i < |e| && r == outcome(e[i].pipe)
  {
    if e == [] then false else Fold(false, [e[0].(op := LogOr)] + e[1..], outcome)
  }

  lemma {:induction false} FoldShortCircuit(acc: bool, terms: CommandExpr, outcome: CommandPipe -> bool)
    requires forall i :: 0 <= i < |terms| ==> terms[i].op == (if acc then LogOr else LogAnd)
    ensures Fold(acc, terms, outcome) == acc
    decreases |terms|
  {
    if terms != [] {
      FoldShortCircuit(acc, terms[1..], outcome);
    }
  }

  /** A chain of `||` terms is true exactly when the start or some pipe is. */
  lemma {:induction false} FoldAllOr(acc: bool, terms: CommandExpr, outcome: CommandPipe -> bool)
    requires forall i :: 0 <= i < |terms| ==> terms[i].op == LogOr
    ensures Fold(acc, terms, outcome) <==> acc || exists i :: 0 <= i < |terms| && outcome(terms[i].pipe)
    decreases |terms|
  {
    if terms != [] {
      FoldAllOr(acc || outcome(terms[0].pipe), terms[1..], outcome);
      assert forall i :: 1 <= i < |terms| ==> terms[i] == terms[1..][i - 1];
    }
  }

  /** A chain of `&&` terms is true exactly when the start and every pipe are. */
  lemma {:induction false} FoldAllAnd(acc: bool, terms: CommandExpr, outcome: CommandPipe -> bool)
    requires forall i :: 0 <= i < |terms| ==> terms[i].op == LogAnd
    ensures Fold(acc, terms, outcome) <==> acc && forall i :: 0 <= i < |terms| ==> outcome(terms[i].pipe)
    decreases |terms|
  {
    if terms != [] {
      FoldAllAnd(acc && outcome(terms[0].pipe), terms[1..], outcome);
      assert forall i :: 1 <= i < |terms| ==> terms[i] == terms[1..][i - 1];
    }
  }

  /**
   * An expression whose later terms are all `||` holds exactly when some
   * pipe succeeds; one whose later terms are all `&&` exactly when every
   * pipe does.
   */
  lemma ExprUniform(e: CommandExpr, outcome: CommandPipe -> bool)
    requires e != []
    ensures (forall i :: 1 <= i < |e| ==> e[i].op == LogOr) ==>
      (ExprValue(e, outcome) <==> exists i :: 0 <= i < |e| && outcome(e[i].pipe))
    ensures (forall i :: 1 <= i < |e| ==> e[i].op == LogAnd) ==>
      (ExprValue(e, outcome) <==> forall i :: 0 <= i < |e| ==> outcome(e[i].pipe))
  {
    var t := [e[0].(op := LogOr)] + e[1..];
    assert forall i :: 0 <= i < |e| ==> t[i].pipe == e[i].pipe;
    if forall i :: 1 <= i < |e| ==> e[i].op == LogOr {
      FoldAllOr(false, t, outcome);
    }
    if forall i :: 1 <= i < |e| ==> e[i].op == LogAnd {
      FoldAllAnd(outcome(e[0].pipe), e[1..], outcome);
      assert forall i :: 1 <= i < |e| ==> e[i] == e[1..][i - 1];
    }
  }

  /** Once the running value is true, further || terms do not change it; once false, && terms do not. */
  lemma ExprShortCircuit(e: CommandExpr, outcome: CommandPipe -> bool)
    requires |e| >= 1
    requires forall i :: 1 <= i < |e| ==> e[i].op == (if outcome(e[0].pipe) then LogOr else LogAnd)
    ensures ExprValue(e, outcome) == outcome(e[0].pipe)
  {
    var first := outcome(e[0].pipe);
    FoldShortCircuit(first, e[1..], outcome);
  }

  // Environment

  /** No path is registered for cleanup twice. */
  predicate UniquePaths(cs: seq<Cleanup>)
  {
    forall i, j :: 0 <= i < j < |cs| ==> cs[i].path != cs[j].path
  }

  /** The position of the cleanup registered for `p`, or |cs| when there is none. */
  function IndexOfPath(cs: seq<Cleanup>, p: Path): (i: nat)
    ensures i <= |cs|
    ensures i < |cs| ==> cs[i].path == p
    ensures forall j :: 0 <= j < i ==> cs[j].path != p
    decreases |cs|
  {
    if cs == [] then 0
    else if cs[0].path == p then 0
    else 1 + IndexOfPath(cs[1..], p)
  }

  /** The registration is ignored: implicit, with a sandbox that does not contain the path. */
  predicate OutsideRoot(c: Cleanup, implicit: bool, sandbox: Path)
  {
    implicit && !IsEmpty(sandbox) && !Sub(c.path, sandbox)
  }

  /**
   * The cleanup list after registering `c`: ignored outside the sandbox
   * when implicit; for an already-registered path, an explicit registration
   * overrides its type and an implicit one changes nothing; otherwise
   * appended.
   */
  function Registered(cs: seq<Cleanup>, c: Cleanup, implicit: bool, sandbox: Path): (r: seq<Cleanup>)
    ensures |cs| <= |r| <= |cs| + 1
    ensures forall j :: 0 <= j < |cs| ==> r[j] == cs[j] || (r[j] == c && cs[j].path == c.path)
    ensures |r| == |cs| + 1 ==> r[|cs|] == c && c.path !in PathsOf(cs)
  {
    var i := IndexOfPath(cs, c.path);
    if OutsideRoot(c, implicit, sandbox) then cs
    else if i < |cs| then (if implicit then cs else cs[i := c])
    else cs + [c]
  }

  function PathsOf(cs: seq<Cleanup>): set<Path>
  {
    set i | 0 <= i < |cs| :: cs[i].path
  }

  /**
   * Registration keeps paths unique, adds exactly the new path, keeps the
   * order of earlier entries, leaves the entries of every other path as
   * they were, and an implicit registration of a path already registered
   * keeps the existing entry.
   */
  lemma RegisteredShape(cs: seq<Cleanup>, c: Cleanup, implicit: bool, sandbox: Path)
    requires UniquePaths(cs)
    ensures var r := Registered(cs, c, implicit, sandbox);
      && UniquePaths(r)
      && PathsOf(r) == PathsOf(cs) + (if OutsideRoot(c, implicit, sandbox) then {} else {c.path})
      && |cs| <= |r| <= |cs| + 1
      && (forall j :: 0 <= j < |cs| ==> r[j].path == cs[j].path)
      && (forall j :: 0 <= j < |cs| && cs[j].path != c.path ==> r[j] == cs[j])
      && (implicit && c.path in PathsOf(cs) ==> r == cs)
  {
    var r := Registered(cs, c, implicit, sandbox);
    var i := IndexOfPath(cs, c.path);
    if !OutsideRoot(c, implicit, sandbox) {
      if i < |cs| {
        assert PathsOf(r) == PathsOf(cs) by {
          forall x | x in PathsOf(r) ensures x in PathsOf(cs) {
            var k :| 0 <= k < |r| && r[k].path == x;
            assert cs[k].path == x;
          }
          forall x | x in PathsOf(cs) ensures x in PathsOf(r) {
            var k :| 0 <= k < |cs| && cs[k].path == x;
            assert r[k].path == x;
          }
        }
      } else {
        assert PathsOf(r) == PathsOf(cs) + {c.path} by {
          forall x | x in PathsOf(r) ensures x in PathsOf(cs) + {c.path} {
            var k :| 0 <= k < |r| && r[k].path == x;
            if k < |cs| { assert cs[k].path == x; }
          }
          forall x | x in PathsOf(cs) + {c.path} ensures x in PathsOf(r) {
            if x == c.path { assert r[|cs|].path == x; }
            else { var k :| 0 <= k < |cs| && cs[k].path == x; assert r[k].path == x; }
          }
        }
      }
    }
  }

  /** An explicit registration inside the root leaves exactly `c` recorded for its path. */
  lemma ExplicitOverrides(cs: seq<Cleanup>, c: Cleanup, sandbox: Path)
    requires UniquePaths(cs)
    ensures var r := Registered(cs, c, false, sandbox);
      c in r && forall j :: 0 <= j < |r| && r[j].path == c.path ==> r[j] == c
  {
    var r := Registered(cs, c, false, sandbox);
    var i := IndexOfPath(cs, c.path);
    RegisteredShape(cs, c, false, sandbox);
    if i < |cs| {
      assert r[i] == c;
    } else {
      assert r[|cs|] == c;
    }
  }

  /** An implicit registration outside the sandbox changes nothing. */
  lemma ImplicitOutsideIgnored(cs: seq<Cleanup>, c: Cleanup, sandbox: Path)
    requires !IsEmpty(sandbox) && !Sub(c.path, sandbox)
    ensures Registered(cs, c, true, sandbox) == cs
  {
  }

  /** Registering the same cleanup again changes nothing. */
  lemma RegisteredIdempotent(cs: seq<Cleanup>, c: Cleanup, implicit: bool, sandbox: Path)
    requires UniquePaths(cs)
    ensures Registered(Registered(cs, c, implicit, sandbox), c, implicit, sandbox) == Registered(cs, c, implicit, sandbox)
  {
    var r := Registered(cs, c, implicit, sandbox);
    var i := IndexOfPath(cs, c.path);
    if !OutsideRoot(c, implicit, sandbox) {
      var i2 := IndexOfPath(r, c.path);
      if i < |cs| {
        assert r[i].path == c.path;
        assert i2 == i;
      } else {
        assert r[|cs|].path == c.path;
        assert i2 == |cs|;
        assert r[|cs| := c] == r;
      }
    }
  }

  /**
   * The execution environment of a script: the working directory, the
   * optional sandbox (empty when absent), their names for diagnostics, and
   * the registered cleanups, ordinary and special.
   */
  class Environment {
    const workDir: Path
    const sandboxDir: Path
    const workDirName: string
    const sandboxDirName: string

    var cleanups: seq<Cleanup>
    var specialCleanups: seq<Path>

    predicate Valid()
      reads this
    {
      UniquePaths(cleanups)
    }

    constructor (wd: Path, wn: string, sd: Path, sn: string)
      ensures workDir == wd && workDirName == wn && sandboxDir == sd && sandboxDirName == sn
      ensures cleanups == [] && specialCleanups == [] && Valid()
    {
      workDir, workDirName, sandboxDir, sandboxDirName := wd, wn, sd, sn;
      cleanups, specialCleanups := [], [];
    }

    /** An environment without a sandbox: empty sandbox directory and name. */
    constructor WithoutSandbox(wd: Path, wn: string)
      ensures workDir == wd && workDirName == wn
      ensures IsEmpty(sandboxDir) && sandboxDirName == ""
      ensures cleanups == [] && specialCleanups == [] && Valid()
    {
      workDir, workDirName, sandboxDir, sandboxDirName := wd, wn, EmptyPath, "";
      cleanups, specialCleanups := [], [];
    }

    /** Registers a cleanup (see Registered). */
    method Clean(c: Cleanup, implicit: bool)
      requires Valid()
      modifies this`cleanups
      ensures Valid()
      ensures cleanups == Registered(old(cleanups), c, implicit, sandboxDir)
    {
      if OutsideRoot(c, implicit, sandboxDir) {
        return;
      }
      var i := 0;
      while i < |cleanups| && cleanups[i].path != c.path
        invariant 0 <= i <= |cleanups|
        invariant forall j :: 0 <= j < i ==> cleanups[j].path != c.path
      {
        i := i + 1;
      }
      assert i == IndexOfPath(cleanups, c.path);
      RegisteredShape(cleanups, c, implicit, sandboxDir);
      if i == |cleanups| {
        cleanups := cleanups + [c];
      } else if !implicit {
        cleanups := cleanups[i := c];
      }
    }

    /** Registers a special file, removed before the ordinary cleanups. */
    method CleanSpecial(p: Path)
      modifies this`specialCleanups
      ensures specialCleanups == old(specialCleanups) + [p]
    {
      specialCleanups := specialCleanups + [p];
    }
  }
}
