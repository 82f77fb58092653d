/**
 * The test script runner (build2/test/script/runner.cxx): entering and
 * leaving a scope's working directory, and running one command with its
 * redirects, exit-status check and output checks. The filesystem is the
 * abstract map of module FileSystem; the child process is an opaque
 * outcome (its exit status and what it writes to its two output streams).
 *
 * This runner uses the older redirect API (here-strings and here-documents
 * as plain text, file redirects with an append flag, cleanups as paths),
 * modelled here with its own types.
 */
module Runner {
  import opened Wrappers
  import opened Strings
  import opened Paths
  import opened FileSystem
  import Script

  /** A redirect as this runner sees it. */
  datatype Redirect =
    | RdNone
    | RdPass
    | RdNull
    | RdMerge(fd: int)
    | RdHereString(str: string)
    | RdHereDocument(doc: string)
    | RdFile(path: Path, append: bool)

  datatype CommandExit = CommandExit(comparison: Script.ExitComparison, status: Script.uint8)

  datatype Command = Command(
    program: Path,
    arguments: seq<string>,
    stdin: Redirect,
    stdout: Redirect,
    stderr: Redirect,
    cleanups: seq<Path>,
    exit: CommandExit)

  /** Why running or tearing down failed. */
  datatype Diag =
    | InvalidPath(path: Path)
    | UnableToRead(path: Path)
    | UnableToWrite(path: Path)
    | MkdirFailed(path: Path)
    | WorkDirNotEmpty(path: Path)
    | UnableToExecute
    | TerminatedAbnormally
    | InvalidStatus(status: int)
    | StatusMismatch(status: int, eq: bool, expected: Script.uint8)
    | UnexpectedOutput(stream: string, saved: Path)
    | OutputMismatch(stream: string)
    | DirNotEmpty(path: Path)
    | DirNotExist(path: Path)
    | FileNotExist(path: Path)
    | RemoveFailed(path: Path)

  /** The child process: it could not be started, or it ran, wrote to its outputs and ended. */
  datatype Child = SpawnFailed | Exited(status: Option<int>, out: string, err: string)

  /** A descriptor handed to the child: a plain number, or a file opened by the runner. */
  datatype Descriptor = Fd(fd: int) | Opened(path: Path)

  /** A test scope: its working directory and the paths registered for cleanup. */
  class Scope {
    const wdPath: Path
    var cleanups: seq<Path>

    constructor (wd: Path)
      requires wd.dir
      ensures wdPath == wd && cleanups == []
    {
      wdPath := wd;
      cleanups := [];
    }
  }

  /** What running a command changes: the filesystem and the scope's cleanup list. */
  datatype State = State(entries: Entries, cleanups: seq<Path>)

  /** An outcome together with the state it leaves. */
  datatype Step = Step(outcome: Outcome<Diag>, st: State)

  // Paths

  /** A relative path is taken relative to the working directory, then normalized. */
  function Resolve(wd: Path, p: Path): (r: Result<Path, Diag>)
    ensures r.Ok? ==> IsNormal(r.value) && r.value.absolute == (p.absolute || wd.absolute)
    ensures !p.absolute && !wd.absolute ==> r.Ok?
    ensures r.Err? ==> r.error.InvalidPath?
  {
    var full := if p.absolute then p else Combine(wd, p);
    NormalizeIsNormal(full);
    match Normalize(full)
    case None => Err(InvalidPath(full))
    case Some(q) => Ok(q)
  }

  /** An absolute result resolves to itself, whatever the working directory. */
  lemma ResolveIdempotent(wd: Path, wd2: Path, p: Path)
    requires Resolve(wd, p).Ok? && Resolve(wd, p).value.absolute
    ensures Resolve(wd2, Resolve(wd, p).value) == Resolve(wd, p)
  {
    var full := if p.absolute then p else Combine(wd, p);
    NormalizeIdempotent(full);
  }

  /** A relative path without ".." resolves to a path inside a normal absolute working directory. */
  lemma ResolveInsideWorkDir(wd: Path, p: Path)
    requires wd.absolute && IsNormal(wd) && !p.absolute
    requires forall i :: 0 <= i < |p.comps| ==> p.comps[i] != ".."
    ensures Resolve(wd, p).Ok? && Sub(Resolve(wd, p).value, wd)
  {
    var full := Combine(wd, p);
    NormalizeCompsAppend(true, [], wd.comps, p.comps);
    NormalizeOfNormal(wd);
    assert NormalizeComps(true, [], wd.comps) == Some(wd.comps);
    NormalizeCompsKeepsDone(true, wd.comps, p.comps);
  }

  /** All paths resolved in order; the first invalid one is the error. */
  function ResolveAll(wd: Path, ps: seq<Path>): Result<seq<Path>, Diag>
    decreases |ps|
  {
    if ps == [] then Ok([])
    else match Resolve(wd, ps[0])
      case Err(e) => Err(e)
      case Ok(q) =>
        match ResolveAll(wd, ps[1..])
        case Err(e) => Err(e)
        case Ok(qs) => Ok([q] + qs)
  }

  lemma {:induction false} ResolveAllElementwise(wd: Path, ps: seq<Path>)
    ensures ResolveAll(wd, ps).Ok? <==> forall j :: 0 <= j < |ps| ==> Resolve(wd, ps[j]).Ok?
    ensures ResolveAll(wd, ps).Ok? ==>
      |ResolveAll(wd, ps).value| == |ps| &&
      forall j :: 0 <= j < |ps| ==> ResolveAll(wd, ps).value[j] == Resolve(wd, ps[j]).value
    decreases |ps|
  {
    if ps != [] {
      ResolveAllElementwise(wd, ps[1..]);
      if Resolve(wd, ps[0]).Ok? && !ResolveAll(wd, ps[1..]).Ok? {
        var j :| 0 <= j < |ps[1..]| && !Resolve(wd, ps[1..][j]).Ok?;
        assert ps[1..][j] == ps[j + 1];
      }
      if ResolveAll(wd, ps).Ok? {
        forall j | 0 <= j < |ps| ensures Resolve(wd, ps[j]).Ok? {
          if j > 0 { assert ps[j] == ps[1..][j - 1]; }
        }
      }
    }
  }

  function Prefixed(done: seq<Path>, r: Result<seq<Path>, Diag>): Result<seq<Path>, Diag>
  {
    match r
    case Err(e) => Err(e)
    case Ok(qs) => Ok(done + qs)
  }

  /** Moving one resolved path from the rest to the done part keeps the whole. */
  lemma PrefixedStep(done: seq<Path>, q: Path, r: Result<seq<Path>, Diag>)
    ensures Prefixed(done, Prefixed([q], r)) == Prefixed(done + [q], r)
  {
    if r.Ok? {
      assert done + ([q] + r.value) == (done + [q]) + r.value;
    }
  }

  // Capture files

  /** The capture file name: stdout or stderr, with -<ci> appended when ci > 0. */
  function CaptureName(dfd: int, ci: nat): (n: string)
    requires dfd == 1 || dfd == 2
    ensures |n| >= 6 && n[..6] == (if dfd == 1 then "stdout" else "stderr")
    ensures ci == 0 <==> |n| == 6
  {
    (if dfd == 1 then "stdout" else "stderr") + (if ci > 0 then "-" + NatToString(ci) else "")
  }

  function CapturePath(dfd: int, ci: nat): Path
    requires dfd == 1 || dfd == 2
  {
    Path(false, [CaptureName(dfd, ci)], false)
  }

  /** Different streams or different command numbers never share a capture file name. */
  lemma CaptureNamesDistinct(d1: int, c1: nat, d2: int, c2: nat)
    requires d1 == 1 || d1 == 2
    requires d2 == 1 || d2 == 2
    requires (d1, c1) != (d2, c2)
    ensures CaptureName(d1, c1) != CaptureName(d2, c2)
  {
    var n1, n2 := CaptureName(d1, c1), CaptureName(d2, c2);
    if d1 != d2 {
      assert n1[..6] != n2[..6];
    } else if c1 != c2 && c1 > 0 && c2 > 0 {
      CaptureSuffix(d1, c1);
      CaptureSuffix(d2, c2);
      if n1 == n2 {
        NatToStringInjective(c1, c2);
      }
    }
  }

  /** After the stream name and '-' comes the command number. */
  lemma CaptureSuffix(dfd: int, ci: nat)
    requires dfd == 1 || dfd == 2
    requires ci > 0
    ensures |CaptureName(dfd, ci)| > 7 && CaptureName(dfd, ci)[7..] == NatToString(ci)
  {
    var s, t := if dfd == 1 then "stdout" else "stderr", NatToString(ci);
    var n := CaptureName(dfd, ci);
    assert n == s + ("-" + t);
    assert n[6..] == "-" + t;
    assert n[7..] == n[6..][1..];
  }

  /** The expected-output file (".orig") never collides with a capture file. */
  lemma OrigNotCapture(d1: int, c1: nat, d2: int, c2: nat)
    requires d1 == 1 || d1 == 2
    requires d2 == 1 || d2 == 2
    ensures CaptureName(d1, c1) + ".orig" != CaptureName(d2, c2)
  {
    var n2 := CaptureName(d2, c2);
    var last := n2[|n2| - 1];
    if c2 > 0 {
      var digits := NatToString(c2);
      assert last == digits[|digits| - 1];
    } else {
      assert last == n2[..6][5];
    }
    assert last != 'g';
  }

  // Standard input

  /** The descriptor the child reads from: an opened file only for a readable file redirect. */
  function StdinDescriptor(wd: Path, m: Entries, r: Redirect): (d: Result<Descriptor, Diag>)
    requires !r.RdMerge?
    ensures r.RdPass? ==> d == Ok(Fd(0))
    ensures r.RdHereString? || r.RdHereDocument? ==> d == Ok(Fd(-1))
    ensures r.RdNull? || r.RdNone? ==> d == Ok(Fd(-2))
    ensures r.RdFile? ==> (d.Ok? <==> Resolve(wd, r.path).Ok? && IsFile(m, Resolve(wd, r.path).value.comps))
    ensures r.RdFile? && d.Ok? ==> d.value == Opened(Resolve(wd, r.path).value)
  {
    match r
    case RdPass => Ok(Fd(0))
    case RdHereString(_) => Ok(Fd(-1))
    case RdHereDocument(_) => Ok(Fd(-1))
    case RdNull => Ok(Fd(-2))
    case RdNone => Ok(Fd(-2))
    case RdFile(p, _) =>
      match Resolve(wd, p)
      case Err(e) => Err(e)
      case Ok(q) => if IsFile(m, q.comps) then Ok(Opened(q)) else Err(UnableToRead(q))
  }

  // Standard output and error

  /** The redirect goes to a file the runner opens: a file redirect, or a capture for checking. */
  predicate OpensFile(r: Redirect)
  {
    r.RdFile? || r.RdNone? || r.RdHereString? || r.RdHereDocument?
  }

  /** The file an output redirect opens. */
  function OutputPath(wd: Path, r: Redirect, dfd: int, ci: nat): Result<Path, Diag>
    requires dfd == 1 || dfd == 2
    requires OpensFile(r)
  {
    Resolve(wd, if r.RdFile? then r.path else CapturePath(dfd, ci))
  }

  /** Opening an output: the descriptor, the path of the opened file, and the new state. */
  datatype Opening = Opening(d: Result<Descriptor, Diag>, path: Path, st: State)

  /** What `OpenOutput` does, as a function of the state before it. */
  function OpenOutputOf(wd: Path, st: State, r: Redirect, dfd: int, ci: nat): Opening
    requires dfd == 1 || dfd == 2
  {
    if r.RdPass? then Opening(Ok(Fd(dfd)), EmptyPath, st)
    else if r.RdNull? then Opening(Ok(Fd(-2)), EmptyPath, st)
    else if r.RdMerge? then Opening(Ok(Fd(r.fd)), EmptyPath, st)
    else match OutputPath(wd, r, dfd, ci)
      case Err(e) => Opening(Err(e), EmptyPath, st)
      case Ok(p) =>
        match OpenWriteOf(st.entries, p.comps, r.RdFile? && r.append)
        case None => Opening(Err(UnableToWrite(p)), p, st)
        case Some(m) => Opening(Ok(Opened(p)), p, State(m, st.cleanups + [p]))
  }

  /**
   * Opens the file for an output redirect, registers it for cleanup and
   * returns it as the descriptor; pass, null and merge return the default
   * descriptor, -2 and the merge target without opening anything.
   */
  method OpenOutput(sp: Scope, fs: FS, r: Redirect, dfd: int, ci: nat) returns (d: Result<Descriptor, Diag>, p: Path)
    requires dfd == 1 || dfd == 2
    modifies sp`cleanups, fs
    ensures old(sp.cleanups) <= sp.cleanups
    ensures r.RdPass? ==> d == Ok(Fd(dfd))
    ensures r.RdNull? ==> d == Ok(Fd(-2))
    ensures r.RdMerge? ==> d == Ok(Fd(r.fd))
    ensures !OpensFile(r) ==> sp.cleanups == old(sp.cleanups) && fs.entries == old(fs.entries)
    ensures OpensFile(r) ==>
      var op := OutputPath(sp.wdPath, r, dfd, ci);
      && (d.Ok? <==> op.Ok? && OpenWriteOf(old(fs.entries), op.value.comps, r.RdFile? && r.append).Some?)
      && (d.Ok? ==> d.value == Opened(op.value) && p == op.value
                    && sp.cleanups == old(sp.cleanups) + [p]
                    && fs.entries == OpenWriteOf(old(fs.entries), op.value.comps, r.RdFile? && r.append).value)
      && (!d.Ok? ==> sp.cleanups == old(sp.cleanups) && fs.entries == old(fs.entries))
    ensures Opening(d, p, State(fs.entries, sp.cleanups)) ==
      OpenOutputOf(sp.wdPath, State(old(fs.entries), old(sp.cleanups)), r, dfd, ci)
  {
    p := EmptyPath;
    match r {
      case RdPass => return Ok(Fd(dfd)), p;
      case RdNull => return Ok(Fd(-2)), p;
      case RdMerge(fd) => return Ok(Fd(fd)), p;
      case _ =>
    }
    var op := OutputPath(sp.wdPath, r, dfd, ci);
    if op.Err? {
      return Err(op.error), p;
    }
    p := op.value;
    var ok := fs.Open(p, r.RdFile? && r.append);
    if !ok {
      return Err(UnableToWrite(p)), p;
    }
    sp.cleanups := sp.cleanups + [p];
    d := Ok(Opened(p));
  }

  /**
   * Where a stream of the child ends up: a stream merged into the other
   * one (its descriptor is the other's number) goes wherever the other
   * goes, any other keeps its own descriptor.
   */
  function Destination(own: Descriptor, other: Descriptor, otherFd: int): (d: Descriptor)
    ensures d == own || d == other
    ensures own == Fd(otherFd) ==> d == other
    ensures own.Opened? ==> d == own
  {
    if own == Fd(otherFd) then other else own
  }

  /** The child's output appended to the file its stream goes to, if it goes to one. */
  function Emit(m: Entries, to: Descriptor, text: string): Entries
  {
    if to.Opened? then WriteOf(m, to.path.comps, true, text) else m
  }

  // Exit status

  predicate ValidStatus(status: Option<int>)
  {
    status.Some? && 0 <= status.value < 256
  }

  /** A status exists, is in [0, 256), and equals the expected one exactly when the comparison is ==. */
  function CorrectStatus(status: Option<int>, exit: CommandExit): (r: bool)
    ensures r ==> ValidStatus(status)
    ensures r && exit.comparison == Script.Eq ==> status.value == exit.status as int
    ensures r && exit.comparison == Script.Ne ==> status.value != exit.status as int
  {
    ValidStatus(status) && ((status.value == exit.status) <==> exit.comparison == Script.Eq)
  }

  /** The diagnostic for an incorrect status: abnormal termination, then range, then mismatch. */
  function ExitDiag(status: Option<int>, exit: CommandExit): (d: Option<Diag>)
    ensures d.None? <==> CorrectStatus(status, exit)
    ensures status.None? ==> d == Some(TerminatedAbnormally)
    ensures status.Some? && !ValidStatus(status) ==> d == Some(InvalidStatus(status.value))
    ensures ValidStatus(status) && !CorrectStatus(status, exit) ==>
      d == Some(StatusMismatch(status.value, exit.comparison == Script.Eq, exit.status))
  {
    if CorrectStatus(status, exit) then None
    else if status.None? then Some(TerminatedAbnormally)
    else if !ValidStatus(status) then Some(InvalidStatus(status.value))
    else Some(StatusMismatch(status.value, exit.comparison == Script.Eq, exit.status))
  }

  /** With == the status must be exactly the expected one; with != any other valid status. */
  lemma CorrectStatusMeaning(status: Option<int>, exit: CommandExit)
    ensures exit.comparison == Script.Eq ==> (CorrectStatus(status, exit) <==> status == Some(exit.status as int))
    ensures exit.comparison == Script.Ne ==>
      (CorrectStatus(status, exit) <==> status.Some? && 0 <= status.value < 256 && status.value != exit.status)
  {
  }

  // Output checks

  /** The file exists and has content; an unreadable entry (a directory) is an error. */
  function NonEmpty(m: Entries, p: Path): (r: Result<bool, Diag>)
    ensures r == Ok(true) <==> IsFile(m, p.comps) && !IsEmpty(p) && m[p.comps].content != ""
    ensures IsEmpty(p) || (p.comps != [] && p.comps !in m) ==> r == Ok(false)
  {
    if IsEmpty(p) || (p.comps != [] && p.comps !in m) then Ok(false)
    else if IsFile(m, p.comps) then Ok(m[p.comps].content != "")
    else Err(UnableToRead(p))
  }

  /**
   * Drops a carriage return that ends a line (the comparison ignores it).
   * The result is never longer, and it is as long only when nothing was
   * dropped.
   */
  function StripCR(s: string): (r: string)
    ensures |r| <= |s|
    ensures |r| == |s| ==> r == s
    decreases |s|
  {
    if s == [] then []
    else if s[0] == '\r' && (|s| == 1 || s[1] == '\n') then StripCR(s[1..])
    else [s[0]] + StripCR(s[1..])
  }

  /** Text without carriage returns is compared exactly. */
  lemma {:induction false} StripCRNoCR(s: string)
    requires '\r' !in s
    ensures StripCR(s) == s
    decreases |s|
  {
    if s != [] {
      assert s[0] != '\r';
      assert '\r' !in s[1..] by {
        forall i | 0 <= i < |s[1..]| ensures s[1..][i] != '\r' { assert s[1..][i] == s[i + 1]; }
      }
      StripCRNoCR(s[1..]);
      assert [s[0]] + s[1..] == s;
    }
  }

  /** Line ends written as CR LF compare equal to plain LF. */
  lemma {:induction false} StripCRLineEnds(a: string, b: string)
    requires '\r' !in a
    ensures StripCR(a + "\r\n" + b) == StripCR(a + "\n" + b)
    decreases |a|
  {
    if a == [] {
      assert [] + "\r\n" + b == "\r\n" + b;
      assert [] + "\n" + b == "\n" + b;
      assert ("\r\n" + b)[1..] == "\n" + b;
    } else {
      assert a[0] != '\r';
      assert '\r' !in a[1..] by {
        forall i | 0 <= i < |a[1..]| ensures a[1..][i] != '\r' { assert a[1..][i] == a[i + 1]; }
      }
      assert (a + "\r\n" + b)[1..] == a[1..] + "\r\n" + b;
      assert (a + "\n" + b)[1..] == a[1..] + "\n" + b;
      assert (a + "\r\n" + b)[0] == a[0] && (a + "\n" + b)[0] == a[0];
      StripCRLineEnds(a[1..], b);
    }
  }

  /** The expected text of a here-string or here-document redirect. */
  function HereText(r: Redirect): string
    requires r.RdHereString? || r.RdHereDocument?
  {
    if r.RdHereString? then r.str else r.doc
  }

  /** The captured output matches the expected text, up to line-ending carriage returns. */
  predicate Matches(m: Entries, op: Path, expected: string)
  {
    IsFile(m, op.comps) && StripCR(m[op.comps].content) == StripCR(expected)
  }

  /** What `CheckExpected` does, as a function of the state before it. */
  function CheckExpectedOf(st: State, stream: string, op: Path, text: string): Step
  {
    var orp := AppendToLeaf(op, ".orig");
    match OpenWriteOf(st.entries, orp.comps, false)
    case None => Step(Fail(UnableToWrite(orp)), st)
    case Some(m) =>
      var m' := m[orp.comps := File(text)];
      Step(if Matches(m', op, text) then Pass else Fail(OutputMismatch(stream)), State(m', st.cleanups + [orp]))
  }

  /** What `CheckOutput` does, as a function of the state before it. */
  function CheckOutputOf(st: State, stream: string, op: Path, r: Redirect): Step
  {
    if r.RdNone? then
      var ne := NonEmpty(st.entries, op);
      Step(if ne == Ok(false) then Pass else if ne.Err? then Fail(ne.error) else Fail(UnexpectedOutput(stream, op)), st)
    else if r.RdHereString? || r.RdHereDocument? then CheckExpectedOf(st, stream, op, HereText(r))
    else Step(Pass, st)
  }

  /**
   * Checks a captured output against its redirect. None: nothing may have
   * been written. Here-string or here-document: the expected text is saved
   * next to the capture (".orig", registered for cleanup) and compared with
   * it. Every other redirect: nothing to check.
   */
  method CheckOutput(sp: Scope, fs: FS, stream: string, op: Path, r: Redirect) returns (o: Outcome<Diag>)
    modifies sp`cleanups, fs
    ensures old(sp.cleanups) <= sp.cleanups
    ensures !(r.RdNone? || r.RdHereString? || r.RdHereDocument?) ==>
      o.Pass? && sp.cleanups == old(sp.cleanups) && fs.entries == old(fs.entries)
    ensures r.RdNone? ==>
      (o.Pass? <==> NonEmpty(old(fs.entries), op) == Ok(false))
      && sp.cleanups == old(sp.cleanups) && fs.entries == old(fs.entries)
    ensures r.RdHereString? || r.RdHereDocument? ==>
      var orp := AppendToLeaf(op, ".orig");
      var created := OpenWriteOf(old(fs.entries), orp.comps, false);
      && (created.Some? ==>
            sp.cleanups == old(sp.cleanups) + [orp] && fs.entries == created.value[orp.comps := File(HereText(r))])
      && (created.None? ==> sp.cleanups == old(sp.cleanups) && fs.entries == old(fs.entries))
      && (o.Pass? <==> created.Some? && Matches(fs.entries, op, HereText(r)))
    ensures Step(o, State(fs.entries, sp.cleanups)) ==
      CheckOutputOf(State(old(fs.entries), old(sp.cleanups)), stream, op, r)
  {
    match r {
      case RdNone =>
        var ne := NonEmpty(fs.entries, op);
        if ne == Ok(false) {
          return Pass;
        } else if ne.Err? {
          return Fail(ne.error);
        } else {
          return Fail(UnexpectedOutput(stream, op));
        }
      case RdHereString(_) =>
        o := CheckExpected(sp, fs, stream, op, HereText(r));
      case RdHereDocument(_) =>
        o := CheckExpected(sp, fs, stream, op, HereText(r));
      case _ =>
        return Pass;
    }
  }

  method CheckExpected(sp: Scope, fs: FS, stream: string, op: Path, text: string) returns (o: Outcome<Diag>)
    modifies sp`cleanups, fs
    ensures old(sp.cleanups) <= sp.cleanups
    ensures
      var orp := AppendToLeaf(op, ".orig");
      var created := OpenWriteOf(old(fs.entries), orp.comps, false);
      && (created.Some? ==>
            sp.cleanups == old(sp.cleanups) + [orp] && fs.entries == created.value[orp.comps := File(text)])
      && (created.None? ==> sp.cleanups == old(sp.cleanups) && fs.entries == old(fs.entries))
      && (o.Pass? <==> created.Some? && Matches(fs.entries, op, text))
    ensures Step(o, State(fs.entries, sp.cleanups)) ==
      CheckExpectedOf(State(old(fs.entries), old(sp.cleanups)), stream, op, text)
  {
    var orp := AppendToLeaf(op, ".orig");
    var ok := fs.Open(orp, false);
    if !ok {
      return Fail(UnableToWrite(orp));
    }
    sp.cleanups := sp.cleanups + [orp];
    ok := fs.Write(orp, true, text);
    assert [] + text == text;
    if Matches(fs.entries, op, text) {
      return Pass;
    }
    return Fail(OutputMismatch(stream));
  }

  // Running a command

  /** The cleanup list after registering `ps` in order, stopping at the first invalid path. */
  datatype Registration = Registration(outcome: Outcome<Diag>, cleanups: seq<Path>)

  /** What `RegisterCleanups` does, as a function of the cleanup list before it. */
  function RegisterOf(wd: Path, cl: seq<Path>, ps: seq<Path>): Registration
    decreases |ps|
  {
    if ps == [] then Registration(Pass, cl)
    else match Resolve(wd, ps[0])
      case Err(e) => Registration(Fail(e), cl)
      case Ok(q) => RegisterOf(wd, cl + [q], ps[1..])
  }

  /** Registering succeeds exactly when every path resolves, and then appends them all in order. */
  lemma {:induction false} RegisterOfResolves(wd: Path, cl: seq<Path>, ps: seq<Path>)
    ensures RegisterOf(wd, cl, ps).outcome.Pass? <==> ResolveAll(wd, ps).Ok?
    ensures ResolveAll(wd, ps).Ok? ==> RegisterOf(wd, cl, ps).cleanups == cl + ResolveAll(wd, ps).value
    ensures cl <= RegisterOf(wd, cl, ps).cleanups
    decreases |ps|
  {
    if ps != [] {
      var q := Resolve(wd, ps[0]);
      if q.Ok? {
        RegisterOfResolves(wd, cl + [q.value], ps[1..]);
        if ResolveAll(wd, ps[1..]).Ok? {
          assert cl + [q.value] + ResolveAll(wd, ps[1..]).value == cl + ([q.value] + ResolveAll(wd, ps[1..]).value);
        }
      }
    }
  }

  /** Registers the command's own cleanups, resolved, in order; stops at the first invalid path. */
  method RegisterCleanups(sp: Scope, ps: seq<Path>) returns (o: Outcome<Diag>)
    modifies sp`cleanups
    ensures old(sp.cleanups) <= sp.cleanups
    ensures o.Pass? <==> ResolveAll(sp.wdPath, ps).Ok?
    ensures o.Pass? ==> sp.cleanups == old(sp.cleanups) + ResolveAll(sp.wdPath, ps).value
    ensures Registration(o, sp.cleanups) == RegisterOf(sp.wdPath, old(sp.cleanups), ps)
  {
    var done: seq<Path> := [];
    var i := 0;
    assert ps[0..] == ps;
    assert Prefixed([], ResolveAll(sp.wdPath, ps)) == ResolveAll(sp.wdPath, ps) by {
      if ResolveAll(sp.wdPath, ps).Ok? {
        assert [] + ResolveAll(sp.wdPath, ps).value == ResolveAll(sp.wdPath, ps).value;
      }
    }
    while i < |ps|
      invariant 0 <= i <= |ps|
      invariant sp.cleanups == old(sp.cleanups) + done
      invariant ResolveAll(sp.wdPath, ps) == Prefixed(done, ResolveAll(sp.wdPath, ps[i..]))
      invariant RegisterOf(sp.wdPath, old(sp.cleanups), ps) == RegisterOf(sp.wdPath, sp.cleanups, ps[i..])
    {
      assert ps[i..][1..] == ps[i + 1..];
      assert ps[i..][0] == ps[i];
      var q := Resolve(sp.wdPath, ps[i]);
      if q.Err? {
        return Fail(q.error);
      }
      PrefixedStep(done, q.value, ResolveAll(sp.wdPath, ps[i + 1..]));
      sp.cleanups := sp.cleanups + [q.value];
      done := done + [q.value];
      i := i + 1;
    }
    assert ps[i..] == [];
    return Pass;
  }

  /**
   * Runs a command in the scope: resolves stdin, opens the output files
   * (registering them for cleanup), lets the child write its outputs,
   * registers the command's cleanups, checks the exit status and then the
   * two outputs. Cleanups registered before a failure stay registered.
   */
  method Run(sp: Scope, fs: FS, c: Command, ci: nat, child: Child) returns (o: Outcome<Diag>)
    requires !c.stdin.RdMerge?
    modifies sp`cleanups, fs
    ensures old(sp.cleanups) <= sp.cleanups
    ensures o.Pass? ==> StdinDescriptor(sp.wdPath, old(fs.entries), c.stdin).Ok?
    ensures o.Pass? ==> child.Exited? && CorrectStatus(child.status, c.exit)
    ensures child.SpawnFailed? ==> o.Fail?
    ensures Step(o, State(fs.entries, sp.cleanups)) ==
      RunOf(sp.wdPath, State(old(fs.entries), old(sp.cleanups)), c, ci, child)
  {
    var input := StdinDescriptor(sp.wdPath, fs.entries, c.stdin);
    if input.Err? {
      return Fail(input.error);
    }
    var out, err, outPath, errPath := OpenOutputs(sp, fs, c, ci);
    if out.Err? {
      return Fail(out.error);
    }
    if err.Err? {
      return Fail(err.error);
    }
    if child.SpawnFailed? {
      return Fail(UnableToExecute);
    }
    var outTo := Destination(out.value, err.value, 2);
    var errTo := Destination(err.value, out.value, 1);
    Emits(fs, outTo, child.out);
    Emits(fs, errTo, child.err);
    var registered := RegisterCleanups(sp, c.cleanups);
    if registered.Fail? {
      return registered;
    }
    var bad := ExitDiag(child.status, c.exit);
    if bad.Some? {
      return Fail(bad.value);
    }
    o := CheckOutputs(sp, fs, outPath, errPath, c);
  }

  /** Lets the child write `text` to where one of its streams goes. */
  method Emits(fs: FS, to: Descriptor, text: string)
    modifies fs
    ensures fs.entries == Emit(old(fs.entries), to, text)
  {
    if to.Opened? {
      var written := fs.Write(to.path, true, text);
    }
  }

  /** The two openings of a command's outputs. */
  datatype Openings = Openings(out: Opening, err: Opening)

  /** What `OpenOutputs` does: stderr is opened only after stdout was. */
  function OpenOutputsOf(wd: Path, st: State, c: Command, ci: nat): Openings
  {
    var o := OpenOutputOf(wd, st, c.stdout, 1, ci);
    if o.d.Err? then Openings(o, Opening(Err(UnableToExecute), o.path, o.st))
    else Openings(o, OpenOutputOf(wd, o.st, c.stderr, 2, ci))
  }

  /** What `CheckOutputs` does: stderr is checked only after stdout passed. */
  function CheckOutputsOf(st: State, outPath: Path, errPath: Path, c: Command): Step
  {
    var s := CheckOutputOf(st, "stdout", outPath, c.stdout);
    if s.outcome.Fail? then s else CheckOutputOf(s.st, "stderr", errPath, c.stderr)
  }

  /**
   * What `Run` does, as a function of the state before it: set up stdin,
   * open the outputs, let the child write (each stream to the file it is
   * redirected to, a merged stream to the other one's), register the
   * command's cleanups, check the exit status, check the outputs.
   */
  function RunOf(wd: Path, st: State, c: Command, ci: nat, child: Child): Step
    requires !c.stdin.RdMerge?
  {
    match StdinDescriptor(wd, st.entries, c.stdin)
    case Err(e) => Step(Fail(e), st)
    case Ok(_) => RunOpened(wd, c, child, OpenOutputsOf(wd, st, c, ci))
  }

  /** The run once the outputs were (or failed to be) opened. */
  function RunOpened(wd: Path, c: Command, child: Child, os: Openings): Step
  {
    if os.out.d.Err? then Step(Fail(os.out.d.error), os.err.st)
    else if os.err.d.Err? then Step(Fail(os.err.d.error), os.err.st)
    else if child.SpawnFailed? then Step(Fail(UnableToExecute), os.err.st)
    else RunExited(wd, c, child, os)
  }

  /** The files after the child wrote its two streams. */
  function Written(os: Openings, child: Child): Entries
    requires os.out.d.Ok? && os.err.d.Ok? && child.Exited?
  {
    var outTo := Destination(os.out.d.value, os.err.d.value, 2);
    var errTo := Destination(os.err.d.value, os.out.d.value, 1);
    Emit(Emit(os.err.st.entries, outTo, child.out), errTo, child.err)
  }

  /** The run once the child exited: cleanups, exit status, outputs. */
  function RunExited(wd: Path, c: Command, child: Child, os: Openings): Step
    requires os.out.d.Ok? && os.err.d.Ok? && child.Exited?
  {
    var reg := RegisterOf(wd, os.err.st.cleanups, c.cleanups);
    var st' := State(Written(os, child), reg.cleanups);
    if reg.outcome.Fail? then Step(reg.outcome, st')
    else match ExitDiag(child.status, c.exit)
      case Some(d) => Step(Fail(d), st')
      case None => CheckOutputsOf(st', os.out.path, os.err.path, c)
  }

  /** Opening never drops a registered cleanup. */
  lemma OpenOutputsGrows(wd: Path, st: State, c: Command, ci: nat)
    ensures st.cleanups <= OpenOutputsOf(wd, st, c, ci).err.st.cleanups
  {
    var o := OpenOutputOf(wd, st, c.stdout, 1, ci);
    assert st.cleanups <= o.st.cleanups;
  }

  /** Checking the outputs never drops a registered cleanup. */
  lemma CheckOutputsGrows(st: State, outPath: Path, errPath: Path, c: Command)
    ensures st.cleanups <= CheckOutputsOf(st, outPath, errPath, c).st.cleanups
  {
    var s := CheckOutputOf(st, "stdout", outPath, c.stdout);
    assert st.cleanups <= s.st.cleanups;
  }

  /** After the child exited, passing needs the cleanups to resolve and the status to be correct. */
  lemma RunExitedPass(wd: Path, c: Command, child: Child, os: Openings)
    requires os.out.d.Ok? && os.err.d.Ok? && child.Exited?
    requires RunExited(wd, c, child, os).outcome.Pass?
    ensures CorrectStatus(child.status, c.exit) && ResolveAll(wd, c.cleanups).Ok?
    ensures os.err.st.cleanups + ResolveAll(wd, c.cleanups).value <= RunExited(wd, c, child, os).st.cleanups
  {
    var reg := RegisterOf(wd, os.err.st.cleanups, c.cleanups);
    RegisterOfResolves(wd, os.err.st.cleanups, c.cleanups);
    CheckOutputsGrows(State(Written(os, child), reg.cleanups), os.out.path, os.err.path, c);
  }

  /**
   * A command passes only if stdin could be set up, the child ran with a
   * correct exit status and all its cleanups resolved; then every cleanup
   * is registered and nothing registered before is dropped.
   */
  lemma RunPassRequires(wd: Path, st: State, c: Command, ci: nat, child: Child)
    requires !c.stdin.RdMerge?
    requires RunOf(wd, st, c, ci, child).outcome.Pass?
    ensures StdinDescriptor(wd, st.entries, c.stdin).Ok?
    ensures child.Exited? && CorrectStatus(child.status, c.exit)
    ensures ResolveAll(wd, c.cleanups).Ok?
    ensures st.cleanups <= RunOf(wd, st, c, ci, child).st.cleanups
    ensures forall p :: p in ResolveAll(wd, c.cleanups).value ==> p in RunOf(wd, st, c, ci, child).st.cleanups
  {
    var os := OpenOutputsOf(wd, st, c, ci);
    assert RunOpened(wd, c, child, os) == RunOf(wd, st, c, ci, child);
    OpenOutputsGrows(wd, st, c, ci);
    RunExitedPass(wd, c, child, os);
    var r := RunExited(wd, c, child, os).st.cleanups;
    var cs := ResolveAll(wd, c.cleanups).value;
    forall p | p in cs ensures p in r {
      var i :| 0 <= i < |cs| && cs[i] == p;
      assert r[|os.err.st.cleanups| + i] == p;
    }
  }

  /** The text a captured stdout receives: the child's stdout, then its stderr when that is merged in. */
  function Captured(c: Command, child: Child): string
    requires child.Exited?
  {
    if c.stderr == RdMerge(1) then child.out + child.err else child.out
  }

  /** Capturing stdout opens a fresh file; stderr passed, discarded or merged opens nothing. */
  lemma CaptureOpened(wd: Path, st: State, c: Command, ci: nat)
    requires c.stdout.RdNone? || c.stdout.RdHereString? || c.stdout.RdHereDocument?
    requires c.stderr.RdPass? || c.stderr.RdNull? || c.stderr == RdMerge(1)
    requires OpenOutputsOf(wd, st, c, ci).err.d.Ok?
    ensures var os := OpenOutputsOf(wd, st, c, ci);
      && os.out.d == Ok(Opened(os.out.path)) && ParentIsDir(st.entries, os.out.path.comps)
      && os.err.st.entries == st.entries[os.out.path.comps := File("")]
      && os.err.d == Ok(if c.stderr.RdPass? then Fd(2) else if c.stderr.RdNull? then Fd(-2) else Fd(1))
  {
  }

  /** The captured file then holds exactly what the child wrote to it. */
  lemma CaptureWritten(c: Command, child: Child, os: Openings, m0: Entries)
    requires c.stderr.RdPass? || c.stderr.RdNull? || c.stderr == RdMerge(1)
    requires child.Exited? && os.out.d == Ok(Opened(os.out.path))
    requires ParentIsDir(m0, os.out.path.comps) && os.err.st.entries == m0[os.out.path.comps := File("")]
    requires os.err.d == Ok(if c.stderr.RdPass? then Fd(2) else if c.stderr.RdNull? then Fd(-2) else Fd(1))
    ensures os.out.path.comps in Written(os, child)
    ensures Written(os, child)[os.out.path.comps] == File(Captured(c, child))
  {
    var k := os.out.path.comps;
    assert ParentIsDir(os.err.st.entries, k) by {
      assert k[..|k| - 1] != k;
    }
    assert OpenWriteOf(os.err.st.entries, k, true).Some?;
    assert "" + child.out == child.out;
    var m2 := Emit(os.err.st.entries, Opened(os.out.path), child.out);
    assert m2 == os.err.st.entries[k := File(child.out)];
  }

  /** A passing output check on a capture looked at the capture's own content. */
  lemma CheckedCapture(st: State, p: Path, r: Redirect, text: string)
    requires p.comps != [] && p.comps in st.entries && st.entries[p.comps] == File(text)
    requires r.RdNone? || r.RdHereString? || r.RdHereDocument?
    requires CheckOutputOf(st, "stdout", p, r).outcome.Pass?
    ensures r.RdNone? ==> text == ""
    ensures !r.RdNone? ==> StripCR(text) == StripCR(HereText(r))
  {
    if !r.RdNone? {
      var orp := AppendToLeaf(p, ".orig");
      assert orp.comps[|p.comps| - 1] != p.comps[|p.comps| - 1] by {
        assert |orp.comps[|p.comps| - 1]| > |p.comps[|p.comps| - 1]|;
      }
      var m' := OpenWriteOf(st.entries, orp.comps, false).value[orp.comps := File(HereText(r))];
      assert Matches(m', p, HereText(r));
      assert m'[p.comps] == st.entries[p.comps];
    }
  }

  /**
   * With stdout captured for checking (and stderr passed, discarded or
   * merged into it), a passing command wrote nothing to it when `none` was
   * expected, and otherwise exactly the expected text up to line-ending
   * carriage returns.
   */
  lemma RunChecksCapturedOutput(wd: Path, st: State, c: Command, ci: nat, child: Child)
    requires !c.stdin.RdMerge?
    requires c.stdout.RdNone? || c.stdout.RdHereString? || c.stdout.RdHereDocument?
    requires c.stderr.RdPass? || c.stderr.RdNull? || c.stderr == RdMerge(1)
    requires RunOf(wd, st, c, ci, child).outcome.Pass?
    ensures child.Exited?
    ensures c.stdout.RdNone? ==> Captured(c, child) == ""
    ensures !c.stdout.RdNone? ==> StripCR(Captured(c, child)) == StripCR(HereText(c.stdout))
  {
    var os := OpenOutputsOf(wd, st, c, ci);
    assert RunOpened(wd, c, child, os) == RunOf(wd, st, c, ci, child);
    CaptureOpened(wd, st, c, ci);
    CaptureWritten(c, child, os, st.entries);
    var reg := RegisterOf(wd, os.err.st.cleanups, c.cleanups);
    var st' := State(Written(os, child), reg.cleanups);
    assert CheckOutputsOf(st', os.out.path, os.err.path, c) == RunOf(wd, st, c, ci, child);
    CheckedCapture(st', os.out.path, c.stdout, Captured(c, child));
  }

  /**
   * A command whose outputs are passed through or discarded, whose child
   * exits with a correct status and whose cleanups all resolve passes,
   * registers its cleanups and changes no file.
   */
  lemma RunPlainPasses(wd: Path, st: State, c: Command, ci: nat, child: Child)
    requires c.stdin.RdPass? || c.stdin.RdNull? || c.stdin.RdNone? || c.stdin.RdHereString? || c.stdin.RdHereDocument?
    requires (c.stdout.RdPass? || c.stdout.RdNull?) && (c.stderr.RdPass? || c.stderr.RdNull?)
    requires child.Exited? && CorrectStatus(child.status, c.exit)
    requires ResolveAll(wd, c.cleanups).Ok?
    ensures RunOf(wd, st, c, ci, child) == Step(Pass, State(st.entries, st.cleanups + ResolveAll(wd, c.cleanups).value))
  {
    RegisterOfResolves(wd, st.cleanups, c.cleanups);
  }

  /** Opens the command's stdout, then, if that succeeds, its stderr. */
  method OpenOutputs(sp: Scope, fs: FS, c: Command, ci: nat)
    returns (out: Result<Descriptor, Diag>, err: Result<Descriptor, Diag>, outPath: Path, errPath: Path)
    modifies sp`cleanups, fs
    ensures old(sp.cleanups) <= sp.cleanups
    ensures !OpensFile(c.stdout) && !OpensFile(c.stderr) ==>
      out.Ok? && err.Ok? && sp.cleanups == old(sp.cleanups) && fs.entries == old(fs.entries)
    ensures
      var os := OpenOutputsOf(sp.wdPath, State(old(fs.entries), old(sp.cleanups)), c, ci);
      && out == os.out.d && outPath == os.out.path
      && err == os.err.d && errPath == os.err.path
      && State(fs.entries, sp.cleanups) == os.err.st
  {
    out, outPath := OpenOutput(sp, fs, c.stdout, 1, ci);
    err, errPath := Err(UnableToExecute), outPath;
    if out.Ok? {
      err, errPath := OpenOutput(sp, fs, c.stderr, 2, ci);
    }
  }

  /** Checks the command's stdout, then, if that passes, its stderr. */
  method CheckOutputs(sp: Scope, fs: FS, outPath: Path, errPath: Path, c: Command) returns (o: Outcome<Diag>)
    modifies sp`cleanups, fs
    ensures old(sp.cleanups) <= sp.cleanups
    ensures (!(c.stdout.RdNone? || c.stdout.RdHereString? || c.stdout.RdHereDocument?) &&
             !(c.stderr.RdNone? || c.stderr.RdHereString? || c.stderr.RdHereDocument?)) ==>
      o.Pass? && sp.cleanups == old(sp.cleanups) && fs.entries == old(fs.entries)
    ensures Step(o, State(fs.entries, sp.cleanups)) ==
      CheckOutputsOf(State(old(fs.entries), old(sp.cleanups)), outPath, errPath, c)
  {
    o := CheckOutput(sp, fs, "stdout", outPath, c.stdout);
    if o.Fail? {
      return o;
    }
    o := CheckOutput(sp, fs, "stderr", errPath, c.stderr);
  }

  // Entering and leaving a scope

  /**
   * Creates the working directory if it does not exist, fails if it exists
   * and is not empty, and registers it for cleanup.
   */
  method Enter(sp: Scope, fs: FS) returns (o: Outcome<Diag>)
    modifies sp`cleanups, fs
    ensures o.Pass? <==>
      if IsDir(old(fs.entries), sp.wdPath.comps) then !HasChildren(old(fs.entries), sp.wdPath.comps)
      else MkdirOf(old(fs.entries), sp.wdPath.comps).Some?
    ensures o.Pass? ==> sp.cleanups == old(sp.cleanups) + [sp.wdPath]
    ensures o.Pass? ==>
      IsDir(fs.entries, sp.wdPath.comps) && fs.entries == MkdirOf(old(fs.entries), sp.wdPath.comps).value
    ensures !o.Pass? ==> sp.cleanups == old(sp.cleanups) && fs.entries == old(fs.entries)
  {
    if !IsDir(fs.entries, sp.wdPath.comps) {
      var ok := fs.Mkdir(sp.wdPath);
      if !ok {
        return Fail(MkdirFailed(sp.wdPath));
      }
    } else if HasChildren(fs.entries, sp.wdPath.comps) {
      return Fail(WorkDirNotEmpty(sp.wdPath));
    }
    sp.cleanups := sp.cleanups + [sp.wdPath];
    o := Pass;
  }

  /**
   * The paths `leave` acts on, in order: walking the registrations from
   * the last to the first and keeping each path the first time it is seen
   * (those in `seen` count as already seen).
   */
  function FirstSeen(cs: seq<Path>, seen: set<Path>): seq<Path>
    decreases |cs|
  {
    if cs == [] then []
    else
      var p := cs[|cs| - 1];
      if p in seen then FirstSeen(cs[..|cs| - 1], seen)
      else [p] + FirstSeen(cs[..|cs| - 1], seen + {p})
  }

  function Visits(cs: seq<Path>): seq<Path>
  {
    FirstSeen(cs, {})
  }

  /** The last position at which `p` was registered, or -1. */
  function LastIndex<T(==)>(cs: seq<T>, p: T): (i: int)
    ensures -1 <= i < |cs|
    ensures i >= 0 ==> cs[i] == p
    decreases |cs|
  {
    if cs == [] then -1
    else if cs[|cs| - 1] == p then |cs| - 1
    else LastIndex(cs[..|cs| - 1], p)
  }

  /** No registration of `p` comes after its last one, and a registered path has one. */
  lemma {:induction false} LastIndexIsLast<T>(cs: seq<T>, p: T)
    ensures forall j :: LastIndex(cs, p) < j < |cs| ==> cs[j] != p
    ensures p in cs <==> LastIndex(cs, p) >= 0
    decreases |cs|
  {
    if cs != [] && cs[|cs| - 1] != p {
      var init := cs[..|cs| - 1];
      LastIndexIsLast(init, p);
      assert cs == init + [cs[|cs| - 1]];
      assert p in cs <==> p in init;
    }
  }

  /** Without a new registration of `p`, its last registration stays where it was. */
  lemma LastIndexDrop<T>(cs: seq<T>, x: T)
    requires cs != [] && x != cs[|cs| - 1]
    ensures LastIndex(cs, x) == LastIndex(cs[..|cs| - 1], x)
  {
  }

  /** The paths `leave` acts on are those registered and not already seen. */
  lemma {:induction false} FirstSeenMembers(cs: seq<Path>, seen: set<Path>)
    ensures forall x :: x in FirstSeen(cs, seen) <==> x in cs && x !in seen
    decreases |cs|
  {
    if cs != [] {
      var p := cs[|cs| - 1];
      var init := cs[..|cs| - 1];
      assert cs == init + [p];
      if p in seen {
        FirstSeenMembers(init, seen);
      } else {
        FirstSeenMembers(init, seen + {p});
        forall x ensures x in FirstSeen(cs, seen) <==> x in cs && x !in seen {
          if x in cs && x != p {
            assert x in init by {
              var k :| 0 <= k < |cs| && cs[k] == x;
              assert k < |init| && init[k] == x;
            }
          }
        }
      }
    }
  }

  /** A registered path has a last registration. */
  lemma LastIndexFound<T>(cs: seq<T>, x: T)
    requires x in cs
    ensures 0 <= LastIndex(cs, x) < |cs|
  {
    LastIndexIsLast(cs, x);
  }

  /** Each path of `v` was last registered in `cs` later than the ones after it. */
  predicate LastOrdered<T(==)>(cs: seq<T>, v: seq<T>)
  {
    forall i, j :: 0 <= i < j < |v| ==> LastIndex(cs, v[i]) > LastIndex(cs, v[j]) >= 0
  }

  /** The paths `leave` acts on come in the order of their last registration, latest first. */
  lemma {:induction false} FirstSeenOrder(cs: seq<Path>, seen: set<Path>)
    ensures LastOrdered(cs, FirstSeen(cs, seen))
    decreases |cs|
  {
    if cs != [] {
      var p := cs[|cs| - 1];
      var init := cs[..|cs| - 1];
      var s' := if p in seen then seen else seen + {p};
      FirstSeenOrder(init, s');
      FirstSeenMembers(init, s');
      var rest := FirstSeen(init, s');
      OrderedExtend(cs, rest);
      if p !in seen {
        OrderedPrepend(cs, rest);
        assert [p] + rest == FirstSeen(cs, seen);
      } else {
        assert rest == FirstSeen(cs, seen);
      }
    }
  }

  /** An order by last registration survives one more registration of a path not in it. */
  lemma OrderedExtend<T>(cs: seq<T>, rest: seq<T>)
    requires cs != []
    requires forall x :: x in rest ==> x in cs[..|cs| - 1] && x != cs[|cs| - 1]
    requires LastOrdered(cs[..|cs| - 1], rest)
    ensures LastOrdered(cs, rest)
    ensures forall i :: 0 <= i < |rest| ==> 0 <= LastIndex(cs, rest[i]) < |cs| - 1
  {
    var init := cs[..|cs| - 1];
    forall i | 0 <= i < |rest| ensures 0 <= LastIndex(cs, rest[i]) == LastIndex(init, rest[i]) < |init| {
      assert rest[i] in rest;
      LastIndexFound(init, rest[i]);
      LastIndexDrop(cs, rest[i]);
    }
  }

  /** The path registered last comes before every path registered only earlier. */
  lemma OrderedPrepend<T>(cs: seq<T>, rest: seq<T>)
    requires cs != [] && LastOrdered(cs, rest)
    requires forall i :: 0 <= i < |rest| ==> 0 <= LastIndex(cs, rest[i]) < |cs| - 1
    ensures LastOrdered(cs, [cs[|cs| - 1]] + rest)
  {
    var c := cs[|cs| - 1];
    var v := [c] + rest;
    assert LastIndex(cs, c) == |cs| - 1;
    forall i, j | 0 <= i < j < |v| ensures LastIndex(cs, v[i]) > LastIndex(cs, v[j]) >= 0 {
      var b := rest[j - 1];
      assert v[j] == b;
      assert 0 <= LastIndex(cs, b) < |cs| - 1;
      if i > 0 {
        var a := rest[i - 1];
        assert v[i] == a;
        assert LastIndex(cs, a) > LastIndex(cs, b);
      } else {
        assert v[i] == c;
      }
    }
  }

  lemma FirstSeenShape(cs: seq<Path>, seen: set<Path>)
    ensures var v := FirstSeen(cs, seen);
      && (forall x :: x in v <==> x in cs && x !in seen)
      && LastOrdered(cs, v)
  {
    FirstSeenMembers(cs, seen);
    FirstSeenOrder(cs, seen);
  }

  /**
   * `leave` acts on every registered path exactly once, in the order of
   * their last registration from the latest to the earliest.
   */
  lemma VisitsOrder(cs: seq<Path>)
    ensures forall x :: x in Visits(cs) <==> x in cs
    ensures forall i, j :: 0 <= i < j < |Visits(cs)| ==> Visits(cs)[i] != Visits(cs)[j]
    ensures forall i, j :: 0 <= i < j < |Visits(cs)| ==>
      LastIndex(cs, Visits(cs)[i]) > LastIndex(cs, Visits(cs)[j])
  {
    FirstSeenShape(cs, {});
  }

  /** The diagnostic for removing one registered path, if it fails. */
  function RemovalDiag(p: Path, m: Entries): Option<Diag>
  {
    if p.dir then
      match RmdirOf(m, p.comps).status
      case RmdirSuccess => None
      case RmdirNotEmpty => Some(DirNotEmpty(p))
      case RmdirNotExist => Some(DirNotExist(p))
      case RmdirError => Some(RemoveFailed(p))
    else
      match RmfileOf(m, p.comps).status
      case RmfileSuccess => None
      case RmfileNotExist => Some(FileNotExist(p))
      case RmfileError => Some(RemoveFailed(p))
  }

  /** The entries after removing one registered path (unchanged when it fails). */
  function RemovalOf(p: Path, m: Entries): (r: Entries)
    ensures RemovalDiag(p, m).None? ==> p.comps != [] && p.comps in m && r == m - {p.comps}
    ensures RemovalDiag(p, m).Some? ==> r == m
  {
    if p.dir then RmdirOf(m, p.comps).entries else RmfileOf(m, p.comps).entries
  }

  datatype Teardown = Teardown(entries: Entries, outcome: Outcome<Diag>)

  /**
   * Removes the paths in order, a directory only when empty, stopping at
   * the first failure. It only ever removes entries: whatever remains is
   * as it was, and it fails only with the diagnostic of one of the paths.
   */
  function TeardownOf(m: Entries, vs: seq<Path>): (t: Teardown)
    ensures forall k :: k in t.entries ==> k in m && t.entries[k] == m[k]
    ensures t.outcome.Fail? ==> exists i :: 0 <= i < |vs| && Some(t.outcome.error) == RemovalDiag(vs[i], t.entries)
    decreases |vs|
  {
    if vs == [] then Teardown(m, Pass)
    else match RemovalDiag(vs[0], m)
      case Some(d) => Teardown(m, Fail(d))
      case None => TeardownOf(RemovalOf(vs[0], m), vs[1..])
  }

  /** A successful teardown removed every visited path and touched nothing else. */
  lemma {:induction false} TeardownRemoves(m: Entries, vs: seq<Path>)
    requires TeardownOf(m, vs).outcome.Pass?
    ensures forall i :: 0 <= i < |vs| ==> vs[i].comps !in TeardownOf(m, vs).entries
    ensures forall k :: k in TeardownOf(m, vs).entries ==> k in m && TeardownOf(m, vs).entries[k] == m[k]
    decreases |vs|
  {
    if vs != [] {
      var m' := RemovalOf(vs[0], m);
      TeardownRemoves(m', vs[1..]);
      forall i | 0 <= i < |vs| ensures vs[i].comps !in TeardownOf(m, vs).entries {
        if i > 0 { assert vs[i] == vs[1..][i - 1]; }
      }
    }
  }

  /** A successful leave removed every path registered for cleanup. */
  lemma LeaveRemovesAll(m: Entries, cs: seq<Path>)
    requires TeardownOf(m, Visits(cs)).outcome.Pass?
    ensures forall p :: p in cs ==> p.comps !in TeardownOf(m, Visits(cs)).entries
  {
    VisitsOrder(cs);
    TeardownRemoves(m, Visits(cs));
    forall p | p in cs ensures p.comps !in TeardownOf(m, Visits(cs)).entries {
      var i :| 0 <= i < |Visits(cs)| && Visits(cs)[i] == p;
    }
  }

  /** Entering a fresh working directory and leaving at once restores the filesystem. */
  lemma EnterLeaveRestores(m: Entries, wd: Path)
    requires wd.dir && !IsDir(m, wd.comps) && !HasChildren(m, wd.comps)
    requires MkdirOf(m, wd.comps).Some?
    ensures TeardownOf(MkdirOf(m, wd.comps).value, Visits([wd])) == Teardown(m, Pass)
  {
    var k := wd.comps;
    var m' := m[k := Dir];
    assert [wd][..|[wd]| - 1] == [];
    assert FirstSeen([wd], {}) == [wd] + FirstSeen([], {wd});
    assert m' - {k} == m;
  }

  /**
   * Removes the registered paths in the order opposite to their
   * registration, each distinct path once, failing at the first directory
   * that is not removed or file that does not exist.
   */
  method Leave(sp: Scope, fs: FS) returns (o: Outcome<Diag>)
    modifies fs
    ensures Teardown(fs.entries, o) == TeardownOf(old(fs.entries), Visits(sp.cleanups))
  {
    var cs := sp.cleanups;
    var rp: set<Path> := {};
    var i := |cs|;
    assert cs[..i] == cs;
    while i > 0
      invariant 0 <= i <= |cs|
      invariant TeardownOf(old(fs.entries), Visits(cs)) == TeardownOf(fs.entries, FirstSeen(cs[..i], rp))
    {
      var p := cs[i - 1];
      assert cs[..i][..i - 1] == cs[..i - 1];
      if p !in rp {
        rp := rp + {p};
        var bad := RemovalDiag(p, fs.entries);
        if p.dir {
          var st := fs.Rmdir(p);
        } else {
          var st := fs.Rmfile(p);
        }
        if bad.Some? {
          return Fail(bad.value);
        }
      }
      i := i - 1;
    }
    assert cs[..0] == [];
    return Pass;
  }
}
