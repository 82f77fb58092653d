/**
 * Filesystem paths as structured values: whether the path is absolute, its
 * components, and whether it names a directory (written with a trailing
 * separator). The textual form uses '/' as the separator.
 */
module Paths {
  import opened Wrappers
  import opened Strings

  datatype Path = Path(absolute: bool, comps: seq<string>, dir: bool)

  const EmptyPath: Path := Path(false, [], false)
  const RootPath: Path := Path(true, [], true)

  predicate IsEmpty(p: Path)
  {
    !p.absolute && p.comps == []
  }

  /** Components are non-empty and separator-free; a path without components is the root or empty. */
  predicate WellFormed(p: Path)
  {
    && (forall i :: 0 <= i < |p.comps| ==> p.comps[i] != [] && '/' !in p.comps[i])
    && (p.comps == [] ==> p.dir == p.absolute)
  }

  // Textual form

  /** The pieces whose '/'-join is the textual form of `p`. */
  function Pieces(p: Path): seq<string>
  {
    if p.comps == [] then (if p.absolute then ["", ""] else [])
    else (if p.absolute then [""] else []) + p.comps + (if p.dir then [""] else [])
  }

  /** The textual form of a path: a leading '/' when absolute, a trailing one when a directory. */
  function ToString(p: Path): string
  {
    Join(Pieces(p), '/')
  }

  /** The path denoted by a text: empty pieces between separators are dropped. */
  function Parse(s: string): (p: Path)
    ensures WellFormed(p)
  {
    var comps := NonEmptyPieces(s, '/');
    var abs := s != [] && s[0] == '/';
    var dir := s != [] && s[|s| - 1] == '/';
    var r := Path(abs, comps, if comps == [] then abs else dir);
    assert forall i :: 0 <= i < |comps| ==> comps[i] != [] && '/' !in comps[i] by {
      forall i | 0 <= i < |comps| ensures comps[i] != [] && '/' !in comps[i] {
        assert comps[i] in Split(s, '/');
      }
    }
    r
  }

  lemma {:induction false} JoinFirst(parts: seq<string>, sep: char)
    requires |parts| >= 2
    ensures Join(parts, sep) != []
    ensures Join(parts, sep)[0] == if parts[0] == [] then sep else parts[0][0]
  {
    assert Join(parts, sep) == parts[0] + [sep] + Join(parts[1..], sep);
  }

  lemma {:induction false} JoinLast(parts: seq<string>, sep: char)
    requires |parts| >= 2
    ensures var s := Join(parts, sep);
      s != [] && s[|s| - 1] == if parts[|parts| - 1] == [] then sep else parts[|parts| - 1][|parts[|parts| - 1]| - 1]
    decreases |parts|
  {
    var s := Join(parts, sep);
    assert s == parts[0] + [sep] + Join(parts[1..], sep);
    if |parts| > 2 {
      JoinLast(parts[1..], sep);
      assert parts[1..][|parts[1..]| - 1] == parts[|parts| - 1];
    } else {
      assert Join(parts[1..], sep) == parts[1];
    }
  }

  lemma {:induction false} DropEmptyKeeps(parts: seq<string>, comps: seq<string>, pre: bool, post: bool)
    requires forall i :: 0 <= i < |comps| ==> comps[i] != []
    requires parts == (if pre then [""] else []) + comps + (if post then [""] else [])
    ensures DropEmpty(parts) == comps
    decreases |parts|
  {
    if pre {
      assert parts[1..] == comps + (if post then [""] else []);
      DropEmptyKeeps(parts[1..], comps, false, post);
    } else if comps == [] {
      if post { assert DropEmpty(parts) == DropEmpty(parts[1..]); assert parts[1..] == []; }
    } else {
      assert parts[0] == comps[0];
      assert parts[1..] == comps[1..] + (if post then [""] else []);
      DropEmptyKeeps(parts[1..], comps[1..], false, post);
    }
  }

  lemma ParseToStringNoComps(p: Path)
    requires WellFormed(p) && p.comps == []
    ensures Parse(ToString(p)) == p
  {
    var s := ToString(p);
    if p.absolute {
      var parts := Pieces(p);
      assert parts == ["", ""];
      SplitJoin(parts, '/');
      DropEmptyKeeps(parts, [], true, true);
      JoinFirst(parts, '/');
    } else {
      assert s == [];
      assert Split(s, '/') == [""];
    }
  }

  lemma ParseToStringSingle(p: Path)
    requires WellFormed(p) && p.comps != [] && |Pieces(p)| == 1
    ensures Parse(ToString(p)) == p
  {
    var parts := Pieces(p);
    assert parts == p.comps && !p.absolute && !p.dir;
    var s := ToString(p);
    assert s == p.comps[0];
    SplitNoSep(s, '/');
    DropEmptyKeeps(parts, p.comps, false, false);
    assert s[0] in p.comps[0];
  }

  lemma ParseToStringMany(p: Path)
    requires WellFormed(p) && p.comps != [] && |Pieces(p)| >= 2
    ensures Parse(ToString(p)) == p
  {
    var parts := Pieces(p);
    assert forall i :: 0 <= i < |parts| ==> '/' !in parts[i];
    SplitJoin(parts, '/');
    DropEmptyKeeps(parts, p.comps, p.absolute, p.dir);
    TextStartsWithSeparator(p);
    TextEndsWithSeparator(p);
  }

  /** With two pieces or more, the text starts with '/' exactly when the path is absolute. */
  lemma TextStartsWithSeparator(p: Path)
    requires WellFormed(p) && p.comps != [] && |Pieces(p)| >= 2
    ensures var s := ToString(p); s != [] && (s[0] == '/' <==> p.absolute)
  {
    var parts := Pieces(p);
    JoinFirst(parts, '/');
    if !p.absolute {
      assert parts[0] == p.comps[0];
      assert p.comps[0][0] in p.comps[0];
    }
  }

  /** With two pieces or more, the text ends with '/' exactly when the path names a directory. */
  lemma TextEndsWithSeparator(p: Path)
    requires WellFormed(p) && p.comps != [] && |Pieces(p)| >= 2
    ensures var s := ToString(p); s != [] && (s[|s| - 1] == '/' <==> p.dir)
  {
    var parts := Pieces(p);
    JoinLast(parts, '/');
    if !p.dir {
      var last := p.comps[|p.comps| - 1];
      assert parts[|parts| - 1] == last;
      assert last[|last| - 1] in last;
    }
  }

  /** Rendering a well-formed path and parsing the text back gives the same path. */
  lemma ParseToString(p: Path)
    requires WellFormed(p)
    ensures Parse(ToString(p)) == p
  {
    if p.comps == [] {
      ParseToStringNoComps(p);
    } else if |Pieces(p)| == 1 {
      ParseToStringSingle(p);
    } else {
      ParseToStringMany(p);
    }
  }

  // Composition

  /** `a / b` for a relative `b`: the components of `b` appended to those of `a`. */
  function Combine(a: Path, b: Path): (r: Path)
    requires !b.absolute
    ensures r.absolute == a.absolute && r.comps == a.comps + b.comps
  {
    Path(a.absolute, a.comps + b.comps, if b.comps == [] then a.dir else b.dir)
  }

  /** The last component extended with `s` (the `path + string` append). */
  function AppendToLeaf(p: Path, s: string): (r: Path)
    ensures r.absolute == p.absolute && r.dir == p.dir
    ensures |r.comps| == if p.comps == [] then 1 else |p.comps|
  {
    if p.comps == [] then Path(p.absolute, [s], p.dir)
    else Path(p.absolute, p.comps[..|p.comps| - 1] + [p.comps[|p.comps| - 1] + s], p.dir)
  }

  /** `p` lies inside directory `d` (or is `d`). */
  predicate Sub(p: Path, d: Path)
  {
    p.absolute == d.absolute && |d.comps| <= |p.comps| && p.comps[..|d.comps|] == d.comps
  }

  /** `p` ends with the relative path `s`. */
  predicate Sup(p: Path, s: Path)
  {
    !s.absolute && |s.comps| <= |p.comps| && p.comps[|p.comps| - |s.comps|..] == s.comps
  }

  /** The part of `p` below directory `d`; absent when `p` is not inside `d`. */
  function Leaf(p: Path, d: Path): (r: Option<Path>)
    ensures r.Some? <==> Sub(p, d)
    ensures r.Some? ==> !r.value.absolute && d.comps + r.value.comps == p.comps
  {
    if Sub(p, d) then
      assert d.comps + p.comps[|d.comps|..] == p.comps by {
        assert p.comps == p.comps[..|d.comps|] + p.comps[|d.comps|..];
      }
      Some(Path(false, p.comps[|d.comps|..], p.dir))
    else None
  }

  /** The index of the last '.' in `s`, or -1 when there is none. */
  function LastDot(s: string): (i: int)
    ensures -1 <= i < |s|
    ensures i >= 0 ==> s[i] == '.'
    ensures forall j :: i < j < |s| ==> s[j] != '.'
    decreases |s|
  {
    if s == [] then -1
    else if s[|s| - 1] == '.' then |s| - 1
    else LastDot(s[..|s| - 1])
  }

  /**
   * The leaf has an extension: its last dot is neither its first character
   * (a hidden file such as ".txt") nor its last one ("txt.").
   */
  predicate HasExtension(p: Path)
  {
    p.comps != [] &&
    var leaf := p.comps[|p.comps| - 1];
    0 < LastDot(leaf) < |leaf| - 1
  }

  /** Examples of the rule: "a.b" has an extension; ".b", "a." and "a.b." do not. */
  lemma HasExtensionExamples(a: string, b: string)
    requires a != [] && b != [] && '.' !in a && '.' !in b
    ensures HasExtension(Path(false, [a + "." + b], false))
    ensures !HasExtension(Path(false, ["." + b], false))
    ensures !HasExtension(Path(false, [a + "."], false))
    ensures !HasExtension(Path(false, [a + "." + b + "."], false))
  {
    var s := a + "." + b;
    assert LastDot(s) == |a| by {
      assert s[|a|] == '.';
      LastDotIs(s, |a|);
    }
    var h := "." + b;
    assert LastDot(h) == 0 by {
      LastDotIs(h, 0);
    }
    assert LastDot(a + ".") == |a|;
    assert LastDot(s + ".") == |s|;
  }

  /** A dot followed by no other dot is the last one. */
  lemma LastDotIs(s: string, i: int)
    requires 0 <= i < |s| && s[i] == '.'
    requires forall j :: i < j < |s| ==> s[j] != '.'
    ensures LastDot(s) == i
    decreases |s|
  {
    if i < |s| - 1 {
      LastDotIs(s[..|s| - 1], i);
    }
  }

  // Normalization

  /** No "." components, and ".." only as a leading run of a relative path. */
  predicate NormalComps(absolute: bool, cs: seq<string>)
  {
    forall i :: 0 <= i < |cs| ==>
      cs[i] != "." && (cs[i] == ".." ==> !absolute && forall j :: 0 <= j < i ==> cs[j] == "..")
  }

  predicate IsNormal(p: Path)
  {
    NormalComps(p.absolute, p.comps)
  }

  /**
   * Lexical normalization: drop ".", let ".." cancel the preceding name.
   * A ".." that would climb above the root of an absolute path is an
   * invalid path.
   */
  function NormalizeComps(absolute: bool, done: seq<string>, rest: seq<string>): Option<seq<string>>
    decreases |rest|
  {
    if rest == [] then Some(done)
    else if rest[0] == "." then NormalizeComps(absolute, done, rest[1..])
    else if rest[0] == ".." then
      if done != [] && done[|done| - 1] != ".." then NormalizeComps(absolute, done[..|done| - 1], rest[1..])
      else if absolute then None
      else NormalizeComps(absolute, done + [".."], rest[1..])
    else NormalizeComps(absolute, done + [rest[0]], rest[1..])
  }

  function Normalize(p: Path): Option<Path>
  {
    match NormalizeComps(p.absolute, [], p.comps)
    case None => None
    case Some(cs) =>
      Some(Path(p.absolute, cs, if cs == [] then p.absolute else p.dir))
  }

  lemma {:induction false} NormalizeCompsNormal(absolute: bool, done: seq<string>, rest: seq<string>)
    requires NormalComps(absolute, done)
    ensures NormalizeComps(absolute, done, rest).Some? ==> NormalComps(absolute, NormalizeComps(absolute, done, rest).value)
    ensures !absolute ==> NormalizeComps(absolute, done, rest).Some?
    decreases |rest|
  {
    if rest != [] {
      if rest[0] == "." {
        NormalizeCompsNormal(absolute, done, rest[1..]);
      } else if rest[0] == ".." {
        if done != [] && done[|done| - 1] != ".." {
          NormalizeCompsNormal(absolute, done[..|done| - 1], rest[1..]);
        } else if !absolute {
          if done != [] {
            assert done[|done| - 1] == "..";
          }
          NormalizeCompsNormal(absolute, done + [".."], rest[1..]);
        }
      } else {
        NormalizeCompsNormal(absolute, done + [rest[0]], rest[1..]);
      }
    }
  }

  lemma {:induction false} NormalizeCompsOfNormal(absolute: bool, done: seq<string>, rest: seq<string>)
    requires NormalComps(absolute, done + rest)
    ensures NormalizeComps(absolute, done, rest) == Some(done + rest)
    decreases |rest|
  {
    if rest != [] {
      var all := done + rest;
      assert all[|done|] == rest[0];
      assert done + [rest[0]] + rest[1..] == all;
      assert rest[0] != ".";
      if rest[0] == ".." {
        assert !absolute;
        assert forall j :: 0 <= j < |done| ==> done[j] == ".." by {
          forall j | 0 <= j < |done| ensures done[j] == ".." { assert all[j] == done[j]; }
        }
        assert done == [] || done[|done| - 1] == "..";
        NormalizeCompsOfNormal(absolute, done + [rest[0]], rest[1..]);
        assert NormalizeComps(absolute, done, rest) == NormalizeComps(absolute, done + [".."], rest[1..]);
      } else {
        NormalizeCompsOfNormal(absolute, done + [rest[0]], rest[1..]);
        assert NormalizeComps(absolute, done, rest) == NormalizeComps(absolute, done + [rest[0]], rest[1..]);
      }
    } else {
      assert done + rest == done;
    }
  }

  /** Normalizing a concatenation is normalizing the second part after the first. */
  lemma {:induction false} NormalizeCompsAppend(absolute: bool, done: seq<string>, a: seq<string>, b: seq<string>)
    ensures NormalizeComps(absolute, done, a + b) ==
      match NormalizeComps(absolute, done, a)
      case None => None
      case Some(d) => NormalizeComps(absolute, d, b)
    decreases |a|
  {
    if a == [] {
      assert a + b == b;
    } else {
      assert (a + b)[0] == a[0];
      assert (a + b)[1..] == a[1..] + b;
      if a[0] == "." {
        NormalizeCompsAppend(absolute, done, a[1..], b);
      } else if a[0] == ".." {
        if done != [] && done[|done| - 1] != ".." {
          NormalizeCompsAppend(absolute, done[..|done| - 1], a[1..], b);
        } else if !absolute {
          NormalizeCompsAppend(absolute, done + [".."], a[1..], b);
        }
      } else {
        NormalizeCompsAppend(absolute, done + [a[0]], a[1..], b);
      }
    }
  }

  /** Without ".." components nothing already normalized is cancelled. */
  lemma {:induction false} NormalizeCompsKeepsDone(absolute: bool, done: seq<string>, rest: seq<string>)
    requires forall i :: 0 <= i < |rest| ==> rest[i] != ".."
    ensures NormalizeComps(absolute, done, rest).Some?
    ensures done <= NormalizeComps(absolute, done, rest).value
    decreases |rest|
  {
    if rest != [] {
      if rest[0] == "." {
        NormalizeCompsKeepsDone(absolute, done, rest[1..]);
      } else {
        NormalizeCompsKeepsDone(absolute, done + [rest[0]], rest[1..]);
      }
    }
  }

  /** Normalizing yields a normal path with the same absoluteness; only an absolute path can fail. */
  lemma NormalizeIsNormal(p: Path)
    ensures Normalize(p).Some? ==> IsNormal(Normalize(p).value) && Normalize(p).value.absolute == p.absolute
    ensures !p.absolute ==> Normalize(p).Some?
  {
    NormalizeCompsNormal(p.absolute, [], p.comps);
  }

  /** A path that is already normal keeps its components when normalized. */
  lemma NormalizeOfNormal(p: Path)
    requires IsNormal(p)
    ensures Normalize(p).Some? && Normalize(p).value.comps == p.comps
  {
    assert [] + p.comps == p.comps;
    NormalizeCompsOfNormal(p.absolute, [], p.comps);
  }

  /** Normalizing twice is the same as normalizing once. */
  lemma NormalizeIdempotent(p: Path)
    requires Normalize(p).Some?
    ensures Normalize(Normalize(p).value) == Normalize(p)
  {
    var q := Normalize(p).value;
    NormalizeIsNormal(p);
    NormalizeOfNormal(q);
  }
}
