/**
 * An abstract filesystem: a map from the components of a path to a file
 * (with its content) or a directory. The root directory always exists and
 * is not stored. The operations follow POSIX: a directory can only be
 * removed when it is empty, and an entry can only be created inside an
 * existing directory.
 */
module FileSystem {
  import opened Wrappers
  import opened Paths

  datatype Entry = File(content: string) | Dir

  type Entries = map<seq<string>, Entry>

  predicate IsDir(m: Entries, k: seq<string>)
  {
    k == [] || (k in m && m[k].Dir?)
  }

  predicate IsFile(m: Entries, k: seq<string>)
  {
    k in m && m[k].File?
  }

  /** Some entry lies strictly below `d`. */
  predicate HasChildren(m: Entries, d: seq<string>)
  {
    exists k :: k in m && |d| < |k| && k[..|d|] == d
  }

  predicate ParentIsDir(m: Entries, k: seq<string>)
  {
    k != [] && IsDir(m, k[..|k| - 1])
  }

  datatype RmdirStatus = RmdirSuccess | RmdirNotExist | RmdirNotEmpty | RmdirError
  datatype RmfileStatus = RmfileSuccess | RmfileNotExist | RmfileError

  datatype Rmdired = Rmdired(entries: Entries, status: RmdirStatus)
  datatype Rmfiled = Rmfiled(entries: Entries, status: RmfileStatus)

  /** Removing an empty directory; a file in its place or the root is an error. */
  function RmdirOf(m: Entries, k: seq<string>): (r: Rmdired)
    ensures r.status == RmdirSuccess <==> k != [] && k in m && m[k].Dir? && !HasChildren(m, k)
    ensures r.status == RmdirSuccess ==> r.entries == m - {k}
    ensures r.status != RmdirSuccess ==> r.entries == m
    ensures r.status == RmdirNotExist <==> k != [] && k !in m
  {
    if k == [] then Rmdired(m, RmdirError)
    else if k !in m then Rmdired(m, RmdirNotExist)
    else if m[k].File? then Rmdired(m, RmdirError)
    else if HasChildren(m, k) then Rmdired(m, RmdirNotEmpty)
    else Rmdired(m - {k}, RmdirSuccess)
  }

  /** Removing a file; a directory in its place is an error. */
  function RmfileOf(m: Entries, k: seq<string>): (r: Rmfiled)
    ensures r.status == RmfileSuccess <==> k != [] && IsFile(m, k)
    ensures r.status == RmfileSuccess ==> r.entries == m - {k}
    ensures r.status != RmfileSuccess ==> r.entries == m
    ensures r.status == RmfileNotExist <==> k != [] && k !in m
  {
    if k == [] then Rmfiled(m, RmfileError)
    else if k !in m then Rmfiled(m, RmfileNotExist)
    else if m[k].Dir? then Rmfiled(m, RmfileError)
    else Rmfiled(m - {k}, RmfileSuccess)
  }

  /**
   * Creating a directory. An existing directory is left alone (the "already
   * exists" status); a file in its place or a missing parent is an error.
   */
  function MkdirOf(m: Entries, k: seq<string>): (r: Option<Entries>)
    ensures r.Some? <==> IsDir(m, k) || (k !in m && ParentIsDir(m, k))
    ensures r.Some? && !IsDir(m, k) ==> r.value == m[k := Dir]
    ensures r.Some? && IsDir(m, k) ==> r.value == m
    ensures r.Some? ==> IsDir(r.value, k)
  {
    if IsDir(m, k) then Some(m)
    else if k !in m && ParentIsDir(m, k) then Some(m[k := Dir])
    else None
  }

  /**
   * Opening a file for writing: creates it in an existing directory, and
   * truncates it unless appending. Fails for a directory or a missing parent.
   */
  function OpenWriteOf(m: Entries, k: seq<string>, append: bool): (r: Option<Entries>)
    ensures r.Some? <==> ParentIsDir(m, k) && !IsDir(m, k)
    ensures r.Some? ==> r.value == m[k := File(if append && k in m then m[k].content else "")]
  {
    if ParentIsDir(m, k) && !IsDir(m, k) then
      Some(m[k := File(if append && k in m then m[k].content else "")])
    else None
  }

  /** Opening a file for writing and writing `content` at its end; unchanged when it cannot be opened. */
  function WriteOf(m: Entries, k: seq<string>, append: bool, content: string): (r: Entries)
    ensures OpenWriteOf(m, k, append).Some? ==>
      r == m[k := File((if append && k in m then m[k].content else "") + content)]
    ensures OpenWriteOf(m, k, append).None? ==> r == m
  {
    match OpenWriteOf(m, k, append)
    case None => m
    case Some(o) => o[k := File(o[k].content + content)]
  }

  class FS {
    var entries: Entries

    constructor (init: Entries)
      ensures entries == init
    {
      entries := init;
    }

    method Rmdir(p: Path) returns (st: RmdirStatus)
      modifies this
      ensures entries == RmdirOf(old(entries), p.comps).entries
      ensures st == RmdirOf(old(entries), p.comps).status
    {
      var r := RmdirOf(entries, p.comps);
      entries := r.entries;
      st := r.status;
    }

    method Rmfile(p: Path) returns (st: RmfileStatus)
      modifies this
      ensures entries == RmfileOf(old(entries), p.comps).entries
      ensures st == RmfileOf(old(entries), p.comps).status
    {
      var r := RmfileOf(entries, p.comps);
      entries := r.entries;
      st := r.status;
    }

    method Mkdir(p: Path) returns (ok: bool)
      modifies this
      ensures ok == MkdirOf(old(entries), p.comps).Some?
      ensures entries == MkdirOf(old(entries), p.comps).GetOr(old(entries))
    {
      var r := MkdirOf(entries, p.comps);
      ok := r.Some?;
      entries := r.GetOr(entries);
    }

    /** Opens `p` for writing, truncating it unless appending; false if it cannot be opened. */
    method Open(p: Path, append: bool) returns (ok: bool)
      modifies this
      ensures ok == OpenWriteOf(old(entries), p.comps, append).Some?
      ensures entries == OpenWriteOf(old(entries), p.comps, append).GetOr(old(entries))
    {
      var r := OpenWriteOf(entries, p.comps, append);
      ok := r.Some?;
      entries := r.GetOr(entries);
    }

    /** Opens `p` for writing and writes `content` at its end; false if it cannot be opened. */
    method Write(p: Path, append: bool, content: string) returns (ok: bool)
      modifies this
      ensures ok == OpenWriteOf(old(entries), p.comps, append).Some?
      ensures ok ==> entries == old(entries)[p.comps := File(
        (if append && p.comps in old(entries) then old(entries)[p.comps].content else "") + content)]
      ensures !ok ==> entries == old(entries)
      ensures entries == WriteOf(old(entries), p.comps, append, content)
    {
      var r := OpenWriteOf(entries, p.comps, append);
      ok := r.Some?;
      if ok {
        entries := r.value[p.comps := File(r.value[p.comps].content + content)];
      }
    }
  }
}
