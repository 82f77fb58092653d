/**
 * The pure builtin functions of the build language: `sort` with its
 * flags, `size`, `string` of a boolean or an integer, and `null`, `empty`
 * and `quote` on a value.
 *
 * The two overloads of `sort` and `size` (over signed and unsigned 64-bit
 * integers) are modelled once, over mathematical integers: sorting and
 * removing duplicates only compare and move elements, so every element of
 * a result is an element of the argument and stays within its range.
 */
module BuiltinFunctions {
  import opened Wrappers
  import opened Strings

  // Flags

  /** Every flag is `dedup`, the only one `sort` knows. */
  predicate FlagsValid(fs: Option<seq<string>>)
  {
    fs.None? || forall i :: 0 <= i < |fs.value| ==> fs.value[i] == "dedup"
  }

  /** Some flag was given, so duplicates are to be removed. */
  predicate FlagsDedup(fs: Option<seq<string>>)
  {
    fs.Some? && |fs.value| > 0
  }

  /**
   * `functions_sort_flags`: absent flags mean no deduplication, `dedup`
   * asks for it, and the first other flag is rejected with its name.
   */
  method SortFlags(fs: Option<seq<string>>) returns (r: Result<bool, string>)
    ensures r.Ok? <==> FlagsValid(fs)
    ensures r.Ok? ==> (r.value <==> FlagsDedup(fs))
    ensures r.Err? ==> (fs.Some? &&
      exists i :: 0 <= i < |fs.value| && fs.value[i] != "dedup" &&
        (forall j :: 0 <= j < i ==> fs.value[j] == "dedup") &&
        r.error == "invalid flag '" + fs.value[i] + "'")
  {
    var dedup := false;
    if fs.Some? {
      var i := 0;
      while i < |fs.value|
        invariant 0 <= i <= |fs.value|
        invariant forall j :: 0 <= j < i ==> fs.value[j] == "dedup"
        invariant dedup <==> i > 0
      {
        var s := fs.value[i];
        if s == "dedup" {
          dedup := true;
        } else {
          return Err("invalid flag '" + s + "'");
        }
        i := i + 1;
      }
    }
    return Ok(dedup);
  }

  // Sorting

  predicate Sorted(s: seq<int>)
  {
    forall i, j :: 0 <= i < j < |s| ==> s[i] <= s[j]
  }

  predicate StrictlyAscending(s: seq<int>)
  {
    forall i, j :: 0 <= i < j < |s| ==> s[i] < s[j]
  }

  /** Insert `x` into a sorted sequence, before the first element not below it. */
  method InsertSorted(s: seq<int>, x: int) returns (r: seq<int>)
    requires Sorted(s)
    ensures Sorted(r) && multiset(r) == multiset(s) + multiset{x}
  {
    var j := 0;
    while j < |s| && s[j] < x
      invariant 0 <= j <= |s|
      invariant forall k :: 0 <= k < j ==> s[k] < x
    {
      j := j + 1;
    }
    r := s[..j] + [x] + s[j..];
    InsertAtSorted(s, x, j);
    assert s == s[..j] + s[j..];
  }

  /** Inserting `x` after the elements below it and before the rest keeps a sequence sorted. */
  lemma InsertAtSorted(s: seq<int>, x: int, j: nat)
    requires Sorted(s) && j <= |s|
    requires forall k :: 0 <= k < j ==> s[k] < x
    requires j < |s| ==> x <= s[j]
    ensures Sorted(s[..j] + [x] + s[j..])
  {
    var r := s[..j] + [x] + s[j..];
    assert forall k :: 0 <= k < |r| ==> r[k] == (if k < j then s[k] else if k == j then x else s[k - 1]);
    forall a, b | 0 <= a < b < |r| ensures r[a] <= r[b] {
      if b > j && a <= j {
        assert x <= s[j] <= s[b - 1];
      }
    }
  }

  /** `std::sort` on the vector: an ascending permutation of it. */
  method SortAscending(v: seq<int>) returns (r: seq<int>)
    ensures Sorted(r) && multiset(r) == multiset(v)
  {
    r := [];
    var i := 0;
    while i < |v|
      invariant 0 <= i <= |v|
      invariant Sorted(r) && multiset(r) == multiset(v[..i])
    {
      r := InsertSorted(r, v[i]);
      assert v[..i + 1] == v[..i] + [v[i]];
      i := i + 1;
    }
    assert v[..i] == v;
  }

  /**
   * What `std::unique` keeps: each run of equal adjacent elements collapsed
   * to its first element.
   */
  function Dedup(s: seq<int>): (r: seq<int>)
    ensures |r| <= |s|
    ensures s != [] ==> r != [] && r[0] == s[0] && r[|r| - 1] == s[|s| - 1]
    ensures forall x :: x in r <==> x in s
    ensures NoAdjacentRepeats(r)
    decreases |s|
  {
    if |s| <= 1 then s
    else
      var d := Dedup(s[..|s| - 1]);
      assert forall x :: x in s <==> x in s[..|s| - 1] || x == s[|s| - 1];
      if s[|s| - 1] == s[|s| - 2] then d else d + [s[|s| - 1]]
  }

  /** No element equals the one after it. */
  predicate NoAdjacentRepeats(s: seq<int>)
  {
    forall i :: 0 <= i < |s| - 1 ==> s[i] != s[i + 1]
  }

  /**
   * Collapsing runs changes exactly the sequences that have a run: a
   * sequence is its own `Dedup` if and only if no element repeats the one
   * before it, so collapsing is idempotent.
   */
  lemma DedupFixed(s: seq<int>)
    ensures Dedup(s) == s <==> NoAdjacentRepeats(s)
    ensures Dedup(Dedup(s)) == Dedup(s)
  {
    if NoAdjacentRepeats(s) {
      DedupFixedOfRepeatFree(s);
    }
    DedupFixedOfRepeatFree(Dedup(s));
  }

  /** A sequence with no adjacent repeats is its own `Dedup`. */
  lemma {:induction false} DedupFixedOfRepeatFree(s: seq<int>)
    requires NoAdjacentRepeats(s)
    ensures Dedup(s) == s
    decreases |s|
  {
    if |s| > 1 {
      var p := s[..|s| - 1];
      assert NoAdjacentRepeats(p) by {
        forall i | 0 <= i < |p| - 1 ensures p[i] != p[i + 1] {
          assert p[i] == s[i] && p[i + 1] == s[i + 1];
        }
      }
      DedupFixedOfRepeatFree(p);
      assert s == p + [s[|s| - 1]];
    }
  }

  /** Collapsing runs of a sorted sequence leaves it strictly ascending. */
  lemma {:induction false} DedupSorted(s: seq<int>)
    requires Sorted(s)
    ensures StrictlyAscending(Dedup(s))
    decreases |s|
  {
    if |s| > 1 {
      var p := s[..|s| - 1];
      assert Sorted(p);
      DedupSorted(p);
      var d := Dedup(p);
      assert d[|d| - 1] == s[|s| - 2];
      if s[|s| - 1] != s[|s| - 2] {
        assert s[|s| - 2] < s[|s| - 1];
        var r := d + [s[|s| - 1]];
        forall i, j | 0 <= i < j < |r| ensures r[i] < r[j] {
          if j == |r| - 1 && i < |d| - 1 {
            assert d[i] < d[|d| - 1];
          }
        }
      }
    }
  }

  /** `v.erase (unique (v.begin (), v.end ()), v.end ())` on the vector. */
  method Unique(s: seq<int>) returns (r: seq<int>)
    ensures r == Dedup(s)
  {
    if |s| <= 1 {
      return s;
    }
    r := [s[0]];
    var i := 1;
    assert s[..1] == [s[0]];
    while i < |s|
      invariant 1 <= i <= |s|
      invariant r == Dedup(s[..i])
    {
      assert s[..i + 1][..i] == s[..i];
      if s[i] != s[i - 1] {
        r := r + [s[i]];
      }
      i := i + 1;
    }
    assert s[..i] == s;
  }

  /** Two ascending sequences with the same elements are equal: the sorted result is determined. */
  lemma {:induction false} SortedUnique(a: seq<int>, b: seq<int>)
    requires Sorted(a) && Sorted(b) && multiset(a) == multiset(b)
    ensures a == b
    decreases |a|
  {
    if |a| > 0 {
      SameFirst(a, b);
      SortedUnique(a[1..], b[1..]);
      assert a == [a[0]] + a[1..] && b == [b[0]] + b[1..];
    } else {
      assert |b| == |multiset(b)|;
    }
  }

  /** Two ascending sequences with the same elements start alike, and so do their rests. */
  lemma SameFirst(a: seq<int>, b: seq<int>)
    requires Sorted(a) && Sorted(b) && multiset(a) == multiset(b) && |a| > 0
    ensures |b| > 0 && a[0] == b[0]
    ensures Sorted(a[1..]) && Sorted(b[1..]) && multiset(a[1..]) == multiset(b[1..])
  {
    assert |a| == |multiset(a)| == |multiset(b)| == |b|;
    assert a[0] in multiset(b) && b[0] in multiset(a);
    SortedFirstIsLeast(a, b[0]);
    SortedFirstIsLeast(b, a[0]);
    DropFirst(a);
    DropFirst(b);
  }

  /** The first element of an ascending sequence is at most any of its elements. */
  lemma SortedFirstIsLeast(s: seq<int>, x: int)
    requires Sorted(s) && x in multiset(s)
    ensures s[0] <= x
  {
    var j :| 0 <= j < |s| && s[j] == x;
  }

  /** Dropping the first element of an ascending sequence keeps it ascending and removes one occurrence. */
  lemma DropFirst(s: seq<int>)
    requires Sorted(s) && |s| > 0
    ensures Sorted(s[1..]) && multiset(s[1..]) == multiset(s) - multiset{s[0]}
  {
    assert s == [s[0]] + s[1..];
  }

  /** The distinct elements of a sequence. */
  function Elements(s: seq<int>): (r: set<int>)
    ensures forall x :: x in r <==> x in s
    decreases |s|
  {
    if s == [] then {}
    else
      assert forall x :: x in s <==> x == s[0] || x in s[1..];
      {s[0]} + Elements(s[1..])
  }

  /** A sequence without repetitions has as many distinct elements as it is long. */
  lemma {:induction false} DistinctCount(s: seq<int>)
    requires StrictlyAscending(s)
    ensures |Elements(s)| == |s|
    decreases |s|
  {
    if s != [] {
      DistinctCount(s[1..]);
      assert s[0] !in Elements(s[1..]);
    }
  }

  /** `$size(<ints>)`: the number of elements, each counted as often as it occurs. */
  function Size(v: seq<int>): (r: nat)
    ensures r == |multiset(v)|
  {
    |v|
  }

  /**
   * `$sort(<ints> [, <flags>])`: the flags are checked, then the result is
   * the ascending permutation of the argument, or, with `dedup`, its
   * distinct elements in strictly ascending order.
   */
  method Sort(v: seq<int>, fs: Option<seq<string>>) returns (r: Result<seq<int>, string>)
    ensures r.Ok? <==> FlagsValid(fs)
    ensures r.Ok? && !FlagsDedup(fs) ==> Sorted(r.value) && multiset(r.value) == multiset(v)
    ensures r.Ok? && FlagsDedup(fs) ==>
      StrictlyAscending(r.value) && (forall x :: x in r.value <==> x in v) && Size(r.value) == |Elements(v)|
  {
    var sorted := SortAscending(v);
    var dedup := SortFlags(fs);
    if dedup.Err? {
      return Err(dedup.error);
    }
    if dedup.value {
      var u := Unique(sorted);
      DedupSorted(sorted);
      DistinctCount(u);
      assert forall x :: x in u <==> x in v by {
        forall x ensures x in u <==> x in v {
          assert x in v <==> x in multiset(v);
          assert x in sorted <==> x in multiset(sorted);
        }
      }
      assert Elements(u) == Elements(v) by {
        forall x ensures x in Elements(u) <==> x in Elements(v) {
          assert x in u <==> x in v;
        }
      }
      assert Size(u) == |u|;
      return Ok(u);
    }
    return Ok(sorted);
  }

  /** Sorting an already ascending sequence without flags returns it unchanged. */
  lemma SortAscendingFixed(v: seq<int>, r: seq<int>)
    requires Sorted(v) && Sorted(r) && multiset(r) == multiset(v)
    ensures r == v
  {
    SortedUnique(r, v);
  }

  // Conversions to string

  /** `$string(<bool>)`. */
  function BoolString(b: bool): (r: string)
    ensures r == "true" || r == "false"
    ensures r == "true" <==> b
  {
    if b then "true" else "false"
  }

  /** `$string(<int64>)` and `$string(<uint64>)`: decimal, with a leading '-' for a negative value. */
  function IntString(i: int): (r: string)
    ensures i >= 0 ==> CanonicalDecimal(r) && DecimalValue(r) == i
    ensures i < 0 ==> |r| >= 2 && r[0] == '-' && CanonicalDecimal(r[1..]) && r[1] != '0' && DecimalValue(r[1..]) == -i
  {
    if i >= 0 then
      DecimalRoundTrip(i);
      NatToString(i)
    else
      DecimalRoundTrip(-i);
      var r := "-" + NatToString(-i);
      assert r[1..] == NatToString(-i);
      r
  }

  /** Different integers have different strings. */
  lemma IntStringInjective(a: int, b: int)
    requires IntString(a) == IntString(b)
    ensures a == b
  {
  }

  // Values

  /**
   * A value of the build language in its untyped form: null or not, with
   * its names.
   */
  datatype Value = Value(isNull: bool, names: seq<string>)

  /** `$empty(<value>)`: a null value counts as empty, a non-null one when it has no names. */
  function Empty(v: Value): (r: bool)
    ensures v.isNull ==> r
    ensures !v.isNull ==> (r <==> |v.names| == 0)
  {
    v.isNull || v.names == []
  }

  /** `$quote(<value> [, <escape>])`, with the rendering of a non-null value's names as a parameter. */
  function Quote(v: Value, escape: bool, render: (seq<string>, bool) -> string): (r: string)
    ensures v.isNull ==> r == ""
    ensures !v.isNull ==> r == render(v.names, escape)
  {
    if v.isNull then "" else render(v.names, escape)
  }

  /**
   * An empty value, null or not, quotes to the empty string, given that
   * rendering no names writes nothing; a null value is always empty.
   */
  lemma EmptyQuotesEmpty(v: Value, escape: bool, render: (seq<string>, bool) -> string)
    requires render([], escape) == ""
    ensures Empty(v) ==> Quote(v, escape, render) == ""
    ensures v.isNull ==> Empty(v)
  {
  }
}
