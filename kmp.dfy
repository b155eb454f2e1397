/** Knuth-Morris-Pratt search and its failure table (PatternMatching.java:30-118). */
module Kmp {
  import opened Wrappers
  import opened MatchSpec

  /**
   * The failure-table loop's state: slots before `jidx` are filled in, `idx` is a border of
   * `p[..jidx]`, and no border of `p[..jidx + 1]` is longer than `idx + 1`.
   */
  ghost predicate Building(p: seq<char>, table: seq<int>, idx: int, jidx: int)
  {
    |table| == |p| && 1 <= jidx <= |p| && Border(p, jidx, idx) &&
    (forall i :: 0 <= i < jidx ==> LongestBorder(p, i + 1, table[i])) &&
    (jidx < |p| ==> NoBorderAbove(p, jidx + 1, idx + 1))
  }

  /** `p[..n]` has no proper border longer than `m`. */
  ghost predicate NoBorderAbove(p: seq<char>, n: int, m: int)
  {
    forall k :: m < k < n ==> !Border(p, n, k)
  }

  /** PatternMatching.java:91-118. */
  method BuildFailureTable(p: seq<char>) returns (table: array<int>)
    ensures fresh(table)
    ensures FailureTable(p, table[..])
  {
    table := new int[|p|];
    if |p| != 0 {
      table[0] := 0;
    }
    if |p| == 0 {
      return;
    }
    var idx := 0;
    var jidx := 1;
    EmptyBorder(p, 1);
    while jidx < |p|
      invariant Building(p, table[..], idx, jidx)
      decreases |p| - jidx, idx
    {
      if p[jidx] == p[idx] {
        ghost var t0 := table[..];
        ghost var idx0, jidx0 := idx, jidx;
        idx := idx + 1;
        table[jidx] := idx;
        jidx := jidx + 1;
        Extend(p, t0, table[..], idx0, jidx0, idx, jidx);
      } else {
        if idx != 0 {
          ghost var idx0 := idx;
          idx := table[idx - 1];
          FallBack(p, table[..], idx0, jidx, idx);
        } else {
          ghost var t0 := table[..];
          ghost var jidx0 := jidx;
          table[jidx] := idx;
          jidx := jidx + 1;
          NoBorder(p, t0, table[..], jidx0, jidx);
        }
      }
    }
  }

  /** The next character extends the border: slot `jidx` gets `idx + 1`. */
  lemma Extend(p: seq<char>, t0: seq<int>, t: seq<int>, idx: int, jidx: int, idx': int, jidx': int)
    requires Building(p, t0, idx, jidx) && jidx < |p| && p[jidx] == p[idx]
    requires idx' == idx + 1 && jidx' == jidx + 1 && t == t0[jidx := idx']
    ensures Building(p, t, idx', jidx')
  {
    BorderGrows(p, jidx, idx);
    assert LongestBorder(p, jidx + 1, idx + 1);
    if jidx' < |p| {
      var n := jidx' + 1;
      forall k | idx' + 1 < k < n
        ensures !Border(p, n, k)
      {
        if Border(p, n, k) {
          BorderShrinks(p, jidx', k);
          assert false;
        }
      }
    }
  }

  /** A mismatch with `idx > 0` falls back to the longest border of the current border. */
  lemma FallBack(p: seq<char>, t: seq<int>, idx: int, jidx: int, idx': int)
    requires Building(p, t, idx, jidx) && jidx < |p| && p[jidx] != p[idx] && idx > 0
    requires idx' == t[idx - 1]
    ensures Building(p, t, idx', jidx)
  {
    assert LongestBorder(p, idx, idx');
    BorderOfBorder(p, jidx, idx, idx');
    var n := jidx + 1;
    forall k | idx' + 1 < k < n
      ensures !Border(p, n, k)
    {
      if Border(p, n, k) {
        BorderShrinks(p, jidx, k);
        if k - 1 < idx {
          BorderOfBorder(p, jidx, idx, k - 1);
          assert false;
        } else {
          assert false;
        }
      }
    }
  }

  /** A mismatch with `idx == 0`: the prefix ending at `jidx` has only the empty border. */
  lemma NoBorder(p: seq<char>, t0: seq<int>, t: seq<int>, jidx: int, jidx': int)
    requires Building(p, t0, 0, jidx) && jidx < |p| && p[jidx] != p[0]
    requires jidx' == jidx + 1 && t == t0[jidx := 0]
    ensures Building(p, t, 0, jidx')
  {
    EmptyBorder(p, jidx + 1);
    if jidx' < |p| {
      var n := jidx' + 1;
      forall k | 1 < k < n
        ensures !Border(p, n, k)
      {
        if Border(p, n, k) {
          BorderShrinks(p, jidx', k);
          assert false;
        }
      }
    }
  }

  /**
   * The search loop's state: every occurrence starting before `index` is listed, and the first
   * `pi` characters at `index` already match the pattern.
   */
  ghost predicate Searching(p: seq<char>, t: seq<char>, table: seq<int>, list: seq<int>, index: int, pi: int)
  {
    FailureTable(p, table) && 0 <= index <= |t| && 0 <= pi <= |p| && index + pi <= |t| &&
    list == MatchesBelow(p, t, index) &&
    forall k :: 0 <= k < pi ==> t[index + k] == p[k]
  }

  /**
   * PatternMatching.java:30-66: every index where `p` occurs in `t`, ascending; an empty pattern
   * is refused.
   */
  method Kmp(p: seq<char>, t: seq<char>) returns (r: Result<seq<int>>)
    ensures |p| == 0 <==> r == Err(IllegalArgument)
    ensures |p| > 0 ==> r == Ok(Occurrences(p, t))
  {
    if |p| == 0 {
      return Err(IllegalArgument);
    }
    if |p| > |t| {
      LongPatternNeverMatches(p, t);
      return Ok([]);
    }
    var table := BuildFailureTable(p);
    var list: seq<int> := [];
    var index := 0;
    var pi := 0;
    while index + |p| <= |t|
      invariant Searching(p, t, table[..], list, index, pi)
      decreases |t| - index
    {
      while pi < |p| && p[pi] == t[index + pi]
        invariant Searching(p, t, table[..], list, index, pi)
      {
        pi := pi + 1;
      }
      if pi == 0 {
        ghost var index0 := index;
        index := index + 1;
        Mismatch(p, t, table[..], list, index0, index);
      } else {
        ghost var list0, index0, pi0 := list, index, pi;
        if pi == |p| {
          list := list + [index];
        }
        index := index + pi - table[pi - 1];
        pi := table[pi - 1];
        Shift(p, t, table[..], list0, list, index0, pi0, index, pi);
      }
    }
    NoMatchesBeyond(p, t, index, |t| + 1);
    return Ok(list);
  }

  /** No character matches at `index`: there is no occurrence there. */
  lemma Mismatch(p: seq<char>, t: seq<char>, table: seq<int>, list: seq<int>, index: int, index': int)
    requires Searching(p, t, table, list, index, 0) && index + |p| <= |t| && |p| > 0
    requires p[0] != t[index] && index' == index + 1
    ensures Searching(p, t, table, list, index', 0)
  {
    assert !MatchAt(p, t, index);
  }

  /**
   * After `pi` matched characters, moving on by `pi - table[pi - 1]` skips no occurrence: one
   * starting in between would make a border of `p[..pi]` longer than `table[pi - 1]`.
   */
  lemma Shift(p: seq<char>, t: seq<char>, table: seq<int>, list: seq<int>, list': seq<int>,
              index: int, pi: int, index': int, pi': int)
    requires Searching(p, t, table, list, index, pi) && pi > 0 && index + |p| <= |t|
    requires pi < |p| ==> p[pi] != t[index + pi]
    requires list' == if pi == |p| then list + [index] else list
    requires index' == index + pi - table[pi - 1] && pi' == table[pi - 1]
    ensures Searching(p, t, table, list', index', pi')
  {
    var f := table[pi - 1];
    assert LongestBorder(p, pi, f);
    assert MatchAt(p, t, index) <==> pi == |p|;
    ShiftSkipsNothing(p, t, index, pi, f, index');
    NoMatchesBetween(p, t, index + 1, index');
    forall k | 0 <= k < pi'
      ensures t[index' + k] == p[k]
    {
      assert p[k] == p[pi - f + k];
      assert t[index + (pi - f + k)] == p[pi - f + k];
    }
  }

  lemma ShiftSkipsNothing(p: seq<char>, t: seq<char>, index: int, pi: int, f: int, index': int)
    requires 0 <= index && 0 < pi <= |p| && index + |p| <= |t| && LongestBorder(p, pi, f)
    requires forall k :: 0 <= k < pi ==> t[index + k] == p[k]
    requires index' == index + pi - f
    ensures forall i :: index < i < index' ==> !MatchAt(p, t, i)
  {
    forall i | index < i < index'
      ensures !MatchAt(p, t, i)
    {
      if MatchAt(p, t, i) {
        var d := i - index;
        forall j | 0 <= j < pi - d
          ensures p[j] == p[pi - (pi - d) + j]
        {
          assert t[i + j] == p[j];
          assert t[index + (d + j)] == p[d + j];
        }
        assert Border(p, pi, pi - d);
        assert false;
      }
    }
  }

  /** The example of PatternMatching.java:79-81: the failure table of "ababac" is [0, 0, 1, 2, 3, 0]. */
  lemma AbabacTable()
    ensures FailureTable("ababac", [0, 0, 1, 2, 3, 0])
  {
    var p, table := "ababac", [0, 0, 1, 2, 3, 0];
    forall i | 0 <= i < |p|
      ensures LongestBorder(p, i + 1, table[i])
    {
      var n := i + 1;
      forall k | table[i] < k < n
        ensures !Border(p, n, k)
      {
        var j := if i == 5 then k - 1 else 0;
        assert p[j] != p[n - k + j];
      }
    }
  }
}
