/** Boyer-Moore search with the last-occurrence table (PatternMatching.java:138-215). */
module BoyerMoore {
  import opened Wrappers
  import opened MatchSpec

  /**
   * The last-occurrence table of `p`: its keys are exactly the characters of `p`, each mapped to
   * the last index where it occurs.
   */
  ghost predicate LastTable(p: seq<char>, table: map<char, int>)
  {
    (forall c :: c in table <==> c in p) &&
    forall c :: c in table ==> IsLast(p, c, table[c])
  }

  /** `i` is the last index of `c` in `p`. */
  ghost predicate IsLast(p: seq<char>, c: char, i: int)
  {
    0 <= i < |p| && p[i] == c && forall j :: i < j < |p| ==> p[j] != c
  }

  /** The table's entry for `c`, or -1 when `c` is not in the pattern (Java's `getOrDefault`). */
  function LastOr(table: map<char, int>, c: char): int
  {
    if c in table then table[c] else -1
  }

  /** PatternMatching.java:204-215: each character of `p` in turn overwrites its entry. */
  method BuildLastTable(p: seq<char>) returns (table: map<char, int>)
    ensures LastTable(p, table)
  {
    table := map[];
    for i := 0 to |p|
      invariant forall c :: c in table <==> c in p[..i]
      invariant forall c :: c in table ==>
        0 <= table[c] < i && p[table[c]] == c && forall j :: table[c] < j < i ==> p[j] != c
    {
      table := table[p[i] := i];
    }
    assert p[..|p|] == p;
  }

  /** Two last-occurrence tables of the same pattern are the same table. */
  lemma LastTableUnique(p: seq<char>, t1: map<char, int>, t2: map<char, int>)
    requires LastTable(p, t1) && LastTable(p, t2)
    ensures t1 == t2
  {
    forall c | c in t1
      ensures t1[c] == t2[c]
    {
      assert IsLast(p, c, t1[c]) && IsLast(p, c, t2[c]);
    }
  }

  /** The search loop's state: every occurrence starting before `index` has been listed. */
  ghost predicate Searching(p: seq<char>, t: seq<char>, table: map<char, int>, list: seq<int>, index: int)
  {
    0 < |p| <= |t| && LastTable(p, table) && 0 <= index <= |t| && list == MatchesBelow(p, t, index)
  }

  /**
   * PatternMatching.java:138-176: every index where `p` occurs in `t`, ascending; an empty
   * pattern is refused.
   */
  method BoyerMoore(p: seq<char>, t: seq<char>) returns (r: Result<seq<int>>)
    ensures |p| == 0 <==> r == Err(IllegalArgument)
    ensures |p| > 0 ==> r == Ok(Occurrences(p, t))
  {
    if |p| == 0 {
      return Err(IllegalArgument);
    }
    var list: seq<int> := [];
    var table: map<char, int> := map[];
    if |p| <= |t| {
      table := BuildLastTable(p);
    } else {
      LongPatternNeverMatches(p, t);
      return Ok(list);
    }
    var index := 0;
    while index + |p| <= |t|
      invariant Searching(p, t, table, list, index)
      decreases |t| - index
    {
      var pi := |p| - 1;
      while pi >= 0 && t[index + pi] == p[pi]
        invariant -1 <= pi < |p|
        invariant forall k :: pi < k < |p| ==> t[index + k] == p[k]
      {
        pi := pi - 1;
      }
      if pi < 0 {
        assert MatchAt(p, t, index);
        list := list + [index];
        index := index + 1;
      } else {
        var lastChar := t[index + |p| - 1];
        var shift := LastOr(table, lastChar);
        ghost var index0 := index;
        if shift < pi {
          index := index + pi - shift;
        } else {
          index := index + 1;
        }
        BadCharacter(p, t, table, index0, pi, index);
        NoMatchesBetween(p, t, index0, index);
      }
    }
    NoMatchesBeyond(p, t, index, |t| + 1);
    return Ok(list);
  }

  /**
   * After a mismatch at `pi`, no occurrence starts below `index + pi - shift`, where `shift` is
   * the last index in `p` of the window's last character: an occurrence starting `d` places on
   * would put that character at `p[|p| - 1 - d]`, so `shift >= |p| - 1 - d >= pi - d`.
   */
  lemma BadCharacter(p: seq<char>, t: seq<char>, table: map<char, int>, index: int, pi: int, index': int)
    requires 0 <= index && index + |p| <= |t| && LastTable(p, table)
    requires 0 <= pi < |p| && t[index + pi] != p[pi]
    requires index' == index + (if LastOr(table, t[index + |p| - 1]) < pi then pi - LastOr(table, t[index + |p| - 1]) else 1)
    ensures forall i :: index <= i < index' ==> !MatchAt(p, t, i)
  {
    var lastChar := t[index + |p| - 1];
    var shift := LastOr(table, lastChar);
    forall i | index <= i < index'
      ensures !MatchAt(p, t, i)
    {
      if i == index {
        assert t[index + pi] != p[pi];
      } else {
        var d := i - index;
        assert shift < |p| - 1 - d;
        assert p[|p| - 1 - d] != t[i + (|p| - 1 - d)];
      }
    }
  }

  /** The example of PatternMatching.java:188-195: the last-occurrence table of "octocat". */
  lemma OctocatTable()
    ensures LastTable("octocat", map['o' := 3, 'c' := 4, 'a' := 5, 't' := 6])
  {
    var p, table := "octocat", map['o' := 3, 'c' := 4, 'a' := 5, 't' := 6];
    forall c
      ensures c in table <==> c in p
    {
      if c in p {
        var i :| 0 <= i < |p| && p[i] == c;
      }
    }
  }
}
