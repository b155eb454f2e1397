/**
 * What the string searches of PatternMatching.java promise: the list of every index where the
 * pattern occurs in the text, in ascending order.  A `CharacterComparator` that reports 0
 * exactly for equal characters is modelled by `==` on `char`.
 */
module MatchSpec {

  /** `p` occurs in `t` starting at index `i`. */
  ghost predicate MatchAt(p: seq<char>, t: seq<char>, i: int)
  {
    0 <= i && i + |p| <= |t| && forall k :: 0 <= k < |p| ==> t[i + k] == p[k]
  }

  /** The occurrences of `p` in `t` that start below `n`, ascending. */
  ghost function MatchesBelow(p: seq<char>, t: seq<char>, n: nat): (r: seq<int>)
    ensures |r| <= n
  {
    if n == 0 then []
    else MatchesBelow(p, t, n - 1) + (if MatchAt(p, t, n - 1) then [n - 1] else [])
  }

  /** Every occurrence of `p` in `t`, ascending. */
  ghost function Occurrences(p: seq<char>, t: seq<char>): seq<int>
  {
    MatchesBelow(p, t, |t| + 1)
  }

  ghost predicate StrictlyAscending(r: seq<int>)
  {
    forall a, b :: 0 <= a < b < |r| ==> r[a] < r[b]
  }

  /** The occurrence list lists each occurrence once, ascending, and nothing else. */
  lemma {:induction false} MatchesBelowExact(p: seq<char>, t: seq<char>, n: nat)
    ensures StrictlyAscending(MatchesBelow(p, t, n))
    ensures forall i :: i in MatchesBelow(p, t, n) <==> 0 <= i < n && MatchAt(p, t, i)
  {
    if n > 0 {
      MatchesBelowExact(p, t, n - 1);
      var r := MatchesBelow(p, t, n - 1);
      assert forall a :: 0 <= a < |r| ==> r[a] in r;
    }
  }

  lemma OccurrencesExact(p: seq<char>, t: seq<char>)
    ensures StrictlyAscending(Occurrences(p, t))
    ensures forall i :: i in Occurrences(p, t) <==> MatchAt(p, t, i)
  {
    MatchesBelowExact(p, t, |t| + 1);
  }

  /** Past the last index where `p` can start, no more occurrences are found. */
  lemma {:induction false} NoMatchesBeyond(p: seq<char>, t: seq<char>, m: nat, n: nat)
    requires m <= n && m + |p| > |t|
    ensures MatchesBelow(p, t, n) == MatchesBelow(p, t, m)
    decreases n - m
  {
    if n > m {
      NoMatchesBeyond(p, t, m, n - 1);
    }
  }

  /** Without occurrences in `m .. n-1`, the list of occurrences below `n` is that below `m`. */
  lemma {:induction false} NoMatchesBetween(p: seq<char>, t: seq<char>, m: int, n: int)
    requires 0 <= m <= n && forall i :: m <= i < n ==> !MatchAt(p, t, i)
    ensures MatchesBelow(p, t, n) == MatchesBelow(p, t, m)
    decreases n - m
  {
    if n > m {
      NoMatchesBetween(p, t, m, n - 1);
    }
  }

  /** A pattern longer than the text never occurs. */
  lemma LongPatternNeverMatches(p: seq<char>, t: seq<char>)
    requires |p| > |t|
    ensures Occurrences(p, t) == []
  {
    NoMatchesBeyond(p, t, 0, |t| + 1);
  }

  /** `p[..k]` equals the `k` characters of `p[..n]` that end at `n`: a border of `p[..n]`. */
  ghost predicate Border(p: seq<char>, n: int, k: int)
  {
    0 <= k < n <= |p| && forall j :: 0 <= j < k ==> p[j] == p[n - k + j]
  }

  /** `f` is the longest proper border of `p[..n]`: the failure-table entry for slot `n - 1`. */
  ghost predicate LongestBorder(p: seq<char>, n: int, f: int)
  {
    Border(p, n, f) && forall k :: f < k < n ==> !Border(p, n, k)
  }

  /** The longest border of `p[..n]`, found by trying every length from the longest proper one down. */
  ghost function LongestBorderOf(p: seq<char>, n: int): (f: int)
    requires 0 < n <= |p|
    ensures LongestBorder(p, n, f)
  {
    LongestFrom(p, n, n - 1)
  }

  ghost function LongestFrom(p: seq<char>, n: int, k: int): (f: int)
    requires 0 <= k < n <= |p|
    requires forall k' :: k < k' < n ==> !Border(p, n, k')
    ensures LongestBorder(p, n, f) && f <= k
    decreases k
  {
    if Border(p, n, k) then k else LongestFrom(p, n, k - 1)
  }

  /** The failure table of `p`: slot `i` holds the longest proper border of `p[..i + 1]`. */
  ghost predicate FailureTable(p: seq<char>, table: seq<int>)
  {
    |table| == |p| && forall i :: 0 <= i < |p| ==> LongestBorder(p, i + 1, table[i])
  }

  /** The longest border is unique, so the failure table of a pattern is determined by it. */
  lemma FailureTableUnique(p: seq<char>, t1: seq<int>, t2: seq<int>)
    requires FailureTable(p, t1) && FailureTable(p, t2)
    ensures t1 == t2
  {
    forall i | 0 <= i < |p|
      ensures t1[i] == t2[i]
    {
      assert LongestBorder(p, i + 1, t1[i]) && LongestBorder(p, i + 1, t2[i]);
    }
  }

  /** A border of `p[..n + 1]` of length at least 1, less its last character, is a border of `p[..n]`. */
  lemma BorderShrinks(p: seq<char>, n: int, k: int)
    requires Border(p, n + 1, k) && k >= 1
    ensures Border(p, n, k - 1) && p[k - 1] == p[n]
  {
    assert p[k - 1] == p[n + 1 - k + (k - 1)];
    forall j | 0 <= j < k - 1
      ensures p[j] == p[n - (k - 1) + j]
    {
      assert p[j] == p[n + 1 - k + j];
    }
  }

  /** A border of `p[..n]` followed by a matching character is a border of `p[..n + 1]`. */
  lemma BorderGrows(p: seq<char>, n: int, k: int)
    requires Border(p, n, k) && n < |p| && p[k] == p[n]
    ensures Border(p, n + 1, k + 1)
  {
    forall j | 0 <= j < k + 1
      ensures p[j] == p[n + 1 - (k + 1) + j]
    {
      if j < k {
        assert p[j] == p[n - k + j];
      }
    }
  }

  /** A shorter border of `p[..n]` is a border of the longer border `p[..a]`; and conversely. */
  lemma BorderOfBorder(p: seq<char>, n: int, a: int, b: int)
    requires Border(p, n, a) && 0 <= b < a
    ensures Border(p, n, b) <==> Border(p, a, b)
  {
    if Border(p, n, b) {
      forall j | 0 <= j < b
        ensures p[j] == p[a - b + j]
      {
        assert p[j] == p[n - b + j];
        assert p[a - b + j] == p[n - a + (a - b + j)];
      }
    }
    if Border(p, a, b) {
      forall j | 0 <= j < b
        ensures p[j] == p[n - b + j]
      {
        assert p[j] == p[a - b + j];
        assert p[a - b + j] == p[n - a + (a - b + j)];
      }
    }
  }

  /** The empty border: every non-empty prefix has it. */
  lemma EmptyBorder(p: seq<char>, n: int)
    requires 0 < n <= |p|
    ensures Border(p, n, 0)
  {
  }
}
