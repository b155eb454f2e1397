/**
 * Rabin-Karp search with the rolling polynomial hash taken modulo `Integer.MAX_VALUE`
 * (PatternMatching.java:221-356).  The Java code keeps hashes in `long`s whose magnitude stays
 * below 2^48, so unbounded integers model it exactly; its `%` on a possibly negative left operand
 * is Java's remainder, `JRem`.
 */
module RabinKarp {
  import opened Wrappers
  import opened JavaInt
  import opened MatchSpec

  /** PatternMatching.java:221. */
  const BASE := 113
  /** `Integer.MAX_VALUE`, the modulus of every hash. */
  const MOD := 2147483647

  function Pow(b: int, n: nat): int
  {
    if n == 0 then 1 else Pow(b, n - 1) * b
  }

  /** The sum of `s[i] * BASE^(|s| - 1 - i)`: the hash before any reduction. */
  function Poly(s: seq<char>): int
  {
    if |s| == 0 then 0 else Poly(s[..|s| - 1]) * BASE + s[|s| - 1] as int
  }

  /** The hash of `s`: its polynomial reduced modulo `MOD`. */
  function HashOf(s: seq<char>): (h: int)
    ensures 0 <= h < MOD
  {
    Poly(s) % MOD
  }

  /** Adding a multiple of `MOD` does not change the residue. */
  lemma ModOfMultiple(x: int, y: int, k: int)
    requires x == y + MOD * k
    ensures x % MOD == y % MOD
  {
    assert MOD * (y / MOD + k) == MOD * (y / MOD) + MOD * k;
    DivUnique(x, MOD, y / MOD + k, y % MOD);
  }

  /** Java's remainder, moved up by `MOD` when negative as the source does, is the residue. */
  lemma Normalised(x: int)
    ensures (if JRem(x, MOD) < 0 then JRem(x, MOD) + MOD else JRem(x, MOD)) == x % MOD
  {
    if x < 0 {
      var y := -x;
      if y % MOD == 0 {
        DivUnique(x, MOD, -(y / MOD), 0);
      } else {
        assert x == MOD * (-(y / MOD) - 1) + (MOD - y % MOD);
        DivUnique(x, MOD, -(y / MOD) - 1, MOD - y % MOD);
      }
    }
  }

  /** The polynomial of `s + [c]` is that of `s` shifted one place up, plus `c`. */
  lemma PolySnoc(s: seq<char>, c: char)
    ensures Poly(s + [c]) == Poly(s) * BASE + c as int
  {
    assert (s + [c])[..|s|] == s;
  }

  /** Splitting off the first character: `Poly(s) == s[0] * BASE^(|s|-1) + Poly(s[1..])`. */
  lemma {:induction false} PolyHead(s: seq<char>)
    requires |s| > 0
    ensures Poly(s) == (s[0] as int) * Pow(BASE, |s| - 1) + Poly(s[1..])
  {
    var n := |s|;
    if n > 1 {
      var init := s[..n - 1];
      PolyHead(init);
      assert init[1..] == s[1..][..n - 2];
      assert s[1..][n - 2] == s[n - 1];
      var c0, q := s[0] as int, Pow(BASE, n - 2);
      assert Poly(s) == (c0 * q + Poly(init[1..])) * BASE + s[n - 1] as int;
      assert (c0 * q) * BASE == c0 * (q * BASE);
      assert Poly(s[1..]) == Poly(init[1..]) * BASE + s[n - 1] as int;
    } else {
      assert s[1..] == [];
    }
  }

  /**
   * The rolling update of PatternMatching.java:309-313: drop `out`, whose weight is `rp`, shift the
   * rest up one place, add `next`, and bring Java's remainder back into `0 .. MOD - 1`.
   */
  function Rolled(h: int, out: char, next: char, rp: int): int
  {
    var x := JRem((h - ((out as int) * rp) % MOD) * BASE + next as int, MOD);
    if x < 0 then x + MOD else x
  }

  /**
   * From the hash of window `w`, with `rp` the residue of `BASE^(|w|-1)`, the rolling update
   * yields the hash of the window moved on by `c`.
   */
  lemma Roll(w: seq<char>, c: char, h: int, rp: int)
    requires |w| >= 1 && h == HashOf(w) && rp == Pow(BASE, |w| - 1) % MOD
    ensures Rolled(h, w[0], c, rp) == HashOf(w[1..] + [c])
  {
    var c0, q, rest := w[0] as int, Pow(BASE, |w| - 1), Poly(w[1..]);
    var x := (h - (c0 * rp) % MOD) * BASE + c as int;
    Normalised(x);
    PolyHead(w);
    PolySnoc(w[1..], c);
    var k := RollAlgebra(Poly(w), c0, q, rest, h, rp, (c0 * rp) % MOD, c as int);
    ModOfMultiple(x, Poly(w[1..] + [c]), k);
  }

  /** The arithmetic behind `Roll`, over plain integers. */
  lemma RollAlgebra(P: int, c0: int, q: int, rest: int, h: int, rp: int, m0: int, cc: int) returns (k: int)
    requires P == c0 * q + rest && h == P % MOD && rp == q % MOD && m0 == (c0 * rp) % MOD
    ensures (h - m0) * BASE + cc == rest * BASE + cc + MOD * k
  {
    var a, b, e := P / MOD, q / MOD, (c0 * rp) / MOD;
    assert h == P - MOD * a;
    assert rp == q - MOD * b;
    assert m0 == c0 * rp - MOD * e;
    assert c0 * rp == c0 * q - MOD * (c0 * b) by {
      assert c0 * (q - MOD * b) == c0 * q - c0 * (MOD * b);
      assert c0 * (MOD * b) == MOD * (c0 * b);
    }
    var j := c0 * b - a + e;
    assert h - m0 == rest + MOD * j;
    k := j * BASE;
    assert (rest + MOD * j) * BASE == rest * BASE + MOD * (j * BASE);
  }

  /** `Roll` on the window of `t` at `i`: the result is the hash of the window at `i + 1`. */
  lemma RollWindow(t: seq<char>, i: nat, m: nat, h: int, rp: int)
    requires 1 <= m && i + m < |t| && h == HashOf(t[i..i + m]) && rp == Pow(BASE, m - 1) % MOD
    ensures Rolled(h, t[i], t[i + m], rp) == HashOf(t[i + 1..i + 1 + m])
  {
    Roll(t[i..i + m], t[i + m], h, rp);
    assert t[i..i + m][1..] + [t[i + m]] == t[i + 1..i + 1 + m];
  }

  /** One more factor of `BASE` on a residue of `BASE^i` gives the residue of `BASE^(i+1)`. */
  lemma PowStep(rp: int, i: nat)
    requires rp == Pow(BASE, i) % MOD
    ensures (rp * BASE) % MOD == Pow(BASE, i + 1) % MOD
  {
    var a := Pow(BASE, i) / MOD;
    assert rp * BASE == Pow(BASE, i + 1) + MOD * (-(a * BASE));
    ModOfMultiple(rp * BASE, Pow(BASE, i + 1), -(a * BASE));
  }

  /** One more character on a hashed prefix gives the hash of the longer prefix. */
  lemma HashStep(s: seq<char>, i: nat, temp: int)
    requires i < |s| && temp == HashOf(s[..i])
    ensures (temp * BASE + s[i] as int) % MOD == HashOf(s[..i + 1])
  {
    assert s[..i + 1] == s[..i] + [s[i]];
    PolySnoc(s[..i], s[i]);
    var a := Poly(s[..i]) / MOD;
    assert temp * BASE + s[i] as int == Poly(s[..i + 1]) + MOD * (-(a * BASE));
    ModOfMultiple(temp * BASE + s[i] as int, Poly(s[..i + 1]), -(a * BASE));
  }

  /** PatternMatching.java:345-356: the hash of `s`, reduced after every character. */
  method Hash(s: seq<char>) returns (h: int)
    ensures h == HashOf(s)
  {
    var temp := 0;
    var runningPower := 1;
    for i := 0 to |s|
      invariant temp == HashOf(s[..i])
    {
      HashStep(s, i, temp);
      temp := (temp * BASE + s[i] as int) % MOD;
      if i < |s| - 1 {
        runningPower := (runningPower * BASE) % MOD;
      }
    }
    assert s[..|s|] == s;
    return temp;
  }

  /** PatternMatching.java:328-337: compares `p` with `t` from `start`, first character first. */
  method Equal(p: seq<char>, t: seq<char>, start: int) returns (b: bool)
    requires 0 <= start && start + |p| <= |t|
    ensures b <==> MatchAt(p, t, start)
  {
    for i := 0 to |p|
      invariant forall k :: 0 <= k < i ==> t[start + k] == p[k]
    {
      if p[i] != t[start + i] {
        return false;
      }
    }
    return true;
  }

  /** Equal windows have equal hashes, so a hash mismatch rules an occurrence out. */
  lemma MatchHashesEqual(p: seq<char>, t: seq<char>, i: int)
    requires MatchAt(p, t, i)
    ensures HashOf(t[i..i + |p|]) == HashOf(p)
  {
    assert t[i..i + |p|] == p;
  }

  /**
   * PatternMatching.java:281-317: every index where `p` occurs in `t`, ascending; an empty
   * pattern is refused.
   */
  method RabinKarp(p: seq<char>, t: seq<char>) returns (r: Result<seq<int>>)
    ensures |p| == 0 <==> r == Err(IllegalArgument)
    ensures |p| > 0 ==> r == Ok(Occurrences(p, t))
  {
    if |p| == 0 {
      return Err(IllegalArgument);
    }
    var list: seq<int> := [];
    var patLen, textLen := |p|, |t|;
    if patLen > textLen {
      LongPatternNeverMatches(p, t);
      return Ok(list);
    }
    var hash1 := Hash(p);
    var hash2 := Hash(t[..patLen]);
    var runningPower := 1;
    for i := 0 to patLen - 1
      invariant runningPower == Pow(BASE, i) % MOD
    {
      PowStep(runningPower, i);
      runningPower := (runningPower * BASE) % MOD;
    }
    for i := 0 to textLen - patLen + 1
      invariant list == MatchesBelow(p, t, i)
      invariant i <= textLen - patLen ==> hash2 == HashOf(t[i..i + patLen])
    {
      if hash1 == hash2 {
        var eq := Equal(p, t, i);
        if eq {
          list := list + [i];
        }
      } else if MatchAt(p, t, i) {
        MatchHashesEqual(p, t, i);
      }
      if i < textLen - patLen {
        RollWindow(t, i, patLen, hash2, runningPower);
        hash2 := Rolled(hash2, t[i], t[i + patLen], runningPower);
      }
    }
    NoMatchesBeyond(p, t, textLen - patLen + 1, textLen + 1);
    return Ok(list);
  }

  /** The worked example of PatternMatching.java:250-254: "bunn" hashes to 142910419. */
  lemma BunnHash()
    ensures HashOf("bunn") == 142910419
  {
    assert "bunn"[..3] == "bun" && "bun"[..2] == "bu" && "bu"[..1] == "b" && "b"[..0] == [];
  }

  /** The worked example of PatternMatching.java:261-265: rolling "bunn" to "unny" in "bunny". */
  lemma BunnyRoll()
    ensures HashOf("unny") == 170236090
  {
    assert "unny"[..3] == "unn" && "unn"[..2] == "un" && "un"[..1] == "u" && "u"[..0] == [];
  }
}
