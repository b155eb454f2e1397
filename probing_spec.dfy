/**
 * The table of the open-addressing hash map (QuadraticProbingHashMap.java) as a sequence of
 * slots.  A slot is empty, holds a live entry, or holds an entry marked removed (a tombstone).
 * The map a table stands for is made of its live entries.  Each view is defined on a prefix
 * (or a range) of the slots, so that a loop over the table extends it one slot at a time.
 */
module ProbingSpec {
  import opened Wrappers
  import opened JavaInt

  datatype Entry<K, V> = Entry(key: K, value: V, removed: bool)

  type Slot<K, V> = Option<Entry<K, V>>

  /** A slot holding an entry that is not marked removed. */
  predicate Live<K, V>(x: Slot<K, V>)
  {
    x.Some? && !x.value.removed
  }

  /** A slot holding a live entry of `k`. */
  predicate HoldsKey<K(==), V>(x: Slot<K, V>, k: K)
  {
    Live(x) && x.value.key == k
  }

  /** A slot the probe may stop at: empty or a tombstone. */
  predicate Free<K, V>(x: Slot<K, V>)
  {
    x.None? || x.value.removed
  }

  /** The live entry of one slot, if any. */
  function LiveOf<K, V>(x: Slot<K, V>): seq<Entry<K, V>>
  {
    if Live(x) then [x.value] else []
  }

  /** The live entries of slots `lo` to `hi - 1`, in slot order. */
  function LiveIn<K, V>(s: seq<Slot<K, V>>, lo: int, hi: int): (r: seq<Entry<K, V>>)
    requires 0 <= lo <= hi <= |s|
    ensures |r| <= hi - lo
    decreases hi - lo
  {
    if lo == hi then [] else LiveIn(s, lo, hi - 1) + LiveOf(s[hi - 1])
  }

  /** The keys of the live entries among the first `n` slots. */
  ghost function KeysUpTo<K, V>(s: seq<Slot<K, V>>, n: int): set<K>
    requires 0 <= n <= |s|
  {
    if n == 0 then {} else KeysUpTo(s, n - 1) + (if Live(s[n - 1]) then {s[n - 1].value.key} else {})
  }

  /** The values of the live entries among the first `n` slots, in slot order. */
  function ValuesUpTo<K, V>(s: seq<Slot<K, V>>, n: int): seq<V>
    requires 0 <= n <= |s|
  {
    if n == 0 then [] else ValuesUpTo(s, n - 1) + (if Live(s[n - 1]) then [s[n - 1].value.value] else [])
  }

  /** The map the live entries among the first `n` slots stand for; a later slot wins. */
  ghost function MapUpTo<K, V>(s: seq<Slot<K, V>>, n: int): map<K, V>
    requires 0 <= n <= |s|
  {
    if n == 0 then map[]
    else if Live(s[n - 1]) then MapUpTo(s, n - 1)[s[n - 1].value.key := s[n - 1].value.value]
    else MapUpTo(s, n - 1)
  }

  /** The whole table's live entries. */
  function LiveEntries<K, V>(s: seq<Slot<K, V>>): seq<Entry<K, V>>
  {
    LiveIn(s, 0, |s|)
  }

  /** The whole table's live keys. */
  ghost function KeysOf<K, V>(s: seq<Slot<K, V>>): set<K>
  {
    KeysUpTo(s, |s|)
  }

  /** The whole table's live values, in slot order. */
  function ValuesOf<K, V>(s: seq<Slot<K, V>>): seq<V>
  {
    ValuesUpTo(s, |s|)
  }

  /** The map the whole table stands for. */
  ghost function MapOf<K, V>(s: seq<Slot<K, V>>): map<K, V>
  {
    MapUpTo(s, |s|)
  }

  /** No key is live in two slots. */
  ghost predicate UniqueKeys<K, V>(s: seq<Slot<K, V>>)
  {
    forall i, j :: 0 <= i < j < |s| && Live(s[i]) && Live(s[j]) ==> s[i].value.key != s[j].value.key
  }

  /** No slot holds a tombstone. */
  ghost predicate NoTombstones<K, V>(s: seq<Slot<K, V>>)
  {
    forall i :: 0 <= i < |s| ==> !(s[i].Some? && s[i].value.removed)
  }

  /** `k` is live in one of the first `n` slots. */
  ghost predicate HasKeyBelow<K, V>(s: seq<Slot<K, V>>, n: int, k: K)
  {
    exists j :: 0 <= j < n && j < |s| && Live(s[j]) && s[j].value.key == k
  }

  /** `k` is live in some slot. */
  ghost predicate HasKey<K, V>(s: seq<Slot<K, V>>, k: K)
  {
    HasKeyBelow(s, |s|, k)
  }

  /** The live entries of a range are those before slot `j`, its own, and those after it. */
  lemma {:induction false} LiveInSplit<K, V>(s: seq<Slot<K, V>>, lo: int, j: int, hi: int)
    requires 0 <= lo <= j < hi <= |s|
    ensures LiveIn(s, lo, hi) == LiveIn(s, lo, j) + LiveOf(s[j]) + LiveIn(s, j + 1, hi)
    decreases hi
  {
    if j < hi - 1 {
      LiveInSplit(s, lo, j, hi - 1);
    }
  }

  /** The live entries of a range do not depend on the slots outside it. */
  lemma {:induction false} LiveInFrame<K, V>(s: seq<Slot<K, V>>, t: seq<Slot<K, V>>, lo: int, hi: int)
    requires 0 <= lo <= hi <= |s| == |t|
    requires forall i :: lo <= i < hi ==> s[i] == t[i]
    ensures LiveIn(s, lo, hi) == LiveIn(t, lo, hi)
    decreases hi - lo
  {
    if lo < hi {
      LiveInFrame(s, t, lo, hi - 1);
    }
  }

  /** Overwriting slot `j` changes the live entries by what left that slot and what came in. */
  lemma LiveEntriesUpdate<K, V>(s: seq<Slot<K, V>>, j: int, x: Slot<K, V>)
    requires 0 <= j < |s|
    ensures multiset(LiveEntries(s[j := x])) + multiset(LiveOf(s[j])) ==
            multiset(LiveEntries(s)) + multiset(LiveOf(x))
    ensures |LiveEntries(s[j := x])| + |LiveOf(s[j])| == |LiveEntries(s)| + |LiveOf(x)|
  {
    var s' := s[j := x];
    LiveInSplit(s, 0, j, |s|);
    LiveInSplit(s', 0, j, |s|);
    LiveInFrame(s, s', 0, j);
    LiveInFrame(s, s', j + 1, |s|);
    var a, b := LiveIn(s, 0, j), LiveIn(s, j + 1, |s|);
    assert multiset(a + LiveOf(x) + b) == multiset(a) + multiset(LiveOf(x)) + multiset(b);
    assert multiset(a + LiveOf(s[j]) + b) == multiset(a) + multiset(LiveOf(s[j])) + multiset(b);
  }

  /** The keys are those of the live slots. */
  lemma {:induction false} KeysUpToIs<K, V>(s: seq<Slot<K, V>>, n: int, k: K)
    requires 0 <= n <= |s|
    ensures k in KeysUpTo(s, n) <==> HasKeyBelow(s, n, k)
  {
    if n > 0 {
      KeysUpToIs(s, n - 1, k);
      if HasKeyBelow(s, n, k) && !(Live(s[n - 1]) && s[n - 1].value.key == k) {
        var j :| 0 <= j < n && j < |s| && Live(s[j]) && s[j].value.key == k;
        assert HasKeyBelow(s, n - 1, k);
      }
    }
  }

  /** The map's keys are the live keys. */
  lemma {:induction false} MapUpToKeys<K, V>(s: seq<Slot<K, V>>, n: int)
    requires 0 <= n <= |s|
    ensures MapUpTo(s, n).Keys == KeysUpTo(s, n)
  {
    if n > 0 {
      MapUpToKeys(s, n - 1);
    }
  }

  /** With unique keys, a live slot's key maps to that slot's value. */
  lemma {:induction false} MapUpToAt<K, V>(s: seq<Slot<K, V>>, n: int, j: int)
    requires UniqueKeys(s) && 0 <= j < n <= |s| && Live(s[j])
    ensures s[j].value.key in MapUpTo(s, n) && MapUpTo(s, n)[s[j].value.key] == s[j].value.value
  {
    if j < n - 1 {
      MapUpToAt(s, n - 1, j);
      if Live(s[n - 1]) {
        assert s[j].value.key != s[n - 1].value.key;
      }
    }
  }

  /** The whole-table form of `MapUpToAt`. */
  lemma MapOfAt<K, V>(s: seq<Slot<K, V>>, j: int)
    requires UniqueKeys(s) && 0 <= j < |s| && Live(s[j])
    ensures s[j].value.key in MapOf(s) && MapOf(s)[s[j].value.key] == s[j].value.value
  {
    MapUpToAt(s, |s|, j);
  }

  /** The whole-table keys are the live keys, and they are the map's keys. */
  lemma KeysOfIs<K, V>(s: seq<Slot<K, V>>, k: K)
    ensures k in KeysOf(s) <==> HasKey(s, k)
    ensures KeysOf(s) == MapOf(s).Keys
  {
    KeysUpToIs(s, |s|, k);
    MapUpToKeys(s, |s|);
  }

  /** A key is in the map exactly when it is live in some slot, and then maps to that slot's value. */
  lemma MapOfIs<K, V>(s: seq<Slot<K, V>>, k: K)
    requires UniqueKeys(s)
    ensures k in MapOf(s) <==> HasKey(s, k)
    ensures k in MapOf(s) ==> exists j :: 0 <= j < |s| && s[j] == Some(Entry(k, MapOf(s)[k], false))
  {
    KeysOfIs(s, k);
    if k in MapOf(s) {
      var j :| 0 <= j < |s| && Live(s[j]) && s[j].value.key == k;
      MapOfAt(s, j);
      assert s[j] == Some(Entry(k, MapOf(s)[k], false));
    }
  }

  /**
   * Storing `(k, v)` live in slot `j`, which either holds `k` live or is free while `k` is not
   * live anywhere, keeps the keys unique and maps `k` to `v`.
   */
  lemma MapOfPut<K, V>(s: seq<Slot<K, V>>, j: int, k: K, v: V)
    requires UniqueKeys(s) && 0 <= j < |s|
    requires (Live(s[j]) && s[j].value.key == k) || (Free(s[j]) && !HasKey(s, k))
    ensures UniqueKeys(s[j := Some(Entry(k, v, false))])
    ensures MapOf(s[j := Some(Entry(k, v, false))]) == MapOf(s)[k := v]
  {
    var s' := s[j := Some(Entry(k, v, false))];
    forall a, b | 0 <= a < b < |s'| && Live(s'[a]) && Live(s'[b])
      ensures s'[a].value.key != s'[b].value.key
    {
      if a == j {
        assert Live(s[b]) && s[b] == s'[b];
      } else if b == j {
        assert Live(s[a]) && s[a] == s'[a];
      }
    }
    var m1, m2 := MapOf(s'), MapOf(s)[k := v];
    forall k' | k' in m1
      ensures k' in m2 && m1[k'] == m2[k']
    {
      MapOfIs(s', k');
      if k' == k {
        MapOfAt(s', j);
      } else {
        var i :| 0 <= i < |s'| && Live(s'[i]) && s'[i].value.key == k';
        assert s'[i] == s[i];
        MapOfAt(s, i);
        MapOfAt(s', i);
      }
    }
    forall k' | k' in m2
      ensures k' in m1
    {
      if k' == k {
        MapOfAt(s', j);
      } else {
        MapOfIs(s, k');
        var i :| 0 <= i < |s| && Live(s[i]) && s[i].value.key == k';
        assert s'[i] == s[i];
        MapOfAt(s', i);
      }
    }
    MapExt(m1, m2);
  }

  /** Marking the live entry of slot `j` removed keeps the keys unique and drops its key. */
  lemma MapOfRemove<K, V>(s: seq<Slot<K, V>>, j: int)
    requires UniqueKeys(s) && 0 <= j < |s| && Live(s[j])
    ensures UniqueKeys(s[j := Some(s[j].value.(removed := true))])
    ensures MapOf(s[j := Some(s[j].value.(removed := true))]) == MapOf(s) - {s[j].value.key}
  {
    var k := s[j].value.key;
    var s' := s[j := Some(s[j].value.(removed := true))];
    assert UniqueKeys(s') by {
      forall a, b | 0 <= a < b < |s'| && Live(s'[a]) && Live(s'[b])
        ensures s'[a].value.key != s'[b].value.key
      {
        assert s'[a] == s[a] && s'[b] == s[b];
      }
    }
    var m1, m2 := MapOf(s'), MapOf(s) - {k};
    forall k' | k' in m1
      ensures k' in m2 && m1[k'] == m2[k']
    {
      MapOfIs(s', k');
      var i :| 0 <= i < |s'| && Live(s'[i]) && s'[i].value.key == k';
      assert i != j && s'[i] == s[i];
      if i < j {
        assert s[i].value.key != s[j].value.key;
      } else {
        assert s[j].value.key != s[i].value.key;
      }
      MapOfAt(s, i);
      MapOfAt(s', i);
    }
    forall k' | k' in m2
      ensures k' in m1
    {
      MapOfIs(s, k');
      var i :| 0 <= i < |s| && Live(s[i]) && s[i].value.key == k';
      assert s'[i] == s[i];
      MapOfAt(s', i);
    }
    MapExt(m1, m2);
  }

  /** The probe counter's largest value: one step further the Java `int` counter would wrap. */
  const PROBE_FUEL := 0x7FFF_FFFF

  /** The slot a key with hash code `h` starts at in a table of `len` slots: Java's `|h % len|`. */
  function Home(h: int, len: int): (r: int)
    requires len > 0
    ensures 0 <= r < len
  {
    Abs(JRem(Wrap32(h), len))
  }

  /**
   * The probe loop from slot `index` with counter `i`: it stops at the first slot that is not
   * live and otherwise moves on by `i * i`, in `int` arithmetic; a negative remainder would index
   * outside the array.
   */
  function ProbeFrom<K, V>(s: seq<Slot<K, V>>, index: int, i: int): (r: Result<int>)
    requires 0 <= index < |s| && 0 <= i <= PROBE_FUEL
    ensures r.Ok? ==> 0 <= r.value < |s| && Free(s[r.value])
    ensures r.Err? ==> r.error == IndexOutOfBounds || r.error == OutOfFuel
    decreases PROBE_FUEL - i
  {
    if !Live(s[index]) then Ok(index)
    else if i == PROBE_FUEL then Err(OutOfFuel)
    else
      var x := Wrap32(index + Wrap32(i * i));
      var next := JRem(x, |s|);
      if next < 0 then Err(IndexOutOfBounds) else ProbeFrom(s, next, i + 1)
  }

  /**
   * Where the probe for a key with hash code `h` ends in table `s`: a slot that is empty or holds
   * a tombstone, never a live one; a free home slot is taken at once; an empty table divides by
   * zero.
   */
  function ProbeOf<K, V>(h: int, s: seq<Slot<K, V>>): (r: Result<int>)
    ensures r.Ok? ==> 0 <= r.value < |s| && Free(s[r.value])
    ensures |s| == 0 <==> r == Err(Arithmetic)
    ensures r.Err? ==> r.error == Arithmetic || r.error == IndexOutOfBounds || r.error == OutOfFuel
    ensures |s| > 0 && Free(s[Home(h, |s|)]) ==> r == Ok(Home(h, |s|))
  {
    if |s| == 0 then Err(Arithmetic) else ProbeFrom(s, Home(h, |s|), 0)
  }

  /** One step of the probe loop past a live slot, when Java's remainder comes out non-negative. */
  lemma ProbeStep<K, V>(s: seq<Slot<K, V>>, index: int, i: int, next: int)
    requires 0 <= index < |s| && 0 <= i < PROBE_FUEL && Live(s[index])
    requires next == JRem(Wrap32(index + Wrap32(i * i)), |s|) && next >= 0
    ensures next < |s| && ProbeFrom(s, index, i) == ProbeFrom(s, next, i + 1)
  {
  }

  /**
   * The probe's first step adds `0 * 0`: from a live slot it comes back to the same slot (in an
   * array small enough to be a Java array).
   */
  lemma ProbeRevisits<K, V>(s: seq<Slot<K, V>>, index: int)
    requires 0 <= index < |s| <= 0x7FFF_FFFF && Live(s[index])
    ensures ProbeFrom(s, index, 0) == ProbeFrom(s, index, 1)
  {
    AddZeroSquared(index, |s|);
    ProbeStep(s, index, 0, index);
  }

  /** A live slot's entry is among the live entries, which are then not empty. */
  lemma LiveAt<K, V>(s: seq<Slot<K, V>>, j: int)
    requires 0 <= j < |s| && Live(s[j])
    ensures s[j].value in LiveEntries(s) && |LiveEntries(s)| >= 1
  {
    LiveInSplit(s, 0, j, |s|);
  }

  /** There are no more live entries than slots. */
  lemma LiveAtLeast<K, V>(s: seq<Slot<K, V>>)
    ensures |LiveEntries(s)| <= |s|
  {
  }

  /** A table of empty slots has no live entries and stands for the empty map. */
  lemma {:induction false} AllEmpty<K, V>(s: seq<Slot<K, V>>, n: int)
    requires 0 <= n <= |s| && forall i :: 0 <= i < |s| ==> s[i].None?
    ensures LiveIn(s, 0, n) == [] && MapUpTo(s, n) == map[]
    ensures UniqueKeys(s) && NoTombstones(s)
  {
    if n > 0 {
      AllEmpty(s, n - 1);
    }
  }

  /** With unique keys, the key of a live slot is not in the map of the slots before it. */
  lemma FreshKeyBelow<K, V>(s: seq<Slot<K, V>>, i: int)
    requires UniqueKeys(s) && 0 <= i < |s| && Live(s[i])
    ensures s[i].value.key !in MapUpTo(s, i)
  {
    var k := s[i].value.key;
    MapUpToKeys(s, i);
    KeysUpToIs(s, i, k);
  }

  /**
   * `t`, a table without tombstones, holds the live entries of the first `i` slots of `s`, and
   * when the keys of `s` are unique it stands for their map with unique keys of its own.
   */
  ghost predicate Rebuilding<K, V>(t: seq<Slot<K, V>>, s: seq<Slot<K, V>>, i: int)
  {
    0 <= i <= |s| && RebuiltEntries(t, s, i) && RebuiltMap(t, s, i)
  }

  /** The entries part of `Rebuilding`. */
  ghost predicate RebuiltEntries<K, V>(t: seq<Slot<K, V>>, s: seq<Slot<K, V>>, i: int)
    requires 0 <= i <= |s|
  {
    NoTombstones(t) && multiset(LiveEntries(t)) == multiset(LiveIn(s, 0, i))
  }

  /** The map part of `Rebuilding`. */
  ghost predicate RebuiltMap<K, V>(t: seq<Slot<K, V>>, s: seq<Slot<K, V>>, i: int)
    requires 0 <= i <= |s|
  {
    UniqueKeys(s) ==> UniqueKeys(t) && MapOf(t) == MapUpTo(s, i)
  }

  /** An empty table is where rebuilding starts. */
  lemma RebuildStart<K, V>(t: seq<Slot<K, V>>, s: seq<Slot<K, V>>)
    requires forall i :: 0 <= i < |t| ==> t[i].None?
    ensures Rebuilding(t, s, 0)
  {
    AllEmpty(t, |t|);
  }

  /** A slot of `s` with no live entry adds nothing. */
  lemma RebuildSkip<K, V>(t: seq<Slot<K, V>>, s: seq<Slot<K, V>>, i: int)
    requires Rebuilding(t, s, i) && i < |s| && !Live(s[i])
    ensures Rebuilding(t, s, i + 1)
  {
    assert LiveIn(s, 0, i + 1) == LiveIn(s, 0, i);
  }

  /** The live slot `s[i]` placed into a free slot `j` of `t` is one step of rebuilding. */
  lemma PlaceStep<K, V>(t: seq<Slot<K, V>>, j: int, s: seq<Slot<K, V>>, i: int)
    requires Rebuilding(t, s, i) && i < |s| && Live(s[i]) && 0 <= j < |t| && Free(t[j])
    ensures Rebuilding(t[j := s[i]], s, i + 1)
  {
    var t' := t[j := s[i]];
    assert t[j].None?;
    LiveEntriesUpdate(t, j, s[i]);
    assert LiveIn(s, 0, i + 1) == LiveIn(s, 0, i) + LiveOf(s[i]);
    if UniqueKeys(s) {
      var k, v := s[i].value.key, s[i].value.value;
      assert s[i] == Some(Entry(k, v, false));
      FreshKeyBelow(s, i);
      MapOfIs(t, k);
      MapOfPut(t, j, k, v);
    }
  }

  /** A finished rebuild holds the same live entries, as many, and stands for the same map. */
  lemma RebuildDone<K, V>(t: seq<Slot<K, V>>, s: seq<Slot<K, V>>)
    requires Rebuilding(t, s, |s|)
    ensures NoTombstones(t) && multiset(LiveEntries(t)) == multiset(LiveEntries(s))
    ensures |LiveEntries(t)| == |LiveEntries(s)|
    ensures UniqueKeys(s) ==> UniqueKeys(t) && MapOf(t) == MapOf(s)
  {
    assert |LiveEntries(t)| == |multiset(LiveEntries(t))| == |multiset(LiveEntries(s))|;
  }

  /**
   * The table the rebuild loop of QuadraticProbingHashMap.java:262-267 leaves, from slot `i` of
   * the old table `s` on: each live entry, in slot order, goes to the slot the probe finds for
   * its key in the new table `t` as the entries before it left it.  The first probe that fails
   * is the result.
   */
  function RebuildFrom<K, V>(hash: K -> int, s: seq<Slot<K, V>>, t: seq<Slot<K, V>>, i: nat): (r: Result<seq<Slot<K, V>>>)
    requires i <= |s|
    ensures r.Ok? ==> |r.value| == |t|
    ensures r.Err? ==> r.error == Arithmetic || r.error == IndexOutOfBounds || r.error == OutOfFuel
    decreases |s| - i
  {
    if i == |s| then Ok(t)
    else if !Live(s[i]) then RebuildFrom(hash, s, t, i + 1)
    else
      var p := ProbeOf(hash(s[i].value.key), t);
      if p.Err? then Err(p.error) else RebuildFrom(hash, s, t[p.value := s[i]], i + 1)
  }

  /** A rebuild that runs to the end from a state of `Rebuilding` finishes it. */
  lemma {:induction false} RebuildFromFinishes<K, V>(hash: K -> int, s: seq<Slot<K, V>>, t: seq<Slot<K, V>>, i: nat)
    requires i <= |s| && Rebuilding(t, s, i)
    ensures RebuildFrom(hash, s, t, i).Ok? ==> Rebuilding(RebuildFrom(hash, s, t, i).value, s, |s|)
    decreases |s| - i
  {
    if i < |s| {
      if !Live(s[i]) {
        RebuildSkip(t, s, i);
        RebuildFromFinishes(hash, s, t, i + 1);
      } else {
        var p := ProbeOf(hash(s[i].value.key), t);
        if p.Ok? {
          PlaceStep(t, p.value, s, i);
          RebuildFromFinishes(hash, s, t[p.value := s[i]], i + 1);
        }
      }
    }
  }

  /** The new table of `resizeBackingTable(length)`: the live entries of `s` rebuilt into `length` empty slots. */
  function Rebuild<K, V>(hash: K -> int, s: seq<Slot<K, V>>, length: nat): Result<seq<Slot<K, V>>>
  {
    RebuildFrom(hash, s, seq(length, _ => None), 0)
  }

  /**
   * A successful rebuild of `s` into `length` empty slots has `length` slots and no tombstones,
   * holds exactly the live entries of `s`, and stands for the same map when the keys of `s`
   * are unique.
   */
  lemma RebuildKeepsEntries<K, V>(hash: K -> int, s: seq<Slot<K, V>>, length: nat)
    ensures Rebuild(hash, s, length).Ok? ==>
              |Rebuild(hash, s, length).value| == length && NoTombstones(Rebuild(hash, s, length).value) &&
              multiset(LiveEntries(Rebuild(hash, s, length).value)) == multiset(LiveEntries(s)) &&
              (UniqueKeys(s) ==> UniqueKeys(Rebuild(hash, s, length).value) && MapOf(Rebuild(hash, s, length).value) == MapOf(s))
  {
    var e: seq<Slot<K, V>> := seq(length, _ => None);
    RebuildStart(e, s);
    RebuildFromFinishes(hash, s, e, 0);
    var r := RebuildFrom(hash, s, e, 0);
    if r.Ok? {
      RebuildDone(r.value, s);
    }
  }

  /** The values are those of the live entries, one for one, in the same order. */
  lemma {:induction false} ValuesUpToIs<K, V>(s: seq<Slot<K, V>>, n: int)
    requires 0 <= n <= |s|
    ensures |ValuesUpTo(s, n)| == |LiveIn(s, 0, n)|
    ensures forall k :: 0 <= k < |ValuesUpTo(s, n)| ==> ValuesUpTo(s, n)[k] == LiveIn(s, 0, n)[k].value
  {
    if n > 0 {
      ValuesUpToIs(s, n - 1);
    }
  }

  /** Maps with the same keys and the same value at each key are equal. */
  lemma MapExt<K, V>(a: map<K, V>, b: map<K, V>)
    requires forall k :: k in a <==> k in b
    requires forall k :: k in a ==> a[k] == b[k]
    ensures a == b
  {
  }
}
