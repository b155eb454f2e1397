/**
 * The open-addressing hash map of QuadraticProbingHashMap.java.  The backing array holds slots
 * that are empty, live or tombstones; `size` counts the live ones.  Keys are compared with `==`
 * and hashed by `hash`, the keys' `hashCode`.
 *
 * The probe (QuadraticProbingHashMap.java:299-307) stops at the first slot that is NOT live, so
 * it never finds the slot that already holds the key.  `Put` and `Remove` model the code as
 * written: `put` may store a key a second time, and `remove`, starting at a free slot, fails on
 * every map without tombstones.  `PutCorrected` and `RemoveCorrected` first look for the key
 * over the whole table, as `get` does, and keep the map a function from keys to values.
 */
module HashMap {
  import opened Wrappers
  import opened JavaInt
  import opened ProbingSpec

  /** QuadraticProbingHashMap.java:22. */
  const INITIAL_CAPACITY: int := 13

  /**
   * The load check of QuadraticProbingHashMap.java:99, `(size + 1.0) / length > 0.67`, in exact
   * arithmetic; an empty array always counts as overloaded.
   */
  predicate OverLoaded(size: int, length: int)
  {
    100 * (size + 1) > 67 * length
  }

  /** The slot a cyclic walk over `len` slots reaches after `k` steps from `start`. */
  function Cyclic(start: int, k: int, len: int): int
  {
    if start + k < len then start + k else start + k - len
  }

  /** Slot `j` is one of the first `k` slots of a cyclic walk over `len` slots from `start`. */
  predicate Visited(j: int, start: int, k: int, len: int)
  {
    0 <= j < len && (start <= j < start + k || j < start + k - len)
  }

  /** One more step of the walk is Java's `(index + 1) % len`, and it comes back to `start` only after `len` steps. */
  lemma CyclicNext(start: int, k: int, len: int)
    requires 0 <= start < len && 0 <= k < len
    ensures 0 <= Cyclic(start, k, len) < len
    ensures (Cyclic(start, k, len) + 1) % len == Cyclic(start, k + 1, len)
    ensures Cyclic(start, k + 1, len) == start <==> k + 1 == len
  {
    var c := Cyclic(start, k, len);
    if c + 1 < len {
      assert (c + 1) % len == c + 1;
    } else {
      assert (c + 1) % len == 0;
    }
  }

  /** The slots visited after one more step: those before, and the one the walk was at. */
  lemma VisitedNext(start: int, k: int, len: int)
    requires 0 <= start < len && 0 <= k < len
    ensures forall j :: Visited(j, start, k + 1, len) <==> Visited(j, start, k, len) || j == Cyclic(start, k, len)
  {
  }

  /** After `len` steps every slot has been visited. */
  lemma CyclicAll(start: int, len: int)
    requires 0 <= start < len
    ensures forall j :: 0 <= j < len ==> Visited(j, start, len, len)
  {
  }

  /**
   * The slot a walk over `s` from `start` meets first, from its step `k` on, that holds a live
   * entry of `key`; `None` when none of the remaining slots does.
   */
  function FirstFrom<K(==), V>(s: seq<Slot<K, V>>, key: K, start: int, k: nat): (r: Option<int>)
    requires 0 <= start < |s|
    ensures r.Some? ==> 0 <= r.value < |s| && HoldsKey(s[r.value], key)
    decreases |s| - k
  {
    if k >= |s| then None
    else if HoldsKey(s[Cyclic(start, k, |s|)], key) then Some(Cyclic(start, k, |s|))
    else FirstFrom(s, key, start, k + 1)
  }

  /**
   * What `FirstFrom` finds is the first live entry of `key` on the rest of the walk: it is
   * reached at some step `i` and no step before it meets one; and it finds nothing exactly when
   * no remaining step meets one.
   */
  lemma {:induction false} FirstFromIsFirst<K, V>(s: seq<Slot<K, V>>, key: K, start: int, k: nat)
    requires 0 <= start < |s| && k <= |s|
    ensures FirstFrom(s, key, start, k).Some? ==>
              exists i :: k <= i < |s| && FirstFrom(s, key, start, k).value == Cyclic(start, i, |s|) &&
                forall m :: k <= m < i ==> !HoldsKey(s[Cyclic(start, m, |s|)], key)
    ensures FirstFrom(s, key, start, k).None? <==>
              forall m :: k <= m < |s| ==> !HoldsKey(s[Cyclic(start, m, |s|)], key)
    decreases |s| - k
  {
    if k < |s| {
      FirstFromIsFirst(s, key, start, k + 1);
      var here := Cyclic(start, k, |s|);
      if !HoldsKey(s[here], key) {
        if FirstFrom(s, key, start, k).Some? {
          var i :| k + 1 <= i < |s| && FirstFrom(s, key, start, k + 1).value == Cyclic(start, i, |s|) &&
                   forall m :: k + 1 <= m < i ==> !HoldsKey(s[Cyclic(start, m, |s|)], key);
          assert forall m :: k <= m < i ==> !HoldsKey(s[Cyclic(start, m, |s|)], key);
        }
      }
    }
  }

  /** The live entry a successful `put` displaced: its key with the value returned. */
  function Displaced<K, V>(key: K, prev: Option<V>): seq<Entry<K, V>>
  {
    if prev.Some? then [Entry(key, prev.value, false)] else []
  }

  /**
   * Storing the live entry `key -> value` in slot `j`, free or holding the live entry of `key`:
   * that entry, if any, is displaced by the new one, and nothing else changes among the live
   * entries.
   */
  lemma Store<K, V>(s: seq<Slot<K, V>>, j: int, key: K, value: V)
    requires 0 <= j < |s| && (Free(s[j]) || HoldsKey(s[j], key))
    ensures var t, prev := s[j := Some(Entry(key, value, false))], if Live(s[j]) then Some(s[j].value.value) else None;
            multiset(LiveEntries(t)) + multiset(Displaced(key, prev)) ==
              multiset(LiveEntries(s)) + multiset{Entry(key, value, false)} &&
            |LiveEntries(t)| == |LiveEntries(s)| + (if prev.None? then 1 else 0) &&
            (prev.Some? ==> Entry(key, prev.value, false) in LiveEntries(s)) &&
            (NoTombstones(s) ==> NoTombstones(t))
  {
    var e := Some(Entry(key, value, false));
    LiveEntriesUpdate(s, j, e);
    if Live(s[j]) {
      LiveAt(s, j);
      assert LiveOf(s[j]) == Displaced(key, Some(s[j].value.value));
    }
  }

  class QuadraticProbingHashMap<K(==), V> {
    /** The keys' `hashCode`. */
    const hash: K -> int
    var table: array<Slot<K, V>>
    var size: int

    /** `size` counts the live entries. */
    ghost predicate Valid()
      reads this, table
    {
      size == |LiveEntries(table[..])|
    }

    /** The map the table stands for. */
    ghost function Map(): map<K, V>
      reads this, table
    {
      MapOf(table[..])
    }

    /** QuadraticProbingHashMap.java:55-58: an empty map over `initialCapacity` empty slots. */
    constructor (hash: K -> int, initialCapacity: int)
      requires initialCapacity >= 0
      ensures this.hash == hash && fresh(table) && table.Length == initialCapacity
      ensures table[..] == seq(initialCapacity, _ => None) && size == 0
      ensures Valid() && UniqueKeys(table[..]) && NoTombstones(table[..]) && Map() == map[]
    {
      this.hash := hash;
      table := new Slot<K, V>[initialCapacity](_ => None);
      size := 0;
      new;
      AllEmpty(table[..], table.Length);
    }

    /** QuadraticProbingHashMap.java:42-44: an empty map of the initial capacity. */
    constructor Default(hash: K -> int)
      ensures this.hash == hash && fresh(table) && table.Length == INITIAL_CAPACITY
      ensures table[..] == seq(INITIAL_CAPACITY, _ => None) && size == 0
      ensures Valid() && UniqueKeys(table[..]) && NoTombstones(table[..]) && Map() == map[]
    {
      this.hash := hash;
      table := new Slot<K, V>[INITIAL_CAPACITY](_ => None);
      size := 0;
      new;
      AllEmpty(table[..], table.Length);
    }

    /**
     * QuadraticProbingHashMap.java:299-307: from the home slot `|hashCode % length|`, moves on by
     * `i * i` (with `i` counting from 0) while the slot is live, all in `int` arithmetic.  The
     * result is a free slot, never one that holds the key.
     */
    method Probe(key: K, t: array<Slot<K, V>>) returns (r: Result<int>)
      ensures r == ProbeOf(hash(key), t[..])
      ensures r.Ok? ==> 0 <= r.value < t.Length && Free(t[r.value])
    {
      if t.Length == 0 {
        return Err(Arithmetic);
      }
      var index := Home(hash(key), t.Length);
      var i := 0;
      while Live(t[index])
        invariant 0 <= index < t.Length && 0 <= i <= PROBE_FUEL
        invariant ProbeFrom(t[..], index, i) == ProbeOf(hash(key), t[..])
        decreases PROBE_FUEL - i
      {
        if i == PROBE_FUEL {
          return Err(OutOfFuel);
        }
        var x := Wrap32(index + Wrap32(i * i));
        index := JRem(x, t.Length);
        if index < 0 {
          return Err(IndexOutOfBounds);
        }
        i := i + 1;
      }
      return Ok(index);
    }

    /**
     * The walk of QuadraticProbingHashMap.java:105-113 from `start`: one slot at a time up to the
     * first empty slot or live entry of `key`.  With neither anywhere the Java loop never ends:
     * `Err(OutOfFuel)`.
     */
    method FindSlot(key: K, start: int) returns (r: Result<int>)
      requires 0 <= start < table.Length
      ensures r.Ok? ==> 0 <= r.value < table.Length && (table[r.value].None? || HoldsKey(table[r.value], key))
      ensures r.Err? ==> r.error == OutOfFuel
      ensures r.Err? ==> forall j :: 0 <= j < table.Length ==> table[j].Some? && !HoldsKey(table[j], key)
      ensures table[start].None? ==> r == Ok(start)
    {
      var index, steps := start, 0;
      while table[index].Some?
        invariant 0 <= steps < table.Length && index == Cyclic(start, steps, table.Length)
        invariant forall j :: 0 <= j < table.Length && Visited(j, start, steps, table.Length) ==>
                    table[j].Some? && !HoldsKey(table[j], key)
        decreases table.Length - steps
      {
        if HoldsKey(table[index], key) {
          return Ok(index);
        }
        CyclicNext(start, steps, table.Length);
        VisitedNext(start, steps, table.Length);
        index := (index + 1) % table.Length;
        steps := steps + 1;
        if steps == table.Length {
          CyclicAll(start, table.Length);
          return Err(OutOfFuel);
        }
      }
      return Ok(index);
    }

    /**
     * The walk of QuadraticProbingHashMap.java:137-149 from `start`: up to the first empty slot,
     * or once round the table, for a live entry of `key`.
     */
    method FindLive(key: K, start: int) returns (r: Option<int>)
      requires 0 <= start < table.Length
      ensures r.Some? ==> 0 <= r.value < table.Length && HoldsKey(table[r.value], key)
      ensures table[start].None? ==> r == None
    {
      var index, lastIndex := start, start;
      ghost var steps := 0;
      while table[index].Some?
        invariant 0 <= steps < table.Length && index == Cyclic(start, steps, table.Length)
        invariant steps > 0 ==> table[start].Some?
        decreases table.Length - steps
      {
        if HoldsKey(table[index], key) {
          return Some(index);
        }
        CyclicNext(start, steps, table.Length);
        index := (index + 1) % table.Length;
        steps := steps + 1;
        if index == lastIndex {
          break;
        }
      }
      return None;
    }

    /**
     * The walk of QuadraticProbingHashMap.java:166-171 from `start`: `table.Length` slots
     * cyclically, stopping at the first live entry of `key`, which is found wherever it is.
     */
    method Scan(key: K, start: int) returns (r: Option<int>)
      requires 0 <= start < table.Length
      ensures r == FirstFrom(table[..], key, start, 0)
      ensures r.Some? ==> 0 <= r.value < table.Length && HoldsKey(table[r.value], key)
      ensures r.None? <==> !HasKey(table[..], key)
    {
      var index := start;
      for i := 0 to table.Length
        invariant index == Cyclic(start, i, table.Length)
        invariant FirstFrom(table[..], key, start, 0) == FirstFrom(table[..], key, start, i)
        invariant forall j :: 0 <= j < table.Length && Visited(j, start, i, table.Length) ==>
                    !HoldsKey(table[j], key)
      {
        if HoldsKey(table[index], key) {
          return Some(index);
        }
        CyclicNext(start, i, table.Length);
        VisitedNext(start, i, table.Length);
        index := (index + 1) % table.Length;
      }
      CyclicAll(start, table.Length);
      return None;
    }

    /**
     * QuadraticProbingHashMap.java:95-117 as written.  After the load check and resize it walks
     * on from the probe's free slot, so a key that is live before that slot is stored again.  On
     * a map without tombstones the probe's slot is empty and the entry always goes there.
     */
    method Put(key: K, value: V) returns (r: Result<Option<V>>)
      requires Valid()
      modifies this, table
      ensures Valid()
      ensures r.Ok? ==> multiset(LiveEntries(table[..])) + multiset(Displaced(key, r.value)) ==
                        old(multiset(LiveEntries(table[..]))) + multiset{Entry(key, value, false)}
      ensures r.Ok? && r.value.Some? ==> Entry(key, r.value.value, false) in old(LiveEntries(table[..]))
      ensures r.Ok? ==> size == old(size) + if r.value.None? then 1 else 0
      ensures r.Err? ==> multiset(LiveEntries(table[..])) == old(multiset(LiveEntries(table[..]))) && size == old(size)
      ensures r.Err? ==> r.error == IndexOutOfBounds || r.error == OutOfFuel
      ensures old(NoTombstones(table[..])) ==> NoTombstones(table[..]) && (r.Ok? ==> r.value == None)
      ensures !old(OverLoaded(size, table.Length)) ==> table == old(table)
      ensures !old(OverLoaded(size, table.Length)) && old(NoTombstones(table[..])) &&
              old(ProbeOf(hash(key), table[..])).Ok? ==>
                r == Ok(None) &&
                table[..] == old(table[..])[old(ProbeOf(hash(key), table[..])).value := Some(Entry(key, value, false))]
      ensures old(OverLoaded(size, table.Length)) && Rebuild(hash, old(table[..]), 2 * old(table.Length) + 1).Err? ==>
                r == Err(Rebuild(hash, old(table[..]), 2 * old(table.Length) + 1).error) && table == old(table)
      ensures old(OverLoaded(size, table.Length)) && Rebuild(hash, old(table[..]), 2 * old(table.Length) + 1).Ok? &&
              ProbeOf(hash(key), Rebuild(hash, old(table[..]), 2 * old(table.Length) + 1).value).Ok? ==>
                r == Ok(None) &&
                table[..] == Rebuild(hash, old(table[..]), 2 * old(table.Length) + 1).value
                               [ProbeOf(hash(key), Rebuild(hash, old(table[..]), 2 * old(table.Length) + 1).value).value :=
                                  Some(Entry(key, value, false))]
      ensures !old(OverLoaded(size, table.Length)) && old(ProbeOf(hash(key), table[..])).Err? ==>
                r == Err(old(ProbeOf(hash(key), table[..])).error) && table[..] == old(table[..])
      ensures old(OverLoaded(size, table.Length)) && Rebuild(hash, old(table[..]), 2 * old(table.Length) + 1).Ok? &&
              ProbeOf(hash(key), Rebuild(hash, old(table[..]), 2 * old(table.Length) + 1).value).Err? ==>
                r == Err(ProbeOf(hash(key), Rebuild(hash, old(table[..]), 2 * old(table.Length) + 1).value).error) &&
                table[..] == Rebuild(hash, old(table[..]), 2 * old(table.Length) + 1).value
    {
      if OverLoaded(size, table.Length) {
        LiveAtLeast(table[..]);
        var rr := ResizeBackingTable(2 * table.Length + 1);
        if rr.Fail? {
          return Err(rr.error);
        }
      }
      r := PutProbed(key, value);
    }

    /** Lines 102-116 of `put`: the probe, the walk on to an empty slot or the key, and the store. */
    method PutProbed(key: K, value: V) returns (r: Result<Option<V>>)
      requires Valid() && table.Length > 0
      modifies this, table
      ensures Valid() && table == old(table)
      ensures r.Ok? ==> multiset(LiveEntries(table[..])) + multiset(Displaced(key, r.value)) ==
                        old(multiset(LiveEntries(table[..]))) + multiset{Entry(key, value, false)}
      ensures r.Ok? && r.value.Some? ==> Entry(key, r.value.value, false) in old(LiveEntries(table[..]))
      ensures r.Ok? ==> size == old(size) + if r.value.None? then 1 else 0
      ensures r.Err? ==> table[..] == old(table[..]) && size == old(size)
      ensures r.Err? ==> r.error == IndexOutOfBounds || r.error == OutOfFuel
      ensures old(NoTombstones(table[..])) ==> NoTombstones(table[..]) && (r.Ok? ==> r.value == None)
      ensures old(NoTombstones(table[..])) && old(ProbeOf(hash(key), table[..])).Ok? ==>
                r == Ok(None) &&
                table[..] == old(table[..])[old(ProbeOf(hash(key), table[..])).value := Some(Entry(key, value, false))]
      ensures old(ProbeOf(hash(key), table[..])).Err? ==>
                r == Err(old(ProbeOf(hash(key), table[..])).error) && table[..] == old(table[..])
    {
      var p := Probe(key, table);
      if p.Err? {
        return Err(p.error);
      }
      var f := FindSlot(key, p.value);
      if f.Err? {
        return Err(f.error);
      }
      Store(table[..], f.value, key, value);
      var prev := StoreAt(f.value, key, value);
      r := Ok(prev);
    }

    /**
     * Lines 107-109 and 114-116 of `put`: the live entry of `key` in slot `index`, if any, gets
     * the new value, or the empty slot gets a new entry and the size grows by one.
     */
    method StoreAt(index: int, key: K, value: V) returns (prev: Option<V>)
      requires Valid() && 0 <= index < table.Length && (Free(table[index]) || HoldsKey(table[index], key))
      modifies this, table
      ensures table == old(table) && table[..] == old(table[..])[index := Some(Entry(key, value, false))]
      ensures prev == if old(Live(table[index])) then Some(old(table[index].value.value)) else None
      ensures Valid() && size == old(size) + if prev.None? then 1 else 0
    {
      ghost var s := table[..];
      Store(s, index, key, value);
      if Live(table[index]) {
        prev := Some(table[index].value.value);
      } else {
        prev := None;
        size := size + 1;
      }
      table[index] := Some(Entry(key, value, false));
      assert table[..] == s[index := Some(Entry(key, value, false))];
    }

    /**
     * QuadraticProbingHashMap.java:128-152 as written.  The walk starts at the probe's free slot:
     * on a map without tombstones that slot is empty, and the key is never found.
     */
    method Remove(key: K) returns (r: Result<V>)
      requires Valid()
      modifies this, table
      ensures Valid() && table == old(table)
      ensures r.Ok? ==> multiset(LiveEntries(table[..])) + multiset{Entry(key, r.value, false)} ==
                        old(multiset(LiveEntries(table[..])))
      ensures r.Ok? ==> exists j :: 0 <= j < table.Length && old(table[..])[j] == Some(Entry(key, r.value, false)) &&
                                    table[..] == old(table[..])[j := Some(Entry(key, r.value, true))]
      ensures r.Err? ==> table[..] == old(table[..]) && size == old(size)
      ensures ProbeOf(hash(key), old(table[..])).Err? ==> r == Err(ProbeOf(hash(key), old(table[..])).error)
      ensures ProbeOf(hash(key), old(table[..])).Ok? && r.Err? ==> r.error == NoSuchElement
      ensures old(NoTombstones(table[..])) ==> r.Err?
    {
      var p := Probe(key, table);
      if p.Err? {
        return Err(p.error);
      }
      var f := FindLive(key, p.value);
      if f.None? {
        return Err(NoSuchElement);
      }
      var index := f.value;
      ghost var s := table[..];
      var entry := table[index].value;
      var e := Some(entry.(removed := true));
      assert s[index] == Some(Entry(key, entry.value, false)) && e == Some(Entry(key, entry.value, true));
      LiveEntriesUpdate(s, index, e);
      table[index] := e;
      size := size - 1;
      assert table[..] == s[index := e];
      assert |LiveEntries(table[..])| == |LiveEntries(s)| + |LiveOf(e)| - |LiveOf(s[index])|;
      return Ok(entry.value);
    }

    /**
     * QuadraticProbingHashMap.java:162-174: the value of the first live entry of `key` met by a
     * full cyclic walk from the probe's slot, or NoSuchElementException.
     */
    method Get(key: K) returns (r: Result<V>)
      ensures ProbeOf(hash(key), table[..]).Err? ==> r == Err(ProbeOf(hash(key), table[..]).error)
      ensures ProbeOf(hash(key), table[..]).Ok? ==>
                r == match FirstFrom(table[..], key, ProbeOf(hash(key), table[..]).value, 0)
                     case None => Err(NoSuchElement)
                     case Some(j) => Ok(table[j].value.value)
      ensures ProbeOf(hash(key), table[..]).Ok? ==>
                (r.Ok? <==> HasKey(table[..], key)) && (r.Err? ==> r.error == NoSuchElement)
      ensures r.Ok? ==> exists j :: 0 <= j < table.Length && table[j] == Some(Entry(key, r.value, false))
      ensures UniqueKeys(table[..]) && r.Ok? ==> key in Map() && r.value == Map()[key]
    {
      var p := Probe(key, table);
      if p.Err? {
        return Err(p.error);
      }
      var found := Scan(key, p.value);
      if found.None? {
        return Err(NoSuchElement);
      }
      var j := found.value;
      assert table[j] == Some(Entry(key, table[j].value.value, false));
      assert UniqueKeys(table[..]) ==> key in Map() && table[j].value.value == Map()[key] by {
        if UniqueKeys(table[..]) {
          MapOfAt(table[..], j);
        }
      }
      return Ok(table[j].value.value);
    }

    /** QuadraticProbingHashMap.java:184-191: `get` with NoSuchElementException read as `false`. */
    method ContainsKey(key: K) returns (r: Result<bool>)
      ensures ProbeOf(hash(key), table[..]).Err? ==> r == Err(ProbeOf(hash(key), table[..]).error)
      ensures ProbeOf(hash(key), table[..]).Ok? ==> r == Ok(HasKey(table[..], key))
      ensures UniqueKeys(table[..]) && r.Ok? ==> (r.value <==> key in Map())
    {
      var g := Get(key);
      if g.Ok? {
        r := Ok(true);
      } else if g.error == NoSuchElement {
        r := Ok(false);
      } else {
        r := Err(g.error);
      }
      assert UniqueKeys(table[..]) ==> (HasKey(table[..], key) <==> key in Map()) by {
        if UniqueKeys(table[..]) {
          MapOfIs(table[..], key);
        }
      }
    }

    /** QuadraticProbingHashMap.java:200-208: the keys of the live entries. */
    method KeySet() returns (ks: set<K>)
      ensures ks == KeysOf(table[..]) && ks == Map().Keys
      ensures forall k :: k in ks <==> HasKey(table[..], k)
    {
      ks := {};
      for i := 0 to table.Length
        invariant ks == KeysUpTo(table[..], i)
      {
        if Live(table[i]) {
          ks := ks + {table[i].value.key};
        }
      }
      forall k
        ensures k in ks <==> HasKey(table[..], k)
      {
        KeysOfIs(table[..], k);
      }
      MapUpToKeys(table[..], table.Length);
    }

    /** QuadraticProbingHashMap.java:220-228: the values of the live entries in slot order. */
    method Values() returns (vs: seq<V>)
      requires Valid()
      ensures vs == ValuesOf(table[..])
      ensures |vs| == size && forall k :: 0 <= k < |vs| ==> vs[k] == LiveEntries(table[..])[k].value
    {
      vs := [];
      for i := 0 to table.Length
        invariant vs == ValuesUpTo(table[..], i)
      {
        if Live(table[i]) {
          vs := vs + [table[i].value.value];
        }
      }
      ValuesUpToIs(table[..], table.Length);
    }

    /**
     * QuadraticProbingHashMap.java:256-269: IllegalArgumentException below `size`; otherwise
     * every live entry, in slot order, goes to the slot the probe finds in a new array of
     * `length` empty slots.  Tombstones are dropped.  A failing probe leaves the map as it was.
     */
    method ResizeBackingTable(length: int) returns (r: Outcome)
      requires Valid()
      modifies this
      ensures Valid() && size == old(size)
      ensures r.Fail? ==> table == old(table)
      ensures r.Fail? ==> (r.error == IllegalArgument <==> length < old(size))
      ensures r.Fail? ==> r.error == IllegalArgument || r.error == IndexOutOfBounds || r.error == OutOfFuel
      ensures r.Pass? ==> fresh(table) && table.Length == length && NoTombstones(table[..]) &&
                          multiset(LiveEntries(table[..])) == old(multiset(LiveEntries(table[..])))
      ensures r.Pass? && old(UniqueKeys(table[..])) ==> UniqueKeys(table[..]) && Map() == old(Map())
      ensures length >= old(size) ==> Rebuild(hash, old(table[..]), length) == if r.Pass? then Ok(table[..]) else Err(r.error)
    {
      if length < size {
        return Fail(IllegalArgument);
      }
      LiveAtLeast(table[..]);
      var newTable;
      r, newTable := Rebuilt(table[..], length);
      if r.Pass? {
        RebuildDone(newTable[..], table[..]);
        table := newTable;
      }
    }

    /**
     * The loop of QuadraticProbingHashMap.java:260-267: a new array of `length` empty slots into
     * which the probe places every live entry of the table, in slot order.
     */
    method Rebuilt(s: seq<Slot<K, V>>, length: int) returns (r: Outcome, newTable: array<Slot<K, V>>)
      requires |LiveEntries(s)| <= length
      ensures fresh(newTable) && newTable.Length == length
      ensures r.Fail? ==> r.error == IndexOutOfBounds || r.error == OutOfFuel
      ensures r.Pass? ==> Rebuilding(newTable[..], s, |s|)
      ensures Rebuild(hash, s, length) == if r.Pass? then Ok(newTable[..]) else Err(r.error)
    {
      newTable := new Slot<K, V>[length](_ => None);
      assert newTable[..] == seq(length, _ => None);
      RebuildStart(newTable[..], s);
      for i := 0 to |s|
        invariant Rebuilding(newTable[..], s, i)
        invariant RebuildFrom(hash, s, newTable[..], i) == Rebuild(hash, s, length)
      {
        var p := Place(newTable, s, i, s[i]);
        if p.Fail? {
          return p, newTable;
        }
      }
      r := Pass;
    }

    /**
     * One iteration of QuadraticProbingHashMap.java:262-267: the live entry `x`, slot `i` of the
     * old table `s`, goes to the slot the probe finds for its key in the new table `t`.
     */
    method Place(t: array<Slot<K, V>>, ghost s: seq<Slot<K, V>>, i: int, x: Slot<K, V>) returns (r: Outcome)
      requires 0 <= i < |s| && x == s[i] && |LiveEntries(s)| <= t.Length && Rebuilding(t[..], s, i)
      modifies t
      ensures !Live(x) ==> r == Pass && t[..] == old(t[..])
      ensures Live(x) && r.Pass? ==>
                ProbeOf(hash(x.value.key), old(t[..])).Ok? &&
                t[..] == old(t[..])[ProbeOf(hash(x.value.key), old(t[..])).value := x]
      ensures r.Fail? ==> t[..] == old(t[..]) && ProbeOf(hash(x.value.key), old(t[..])) == Err(r.error)
      ensures r.Fail? ==> r.error == IndexOutOfBounds || r.error == OutOfFuel
      ensures r.Pass? ==> Rebuilding(t[..], s, i + 1)
      ensures RebuildFrom(hash, s, old(t[..]), i) == if r.Pass? then RebuildFrom(hash, s, t[..], i + 1) else Err(r.error)
    {
      if !Live(x) {
        RebuildSkip(t[..], s, i);
        return Pass;
      }
      LiveAt(s, i);
      var p := Probe(x.value.key, t);
      if p.Err? {
        return Fail(p.error);
      }
      ghost var t0 := t[..];
      PlaceStep(t0, p.value, s, i);
      t[p.value] := x;
      assert t[..] == t0[p.value := s[i]];
      r := Pass;
    }

    /** QuadraticProbingHashMap.java:279-282: an empty map of the initial capacity. */
    method Clear()
      modifies this
      ensures fresh(table) && table.Length == INITIAL_CAPACITY && size == 0
      ensures Valid() && UniqueKeys(table[..]) && NoTombstones(table[..]) && Map() == map[]
    {
      table := new Slot<K, V>[INITIAL_CAPACITY](_ => None);
      size := 0;
      AllEmpty(table[..], table.Length);
    }

    /**
     * `put` as evidently intended: after the load check, the whole table is searched for `key`
     * from its home slot; a live entry of it gets the new value, otherwise the entry goes to the
     * probe's free slot.  The map is updated at `key` and the previous value returned.
     */
    method PutCorrected(key: K, value: V) returns (r: Result<Option<V>>)
      requires Valid() && UniqueKeys(table[..])
      modifies this, table
      ensures Valid() && UniqueKeys(table[..])
      ensures r.Ok? ==> Map() == old(Map())[key := value]
      ensures r.Ok? ==> r.value == if key in old(Map()) then Some(old(Map())[key]) else None
      ensures r.Ok? ==> size == old(size) + if r.value.None? then 1 else 0
      ensures r.Err? ==> size == old(size)
      ensures r.Err? ==> Map() == old(Map()) && (r.error == IndexOutOfBounds || r.error == OutOfFuel)
      ensures !old(OverLoaded(size, table.Length)) ==> table == old(table)
      ensures !old(OverLoaded(size, table.Length)) && (key in old(Map()) || old(ProbeOf(hash(key), table[..])).Ok?) ==>
                r.Ok?
    {
      if OverLoaded(size, table.Length) {
        var rr := ResizeBackingTable(2 * table.Length + 1);
        if rr.Fail? {
          return Err(rr.error);
        }
      }
      r := PutCorrectedProbed(key, value);
    }

    /** The search and store of `PutCorrected`, on a table with at least one slot. */
    method PutCorrectedProbed(key: K, value: V) returns (r: Result<Option<V>>)
      requires Valid() && UniqueKeys(table[..]) && table.Length > 0
      modifies this, table
      ensures Valid() && UniqueKeys(table[..]) && table == old(table)
      ensures r.Ok? ==> Map() == old(Map())[key := value]
      ensures r.Ok? ==> r.value == if key in old(Map()) then Some(old(Map())[key]) else None
      ensures r.Ok? ==> size == old(size) + if r.value.None? then 1 else 0
      ensures r.Err? ==> size == old(size)
      ensures r.Err? ==> table[..] == old(table[..]) && (r.error == IndexOutOfBounds || r.error == OutOfFuel)
      ensures key in old(Map()) || old(ProbeOf(hash(key), table[..])).Ok? ==> r.Ok?
    {
      ghost var s := table[..];
      MapOfIs(s, key);
      var found := Scan(key, Home(hash(key), table.Length));
      var index: int;
      if found.Some? {
        index := found.value;
        MapOfAt(s, index);
      } else {
        var p := Probe(key, table);
        if p.Err? {
          return Err(p.error);
        }
        index := p.value;
      }
      MapOfPut(s, index, key, value);
      var prev := StoreAt(index, key, value);
      r := Ok(prev);
    }

    /**
     * `remove` as evidently intended: the whole table is searched for `key` from its home slot;
     * its live entry is marked removed and its value returned, otherwise NoSuchElementException.
     */
    method RemoveCorrected(key: K) returns (r: Result<V>)
      requires Valid() && UniqueKeys(table[..])
      modifies this, table
      ensures Valid() && UniqueKeys(table[..]) && table == old(table)
      ensures table.Length == 0 <==> r == Err(Arithmetic)
      ensures table.Length > 0 ==> (r.Ok? <==> key in old(Map())) && (r.Err? ==> r.error == NoSuchElement)
      ensures r.Ok? ==> r.value == old(Map())[key] && Map() == old(Map()) - {key} && size == old(size) - 1
      ensures r.Err? ==> table[..] == old(table[..]) && size == old(size)
    {
      if table.Length == 0 {
        return Err(Arithmetic);
      }
      ghost var s := table[..];
      MapOfIs(s, key);
      var found := Scan(key, Home(hash(key), table.Length));
      if found.None? {
        return Err(NoSuchElement);
      }
      var index := found.value;
      MapOfAt(s, index);
      var entry := table[index].value;
      var e := Some(entry.(removed := true));
      LiveEntriesUpdate(s, index, e);
      MapOfRemove(s, index);
      table[index] := e;
      size := size - 1;
      assert table[..] == s[index := e];
      assert |LiveEntries(table[..])| == |LiveEntries(s)| + |LiveOf(e)| - |LiveOf(s[index])|;
      return Ok(entry.value);
    }
  }

  /** Key 1 with `hashCode` 1 has home slot 1 in 13 slots. */
  lemma HomeOfOne()
    ensures Home(1, 13) == 1
  {
    assert Wrap32(1) == 1;
  }

  /**
   * With slot 1 live and slot 2 empty, the probe for hash code 1 in 13 slots steps from slot 1
   * by `0 * 0` to slot 1 again, then by `1 * 1` to slot 2.
   */
  lemma ProbePastOne<K, V>(s: seq<Slot<K, V>>)
    requires |s| == 13 && Live(s[1]) && s[2].None?
    ensures ProbeOf(1, s) == Ok(2)
  {
    ProbeStartsAtOne(s);
    ProbeRevisits(s, 1);
    ProbeSecondStep(s);
    ProbeStops(s);
  }

  lemma ProbeStops<K, V>(s: seq<Slot<K, V>>)
    requires |s| == 13 && s[2].None?
    ensures ProbeFrom(s, 2, 2) == Ok(2)
  {
  }

  lemma ProbeStartsAtOne<K, V>(s: seq<Slot<K, V>>)
    requires |s| == 13
    ensures ProbeOf(1, s) == ProbeFrom(s, 1, 0)
  {
    HomeOfOne();
  }

  lemma ProbeSecondStep<K, V>(s: seq<Slot<K, V>>)
    requires |s| == 13 && Live(s[1])
    ensures ProbeFrom(s, 1, 1) == ProbeFrom(s, 2, 2)
  {
    StepOne();
    ProbeStep(s, 1, 1, 2);
  }

  /** The probe's second step, by `1 * 1`, from slot 1 of 13. */
  lemma StepOne()
    ensures JRem(Wrap32(1 + Wrap32(1 * 1)), 13) == 2
  {
    assert Wrap32(1 + Wrap32(1 * 1)) == 2;
    assert JDiv(2, 13) == 0;
  }

  /** The probe for hash code 1 in 13 slots with slot 1 empty stops there at once. */
  lemma ProbeHomeOne<K, V>(s: seq<Slot<K, V>>)
    requires |s| == 13 && s[1].None?
    ensures ProbeOf(1, s) == Ok(1)
  {
    HomeOfOne();
  }

  /** A map of 13 slots with `hashCode` the identity after `put(1, 10)`: key 1 in its home slot. */
  method OneEntry() returns (m: QuadraticProbingHashMap<int, int>)
    ensures fresh(m) && fresh(m.table) && m.Valid() && m.hash(1) == 1 && m.size == 1
    ensures m.table[..] == seq(13, _ => None)[1 := Some(Entry(1, 10, false))]
  {
    m := new QuadraticProbingHashMap.Default(k => k);
    assert m.hash(1) == 1;
    ProbeHomeOne(m.table[..]);
    var r := m.Put(1, 10);
  }

  /**
   * After `put` as written has stored key 1 in slots 1 and 2, `get(1)` probes slots 1, 1, 2 and
   * the empty slot 6, walks on from there through slots 7 .. 12 and 0, and returns the value 10
   * of slot 1, the first entry of key 1 it meets.
   */
  method GetAfterDuplicates() returns (r: Result<int>)
    ensures r == Ok(10)
  {
    var m := PutTwiceDuplicates();
    DuplicatesLookup(m.table[..]);
    r := m.Get(1);
  }

  /** The table after the two `put`s of key 1: slots 1 and 2 hold it, every other slot is empty. */
  lemma DuplicatesLayout(s: seq<Slot<int, int>>)
    requires s == seq(13, _ => None)[1 := Some(Entry(1, 10, false))][2 := Some(Entry(1, 20, false))]
    ensures |s| == 13 && s[1] == Some(Entry(1, 10, false)) && Live(s[2]) && s[6].None?
    ensures forall j :: 6 <= j < 13 || j == 0 ==> s[j].None?
  {
  }

  /** In that table the probe for hash code 1 ends at slot 6 and the walk from there meets slot 1 first. */
  lemma DuplicatesLookup(s: seq<Slot<int, int>>)
    requires s == seq(13, _ => None)[1 := Some(Entry(1, 10, false))][2 := Some(Entry(1, 20, false))]
    ensures ProbeOf(1, s) == Ok(6) && FirstFrom(s, 1, 6, 0) == Some(1) && s[1].value.value == 10
  {
    DuplicatesLayout(s);
    ProbeAfterDuplicates(s);
    FirstAfterDuplicates(s);
  }

  /** With slots 1 and 2 live and slot 6 empty, the probe for hash code 1 in 13 slots stops at slot 6. */
  lemma ProbeAfterDuplicates<K, V>(s: seq<Slot<K, V>>)
    requires |s| == 13 && Live(s[1]) && Live(s[2]) && s[6].None?
    ensures ProbeOf(1, s) == Ok(6)
  {
    ProbeStartsAtOne(s);
    ProbeRevisits(s, 1);
    ProbeSecondStep(s);
    ProbeThirdStep(s);
    ProbeStopsAtSix(s);
  }

  lemma ProbeThirdStep<K, V>(s: seq<Slot<K, V>>)
    requires |s| == 13 && Live(s[2])
    ensures ProbeFrom(s, 2, 2) == ProbeFrom(s, 6, 3)
  {
    StepTwo();
    ProbeStep(s, 2, 2, 6);
  }

  lemma ProbeStopsAtSix<K, V>(s: seq<Slot<K, V>>)
    requires |s| == 13 && s[6].None?
    ensures ProbeFrom(s, 6, 3) == Ok(6)
  {
  }

  /** The probe's third step, by `2 * 2`, from slot 2 of 13. */
  lemma StepTwo()
    ensures JRem(Wrap32(2 + Wrap32(2 * 2)), 13) == 6
  {
    assert Wrap32(2 + Wrap32(2 * 2)) == 6;
    assert JDiv(6, 13) == 0;
  }

  /** Walking from slot 6 over slots 6 .. 12 and 0, all empty, the first entry of key 1 is in slot 1. */
  lemma FirstAfterDuplicates<V>(s: seq<Slot<int, V>>)
    requires |s| == 13 && HoldsKey(s[1], 1)
    requires forall j :: 6 <= j < 13 || j == 0 ==> s[j].None?
    ensures FirstFrom(s, 1, 6, 0) == Some(1)
  {
    assert Cyclic(6, 8, 13) == 1;
    assert FirstFrom(s, 1, 6, 8) == Some(1);
    assert FirstFrom(s, 1, 6, 7) == Some(1);
    assert FirstFrom(s, 1, 6, 6) == Some(1);
    assert FirstFrom(s, 1, 6, 5) == Some(1);
    assert FirstFrom(s, 1, 6, 4) == Some(1);
    assert FirstFrom(s, 1, 6, 3) == Some(1);
    assert FirstFrom(s, 1, 6, 2) == Some(1);
    assert FirstFrom(s, 1, 6, 1) == Some(1);
  }

  /**
   * `put` as written stores a key twice: into the empty table of 13 slots with `hashCode` the
   * identity, key 1 goes to its home slot 1; a second `put` of key 1 probes on to slot 2, which
   * is empty, and stores a second live entry for key 1 there.
   */
  method PutTwiceDuplicates() returns (m: QuadraticProbingHashMap<int, int>)
    ensures m.Valid() && m.table.Length == 13
    ensures m.table[1] == Some(Entry(1, 10, false)) && m.table[2] == Some(Entry(1, 20, false))
    ensures m.hash(1) == 1
    ensures m.table[..] == seq(13, _ => None)[1 := Some(Entry(1, 10, false))][2 := Some(Entry(1, 20, false))]
    ensures !UniqueKeys(m.table[..])
  {
    m := OneEntry();
    ghost var s1 := m.table[..];
    OneEntryMap(s1);
    ProbePastOne(s1);
    var r := m.Put(1, 20);
    TwiceLayout(s1, m.table[..]);
  }

  /** Storing key 1 again in slot 2 of the one-entry table leaves two live entries of key 1. */
  lemma TwiceLayout(s1: seq<Slot<int, int>>, s2: seq<Slot<int, int>>)
    requires s1 == seq(13, _ => None)[1 := Some(Entry(1, 10, false))]
    requires s2 == s1[2 := Some(Entry(1, 20, false))]
    ensures s2 == seq(13, _ => None)[1 := Some(Entry(1, 10, false))][2 := Some(Entry(1, 20, false))]
    ensures s2[1] == Some(Entry(1, 10, false)) && s2[2] == Some(Entry(1, 20, false))
    ensures !UniqueKeys(s2)
  {
    assert s2[1].value.key == s2[2].value.key;
  }

  /**
   * `remove` as written misses a key that is there: after one `put` of key 1 into the empty
   * table the probe for key 1 ends at slot 2, which is empty, so `remove(1)` throws
   * NoSuchElementException while key 1 is in the map.
   */
  method RemoveAfterPutFails() returns (m: QuadraticProbingHashMap<int, int>, r: Result<int>)
    ensures m.Valid() && 1 in m.Map() && m.Map()[1] == 10
    ensures r == Err(NoSuchElement)
  {
    m := OneEntry();
    ghost var s1 := m.table[..];
    ProbePastOne(s1);
    r := m.Remove(1);
    OneEntryMap(s1);
  }

  /** The table of `OneEntry` maps key 1 to 10, without tombstones. */
  lemma OneEntryMap(s: seq<Slot<int, int>>)
    requires s == seq(13, _ => None)[1 := Some(Entry(1, 10, false))]
    ensures NoTombstones(s) && UniqueKeys(s) && MapOf(s) == map[1 := 10]
  {
    var s0: seq<Slot<int, int>> := seq(13, _ => None);
    AllEmpty(s0, 13);
    MapOfPut(s0, 1, 1, 10);
  }

  /** `PutCorrected` twice with the same key replaces the value; the old value is returned. */
  method PutCorrectedTwiceReplaces() returns (m: QuadraticProbingHashMap<int, int>, r: Result<Option<int>>)
    ensures m.Valid() && UniqueKeys(m.table[..]) && m.Map().Keys == {1} && m.Map()[1] == 20
    ensures r == Ok(Some(10))
  {
    m := OneEntry();
    OneEntryMap(m.table[..]);
    r := m.PutCorrected(1, 20);
  }
}
