/** The JavaScript collection behaviour the dashboard relies on: a `Set` built from a list
    keeps first occurrences in order, a `Map` remembers the order in which keys were first
    set, and `reduce((acc, x) => acc + f(x), 0)` sums from the left. */
module Collections {
  import opened Wrappers
  import opened Ordering

  ghost predicate NoDuplicates<T>(s: seq<T>)
  {
    forall i, j :: 0 <= i < j < |s| ==> s[i] != s[j]
  }

  /** A prefix one longer is the prefix and the next element. */
  lemma PrefixSnoc<T>(s: seq<T>, c: nat)
    requires c < |s|
    ensures s[..c + 1] == s[..c] + [s[c]]
  {
  }

  /** The position of the first occurrence of x in s. */
  ghost function FirstIndex<T>(s: seq<T>, x: T): (i: nat)
    requires x in s
    ensures i < |s| && s[i] == x && x !in s[..i]
    decreases |s|
  {
    if s[0] == x then 0
    else
      var k := FirstIndex(s[1..], x);
      assert s[..k + 1] == [s[0]] + s[1..][..k];
      k + 1
  }

  /** Only the first occurrence has no earlier copy. */
  lemma FirstIndexUnique<T>(s: seq<T>, x: T, k: nat)
    requires k < |s| && s[k] == x && x !in s[..k]
    ensures FirstIndex(s, x) == k
  {
  }

  /** Appending an element moves no first occurrence, and a new element first occurs at
      the end. */
  lemma FirstIndexSnoc<T>(s: seq<T>, y: T)
    ensures forall x :: x in s ==> FirstIndex(s + [y], x) == FirstIndex(s, x)
    ensures y !in s ==> FirstIndex(s + [y], y) == |s|
  {
    forall x | x in s
      ensures FirstIndex(s + [y], x) == FirstIndex(s, x)
    {
      var i := FirstIndex(s, x);
      assert (s + [y])[..i] == s[..i];
      FirstIndexUnique(s + [y], x, i);
    }
    if y !in s {
      assert (s + [y])[..|s|] == s;
      FirstIndexUnique(s + [y], y, |s|);
    }
  }

  /** `Array.from(new Set(s))`: each element once, at its first occurrence, so the
      elements come in the order of their first occurrences in s. */
  function Dedup<T(==, !new)>(s: seq<T>): (r: seq<T>)
    ensures NoDuplicates(r)
    ensures forall x :: x in r <==> x in s
    ensures forall i, j :: 0 <= i < j < |r| ==> FirstIndex(s, r[i]) < FirstIndex(s, r[j])
    decreases |s|
  {
    if s == [] then []
    else
      var init, last := s[..|s| - 1], s[|s| - 1];
      var d := Dedup(init);
      assert s == init + [last];
      FirstIndexSnoc(init, last);
      if last in d then d else d + [last]
  }

  /** De-duplicating one more element keeps it only when it is new. */
  lemma DedupSnoc<T(!new)>(s: seq<T>, x: T)
    ensures Dedup(s + [x]) == if x in Dedup(s) then Dedup(s) else Dedup(s) + [x]
  {
    assert (s + [x])[..|s|] == s;
  }

  /** A JavaScript `Map`: its entries, and its keys in the order they were first set. */
  datatype JsMap<K, V> = JsMap(entries: map<K, V>, keys: seq<K>)

  /** The key order lists every key of the entries exactly once. */
  ghost predicate WellFormed<K(!new), V>(m: JsMap<K, V>)
  {
    NoDuplicates(m.keys) && forall k :: k in m.keys <==> k in m.entries
  }

  /** `map.set(k, v)`: the value is replaced; a new key goes to the end of the order and a
      key already present keeps its place. */
  function MapSet<K(==, !new), V>(m: JsMap<K, V>, k: K, v: V): (r: JsMap<K, V>)
    ensures WellFormed(m) ==> WellFormed(r)
    ensures k in r.entries && r.entries[k] == v
    ensures forall k' :: k' != k ==> (k' in r.entries <==> k' in m.entries)
    ensures forall k' :: k' != k && k' in m.entries ==> r.entries[k'] == m.entries[k']
    ensures k in m.entries ==> r.keys == m.keys
    ensures k !in m.entries ==> r.keys == m.keys + [k]
  {
    JsMap(m.entries[k := v], if k in m.entries then m.keys else m.keys + [k])
  }

  /** `s.reduce((acc, x) => acc + f(x), 0)`. */
  function Sum<T>(s: seq<T>, f: T -> int): int
    decreases |s|
  {
    if s == [] then 0 else Sum(s[..|s| - 1], f) + f(s[|s| - 1])
  }

  /** Summing a concatenation sums the parts. */
  lemma {:induction false} SumAppend<T>(a: seq<T>, b: seq<T>, f: T -> int)
    ensures Sum(a + b, f) == Sum(a, f) + Sum(b, f)
    decreases |b|
  {
    if b != [] {
      assert (a + b)[..|a + b| - 1] == a + b[..|b| - 1];
      SumAppend(a, b[..|b| - 1], f);
    } else {
      assert a + b == a;
    }
  }

  /** Inserting an element adds its value to the sum. */
  lemma {:induction false} SumInsert<T>(s: seq<T>, x: T, rank: T -> seq<int>, f: T -> int)
    ensures Sum(Insert(s, x, rank), f) == Sum(s, f) + f(x)
    decreases |s|
  {
    if s == [] || LexLe(rank(s[|s| - 1]), rank(x)) {
      assert (s + [x])[..|s|] == s;
    } else {
      var init := s[..|s| - 1];
      SumInsert(init, x, rank, f);
      var r := Insert(init, x, rank) + [s[|s| - 1]];
      assert r[..|r| - 1] == Insert(init, x, rank);
    }
  }

  /** Sorting does not change a sum. */
  lemma {:induction false} SumSortBy<T>(s: seq<T>, rank: T -> seq<int>, f: T -> int)
    ensures Sum(SortBy(s, rank), f) == Sum(s, f)
    decreases |s|
  {
    if s != [] {
      SumSortBy(s[..|s| - 1], rank, f);
      SumInsert(SortBy(s[..|s| - 1], rank), s[|s| - 1], rank, f);
    }
  }

  /** `Object.fromEntries(entries)`: a later entry with the same key replaces an earlier
      one. */
  function FromEntries<K, V>(entries: seq<(K, V)>): map<K, V>
    decreases |entries|
  {
    if entries == [] then map[]
    else
      var last := entries[|entries| - 1];
      FromEntries(entries[..|entries| - 1])[last.0 := last.1]
  }

  /** A key is present exactly when some entry carries it, and its value is that of the
      last entry carrying it. */
  lemma {:induction false} FromEntriesLastWins<K, V>(entries: seq<(K, V)>)
    ensures forall k :: k in FromEntries(entries) <==> exists i :: 0 <= i < |entries| && entries[i].0 == k
    ensures forall i :: 0 <= i < |entries| && (forall j :: i < j < |entries| ==> entries[j].0 != entries[i].0)
              ==> FromEntries(entries)[entries[i].0] == entries[i].1
    decreases |entries|
  {
    if entries != [] {
      var init := entries[..|entries| - 1];
      FromEntriesLastWins(init);
      forall k
        ensures k in FromEntries(entries) <==> exists i :: 0 <= i < |entries| && entries[i].0 == k
      {
        if k in FromEntries(init) {
          var i :| 0 <= i < |init| && init[i].0 == k;
          assert entries[i] == init[i];
        }
        if exists i :: 0 <= i < |entries| && entries[i].0 == k {
          var i :| 0 <= i < |entries| && entries[i].0 == k;
          if i < |init| {
            assert entries[i] == init[i];
          }
        }
      }
      forall i | 0 <= i < |init|
        ensures entries[i] == init[i]
      {
      }
    }
  }
}
