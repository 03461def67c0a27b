/** Lexicographic order on integer tuples and the stable sort every `.sort(cmp)` of the
    dashboard performs. A JavaScript comparator of the shape "difference of the first
    differing field" orders elements exactly as their field tuples compare under LexLe,
    and Array.prototype.sort is stable, so every sort in the source computes SortBy. */
module Ordering {

  /** x precedes or equals y lexicographically; a proper prefix comes first. */
  predicate LexLe(x: seq<int>, y: seq<int>)
    decreases |x|
  {
    x == [] || (y != [] && (x[0] < y[0] || (x[0] == y[0] && LexLe(x[1..], y[1..]))))
  }

  /** Strictly before. */
  predicate LexLt(x: seq<int>, y: seq<int>)
  {
    !LexLe(y, x)
  }

  lemma {:induction false} LexLeTotal(x: seq<int>, y: seq<int>)
    ensures LexLe(x, y) || LexLe(y, x)
    decreases |x|
  {
    if x != [] && y != [] && x[0] == y[0] {
      LexLeTotal(x[1..], y[1..]);
    }
  }

  lemma {:induction false} LexLeRefl(x: seq<int>)
    ensures LexLe(x, x)
    decreases |x|
  {
    if x != [] {
      LexLeRefl(x[1..]);
    }
  }

  lemma {:induction false} LexLeTrans(x: seq<int>, y: seq<int>, z: seq<int>)
    requires LexLe(x, y) && LexLe(y, z)
    ensures LexLe(x, z)
    decreases |x|
  {
    if x != [] && x[0] == y[0] && y[0] == z[0] {
      LexLeTrans(x[1..], y[1..], z[1..]);
    }
  }

  lemma {:induction false} LexLeAntisym(x: seq<int>, y: seq<int>)
    requires LexLe(x, y) && LexLe(y, x)
    ensures x == y
    decreases |x|
  {
    if x != [] {
      LexLeAntisym(x[1..], y[1..]);
      assert x == [x[0]] + x[1..] && y == [y[0]] + y[1..];
    }
  }

  /** LexLe on one-, two- and three-field tuples, spelled out field by field. */
  lemma LexLeFields(x: seq<int>, y: seq<int>)
    requires |x| == |y| && 1 <= |x| <= 3
    ensures |x| == 1 ==> (LexLe(x, y) <==> x[0] <= y[0])
    ensures |x| == 2 ==> (LexLe(x, y) <==> (x[0] < y[0] || (x[0] == y[0] && x[1] <= y[1])))
    ensures |x| == 3 ==> (LexLe(x, y) <==> (x[0] < y[0] || (x[0] == y[0] && (x[1] < y[1] || (x[1] == y[1] && x[2] <= y[2])))))
  {
    if |x| >= 2 {
      assert x[1..][1..] == x[2..] && y[1..][1..] == y[2..];
    }
    if |x| == 3 {
      assert x[2..][1..] == [] && y[2..][1..] == [];
    }
  }

  /** Strict order is preserved under a common prefix and survives any suffixes when the
      compared parts have equal length. */
  lemma {:induction false} LexLtAppend(p: seq<int>, x: seq<int>, y: seq<int>, dx: seq<int>, dy: seq<int>)
    requires |x| == |y| && LexLt(x, y)
    ensures LexLt(p + x + dx, p + y + dy)
    decreases |p| + |x|
  {
    if p != [] {
      assert (p + x + dx)[1..] == p[1..] + x + dx;
      assert (p + y + dy)[1..] == p[1..] + y + dy;
      LexLtAppend(p[1..], x, y, dx, dy);
    } else {
      assert p + x + dx == x + dx && p + y + dy == y + dy;
      assert x != [];
      if x[0] == y[0] {
        assert (x + dx)[1..] == x[1..] + dx;
        assert (y + dy)[1..] == y[1..] + dy;
        LexLtAppend([], x[1..], y[1..], dx, dy);
        assert [] + x[1..] + dx == x[1..] + dx;
        assert [] + y[1..] + dy == y[1..] + dy;
      }
    }
  }

  /** Every pair of positions is in rank order. */
  ghost predicate SortedBy<T>(s: seq<T>, rank: T -> seq<int>)
  {
    forall i, j :: 0 <= i < j < |s| ==> LexLe(rank(s[i]), rank(s[j]))
  }

  /** Every pair of positions is strictly in rank order (sorted and free of rank ties). */
  ghost predicate StrictlyIncreasing<T>(s: seq<T>, rank: T -> seq<int>)
  {
    forall i, j :: 0 <= i < j < |s| ==> LexLt(rank(s[i]), rank(s[j]))
  }

  /** Inserts x after every element of the sorted s whose rank is not above x's: the step
      of a stable insertion sort. */
  function Insert<T>(s: seq<T>, x: T, rank: T -> seq<int>): (r: seq<T>)
    ensures |r| == |s| + 1
    decreases |s|
  {
    if s == [] || LexLe(rank(s[|s| - 1]), rank(x)) then s + [x]
    else Insert(s[..|s| - 1], x, rank) + [s[|s| - 1]]
  }

  /** Insertion adds exactly x. */
  lemma {:induction false} InsertPerm<T>(s: seq<T>, x: T, rank: T -> seq<int>)
    ensures multiset(Insert(s, x, rank)) == multiset(s) + multiset{x}
    decreases |s|
  {
    if !(s == [] || LexLe(rank(s[|s| - 1]), rank(x))) {
      var init, last := s[..|s| - 1], s[|s| - 1];
      assert s == init + [last];
      InsertPerm(init, x, rank);
    }
  }

  /** Insertion keeps a sorted sequence sorted. */
  lemma {:induction false} InsertSorted<T>(s: seq<T>, x: T, rank: T -> seq<int>)
    requires SortedBy(s, rank)
    ensures SortedBy(Insert(s, x, rank), rank)
    decreases |s|
  {
    if s == [] || LexLe(rank(s[|s| - 1]), rank(x)) {
      forall i | 0 <= i < |s| - 1
        ensures LexLe(rank(s[i]), rank(x))
      {
        LexLeTrans(rank(s[i]), rank(s[|s| - 1]), rank(x));
      }
    } else {
      var init, last := s[..|s| - 1], s[|s| - 1];
      assert s == init + [last];
      SortedPrefix(s, |s| - 1, rank);
      InsertSorted(init, x, rank);
      InsertPerm(init, x, rank);
      var r' := Insert(init, x, rank);
      LexLeTotal(rank(x), rank(last));
      forall i | 0 <= i < |r'|
        ensures LexLe(rank(r'[i]), rank(last))
      {
        assert r'[i] in multiset(r');
        if r'[i] != x {
          assert r'[i] in multiset(init);
          var k :| 0 <= k < |init| && init[k] == r'[i];
          assert s[k] == init[k];
        }
      }
    }
  }

  /** The elements of s whose rank is v, in their order in s. */
  ghost function Ties<T>(s: seq<T>, rank: T -> seq<int>, v: seq<int>): seq<T>
    decreases |s|
  {
    if s == [] then []
    else Ties(s[..|s| - 1], rank, v) + if rank(s[|s| - 1]) == v then [s[|s| - 1]] else []
  }

  /** Insertion puts x after every element of its own rank: the ties of any rank keep
      their order, and x joins its rank's ties last. */
  lemma {:induction false} InsertTies<T>(s: seq<T>, x: T, rank: T -> seq<int>, v: seq<int>)
    ensures Ties(Insert(s, x, rank), rank, v) == Ties(s, rank, v) + if rank(x) == v then [x] else []
    decreases |s|
  {
    if s == [] || LexLe(rank(s[|s| - 1]), rank(x)) {
      assert (s + [x])[..|s|] == s;
    } else {
      var init, last := s[..|s| - 1], s[|s| - 1];
      InsertTies(init, x, rank, v);
      var r := Insert(init, x, rank) + [last];
      assert r[..|r| - 1] == Insert(init, x, rank);
      LexLeRefl(rank(x));
      assert rank(last) != rank(x);
    }
  }

  lemma InsertTiesAll<T>(s: seq<T>, x: T, rank: T -> seq<int>)
    ensures forall v :: Ties(Insert(s, x, rank), rank, v) == Ties(s, rank, v) + if rank(x) == v then [x] else []
  {
    forall v
      ensures Ties(Insert(s, x, rank), rank, v) == Ties(s, rank, v) + if rank(x) == v then [x] else []
    {
      InsertTies(s, x, rank, v);
    }
  }

  /** The stable sort of s by rank: insertion sort, element by element from the left. It
      is a permutation of s in rank order, and elements of equal rank keep their order
      in s. */
  function SortBy<T>(s: seq<T>, rank: T -> seq<int>): (r: seq<T>)
    ensures |r| == |s|
    ensures multiset(r) == multiset(s)
    ensures SortedBy(r, rank)
    ensures forall v :: Ties(r, rank, v) == Ties(s, rank, v)
    decreases |s|
  {
    if s == [] then []
    else
      assert s == s[..|s| - 1] + [s[|s| - 1]];
      InsertPerm(SortBy(s[..|s| - 1], rank), s[|s| - 1], rank);
      InsertSorted(SortBy(s[..|s| - 1], rank), s[|s| - 1], rank);
      InsertTiesAll(SortBy(s[..|s| - 1], rank), s[|s| - 1], rank);
      Insert(SortBy(s[..|s| - 1], rank), s[|s| - 1], rank)
  }

  /** One more element sorts as one more insertion. */
  lemma SortByStep<T>(s: seq<T>, i: nat, rank: T -> seq<int>)
    requires i < |s|
    ensures SortBy(s[..i + 1], rank) == Insert(SortBy(s[..i], rank), s[i], rank)
  {
    assert s[..i + 1][..i] == s[..i];
  }

  /** A prefix of a sorted sequence is sorted. */
  lemma SortedPrefix<T>(s: seq<T>, n: nat, rank: T -> seq<int>)
    requires SortedBy(s, rank) && n <= |s|
    ensures SortedBy(s[..n], rank)
  {
    forall i, j | 0 <= i < j < n
      ensures LexLe(rank(s[..n][i]), rank(s[..n][j]))
    {
      assert s[..n][i] == s[i] && s[..n][j] == s[j];
    }
  }

  /** Sorting what is already in order changes nothing. */
  lemma {:induction false} SortBySorted<T>(s: seq<T>, rank: T -> seq<int>)
    requires SortedBy(s, rank)
    ensures SortBy(s, rank) == s
    decreases |s|
  {
    if s != [] {
      var init, last := s[..|s| - 1], s[|s| - 1];
      SortedPrefix(s, |s| - 1, rank);
      SortBySorted(init, rank);
      if init != [] {
        assert init[|init| - 1] == s[|s| - 2];
        assert LexLe(rank(init[|init| - 1]), rank(last));
      }
      assert s == init + [last];
    }
  }

  /** A strictly increasing sequence is sorted and holds no element twice. */
  lemma StrictlyIncreasingSorted<T>(s: seq<T>, rank: T -> seq<int>)
    requires StrictlyIncreasing(s, rank)
    ensures SortedBy(s, rank)
    ensures forall i, j :: 0 <= i < j < |s| ==> s[i] != s[j]
  {
    forall i, j | 0 <= i < j < |s|
      ensures LexLe(rank(s[i]), rank(s[j])) && s[i] != s[j]
    {
      LexLeTotal(rank(s[i]), rank(s[j]));
      if s[i] == s[j] {
        LexLeRefl(rank(s[i]));
      }
    }
  }

  /** One backward step of insertion: x moves past the last element of the prefix. */
  lemma InsertStep<T>(sorted: seq<T>, j: nat, x: T, rank: T -> seq<int>)
    requires 0 < j <= |sorted| && !LexLe(rank(sorted[j - 1]), rank(x))
    ensures Insert(sorted[..j], x, rank) + sorted[j..] == Insert(sorted[..j - 1], x, rank) + sorted[j - 1..]
  {
    assert sorted[..j][..j - 1] == sorted[..j - 1];
    assert sorted[j - 1..] == [sorted[j - 1]] + sorted[j..];
  }

  /** Where the backward steps stop, x goes in: the prefix before it, x, then the elements
      it moved past. */
  lemma InsertStop<T>(sorted: seq<T>, j: nat, x: T, rank: T -> seq<int>, r: seq<T>)
    requires j <= |sorted| && (j == 0 || LexLe(rank(sorted[j - 1]), rank(x)))
    requires |r| == |sorted| + 1 && r[j] == x
    requires forall k :: 0 <= k < j ==> r[k] == sorted[k]
    requires forall k :: j < k < |r| ==> r[k] == sorted[k - 1]
    ensures r == Insert(sorted[..j], x, rank) + sorted[j..]
  {
    assert Insert(sorted[..j], x, rank) == sorted[..j] + [x];
    assert r == sorted[..j] + [x] + sorted[j..];
  }

  /** Inserts a[i] into the already sorted prefix a[..i], shifting larger elements right. */
  method InsertInPlace<T>(a: array<T>, i: nat, rank: T -> seq<int>)
    requires i < a.Length
    modifies a
    ensures a[..i + 1] == Insert(old(a[..i]), old(a[i]), rank)
    ensures forall k :: i < k < a.Length ==> a[k] == old(a[k])
  {
    ghost var sorted := a[..i];
    var x := a[i];
    var j := i;
    assert sorted[..j] == sorted && sorted[j..] == [];
    while j > 0 && !LexLe(rank(a[j - 1]), rank(x))
      invariant 0 <= j <= i
      invariant forall k :: 0 <= k < j ==> a[k] == sorted[k]
      invariant forall k :: j < k <= i ==> a[k] == sorted[k - 1]
      invariant forall k :: i < k < a.Length ==> a[k] == old(a[k])
      invariant Insert(sorted, x, rank) == Insert(sorted[..j], x, rank) + sorted[j..]
    {
      InsertStep(sorted, j, x, rank);
      a[j] := a[j - 1];
      j := j - 1;
    }
    a[j] := x;
    InsertStop(sorted, j, x, rank, a[..i + 1]);
  }

  /** The in-place stable insertion sort: what `array.sort(cmp)` leaves in the array. */
  method SortInPlace<T>(a: array<T>, rank: T -> seq<int>)
    modifies a
    ensures a[..] == SortBy(old(a[..]), rank)
  {
    ghost var orig := a[..];
    var i := 0;
    while i < a.Length
      invariant 0 <= i <= a.Length
      invariant a[..i] == SortBy(orig[..i], rank)
      invariant forall k :: i <= k < a.Length ==> a[k] == orig[k]
    {
      SortByStep(orig, i, rank);
      InsertInPlace(a, i, rank);
      i := i + 1;
    }
    assert a[..] == a[..a.Length];
    assert orig == orig[..a.Length];
  }
}
