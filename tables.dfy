/** Generic operations on tables held as sequences of rows: the relational
    vocabulary (first matching row, WHERE, projection, inner join, ORDER BY ...
    DESC, LIMIT, COUNT DISTINCT, fresh row ids) that the queries are built from. */
module Tables {

  datatype Option<T> = None | Some(value: T)

  /** Index of the first row satisfying `p`; `db.get` returns that row. */
  function FindIndex<T(==,!new)>(s: seq<T>, p: T -> bool): (r: Option<nat>)
    ensures r.Some? ==> r.value < |s| && p(s[r.value])
    ensures r.Some? ==> forall j :: 0 <= j < r.value ==> !p(s[j])
    ensures r.None? ==> forall j :: 0 <= j < |s| ==> !p(s[j])
    decreases |s|
  {
    if |s| == 0 then None
    else if p(s[0]) then Some(0)
    else match FindIndex(s[1..], p)
      case None => None
      case Some(i) => Some(i + 1)
  }

  /** The first row satisfying `p`, if any. */
  function First<T(==,!new)>(s: seq<T>, p: T -> bool): (r: Option<T>)
    ensures r.Some? ==> r.value in s && p(r.value)
    ensures r.None? <==> forall x :: x in s ==> !p(x)
    ensures r.Some? ==> exists i :: 0 <= i < |s| && s[i] == r.value && forall j :: 0 <= j < i ==> !p(s[j])
  {
    match FindIndex(s, p)
    case None => None
    case Some(i) => Some(s[i])
  }

  /** The rows satisfying `p`, in table order (a WHERE clause). */
  function Filter<T(==,!new)>(s: seq<T>, p: T -> bool): (r: seq<T>)
    ensures |r| <= |s|
    ensures forall x :: x in r <==> x in s && p(x)
    decreases |s|
  {
    if |s| == 0 then []
    else
      assert s == [s[0]] + s[1..];
      (if p(s[0]) then [s[0]] else []) + Filter(s[1..], p)
  }

  /** A WHERE clause keeps every row it selects as often as the table holds it. */
  lemma {:induction false} FilterMultiset<T(!new)>(s: seq<T>, p: T -> bool)
    ensures multiset(Filter(s, p)) <= multiset(s)
    ensures forall x :: p(x) ==> multiset(Filter(s, p))[x] == multiset(s)[x]
    decreases |s|
  {
    if |s| > 0 {
      FilterMultiset(s[1..], p);
      assert s == [s[0]] + s[1..];
    }
  }

  /** A projection of every row (SELECT of one expression). */
  function Map<A(==,!new), B(==,!new)>(s: seq<A>, f: A -> B): (r: seq<B>)
    ensures |r| == |s|
    ensures forall i :: 0 <= i < |s| ==> r[i] == f(s[i])
  {
    seq(|s|, i requires 0 <= i < |s| => f(s[i]))
  }

  /** The values of a projection are the images of the rows. */
  lemma MapMembers<A(!new), B(!new)>(s: seq<A>, f: A -> B)
    ensures forall x :: x in s ==> f(x) in Map(s, f)
    ensures forall y :: y in Map(s, f) ==> exists x :: x in s && y == f(x)
  {
    var r := Map(s, f);
    forall x | x in s ensures f(x) in r {
      var i :| 0 <= i < |s| && s[i] == x;
      assert r[i] == f(x);
    }
  }

  /** The concatenation of `f(x)` over the rows `x` of `s`, in order: the rows of a
      nested-loop inner join driven by `s`. */
  function FlatMap<A(==,!new), B(==,!new)>(s: seq<A>, f: A -> seq<B>): (r: seq<B>)
    ensures (forall x :: x in s ==> |f(x)| == 1) ==> |r| == |s|
    decreases |s|
  {
    if |s| == 0 then []
    else
      assert s[0] in s;
      assert forall x :: x in s[1..] ==> x in s;
      f(s[0]) + FlatMap(s[1..], f)
  }

  /** A row belongs to the join exactly when some driving row contributes it. */
  lemma {:induction false} FlatMapMembers<A(!new), B(!new)>(s: seq<A>, f: A -> seq<B>)
    ensures forall x, y :: x in s && y in f(x) ==> y in FlatMap(s, f)
    ensures forall y :: y in FlatMap(s, f) ==> exists x :: x in s && y in f(x)
    decreases |s|
  {
    if |s| > 0 {
      FlatMapMembers(s[1..], f);
      assert forall x :: x in s ==> x == s[0] || x in s[1..];
      assert forall x :: x in s[1..] ==> x in s;
      assert s[0] in s;
    }
  }

  /** Projecting a non-empty table projects its first row, then the rest. */
  lemma MapConsMultiset<A(!new), B(!new)>(s: seq<A>, f: A -> B)
    requires |s| > 0
    ensures multiset(Map(s, f)) == multiset{f(s[0])} + multiset(Map(s[1..], f))
  {
    var r, rest := Map(s, f), Map(s[1..], f);
    forall i | 0 <= i < |r| ensures r[i] == ([f(s[0])] + rest)[i] {
      if i > 0 { assert s[1..][i - 1] == s[i]; }
    }
    assert r == [f(s[0])] + rest;
  }

  /** A non-empty table holds its first row and the rows of its tail. */
  lemma HeadTailMultiset<T>(s: seq<T>)
    requires |s| > 0
    ensures multiset(s) == multiset{s[0]} + multiset(s[1..])
  {
    assert s == [s[0]] + s[1..];
  }

  /** A projection holds the image of a row at least as often as the row occurs. */
  lemma {:induction false} MapCounts<A(!new), B(!new)>(s: seq<A>, f: A -> B, x: A)
    ensures multiset(Map(s, f))[f(x)] >= multiset(s)[x]
    decreases |s|
  {
    if |s| > 0 {
      MapCounts(s[1..], f, x);
      MapConsMultiset(s, f);
      HeadTailMultiset(s);
    }
  }

  /** When every driving row contributes exactly one row, the join keeps the driver's
      order and row `i` of the join is the one contributed by row `i` of the driver. */
  lemma {:induction false} FlatMapSingletons<A(!new), B(!new)>(s: seq<A>, f: A -> seq<B>)
    ensures (forall x :: x in s ==> |f(x)| == 1) ==>
      |FlatMap(s, f)| == |s| && forall i :: 0 <= i < |s| ==> FlatMap(s, f)[i] == f(s[i])[0]
    decreases |s|
  {
    if |s| > 0 && forall x :: x in s ==> |f(x)| == 1 {
      assert forall x :: x in s[1..] ==> x in s;
      FlatMapSingletons(s[1..], f);
      assert s[0] in s;
      var r := FlatMap(s, f);
      assert r == f(s[0]) + FlatMap(s[1..], f);
      forall i | 0 <= i < |s| ensures r[i] == f(s[i])[0] {
        if i > 0 {
          assert r[i] == FlatMap(s[1..], f)[i - 1];
          assert s[1..][i - 1] == s[i];
        }
      }
    }
  }

  /** Joining from every row but contributing nothing for the rows outside `p` is joining
      from the rows `p` selects. */
  lemma {:induction false} FlatMapFilter<A(!new), B(!new)>(s: seq<A>, p: A -> bool, g: A -> seq<B>, h: A -> seq<B>)
    requires forall x :: h(x) == if p(x) then g(x) else []
    ensures FlatMap(s, h) == FlatMap(Filter(s, p), g)
    decreases |s|
  {
    if |s| > 0 {
      FlatMapFilter(s[1..], p, g, h);
      if p(s[0]) {
        assert Filter(s, p) == [s[0]] + Filter(s[1..], p);
        assert ([s[0]] + Filter(s[1..], p))[1..] == Filter(s[1..], p);
      } else {
        assert Filter(s, p) == Filter(s[1..], p);
      }
    }
  }

  /** Every pairing of a row of `left` with a row of `right`. */
  function Product<A(==,!new), B(==,!new)>(left: seq<A>, right: seq<B>): (r: seq<(A, B)>)
    ensures forall p :: p in r <==> p.0 in left && p.1 in right
  {
    var pairs := (a: A) => Map(right, (b: B) => (a, b));
    FlatMapMembers(left, pairs);
    forall a | a in left ensures forall p :: p in pairs(a) <==> p.0 == a && p.1 in right {
      MapMembers(right, (b: B) => (a, b));
    }
    FlatMap(left, pairs)
  }

  /** Keys never increase along `s`: the order of ORDER BY key DESC. */
  predicate SortedDesc<T(==,!new)>(s: seq<T>, key: T -> int)
  {
    forall i, j :: 0 <= i < j < |s| ==> key(s[i]) >= key(s[j])
  }

  /** Inserts `x` before the first row whose key is not greater than its own. */
  function Insert<T(==,!new)>(x: T, s: seq<T>, key: T -> int): (r: seq<T>)
    requires SortedDesc(s, key)
    ensures SortedDesc(r, key)
    ensures multiset(r) == multiset(s) + multiset{x}
    ensures |r| == |s| + 1
    decreases |s|
  {
    if |s| == 0 then [x]
    else if key(x) >= key(s[0]) then [x] + s
    else
      var rest := Insert(x, s[1..], key);
      assert s == [s[0]] + s[1..];
      BoundedHead(s[0], rest, s[1..], x, key);
      [s[0]] + rest
  }

  /** A row whose key bounds the keys of `x` and of every row of `s` can head any
      sorted arrangement of `s` and `x`. */
  lemma BoundedHead<T(!new)>(h: T, rest: seq<T>, s: seq<T>, x: T, key: T -> int)
    requires SortedDesc(rest, key)
    requires multiset(rest) == multiset(s) + multiset{x}
    requires key(x) <= key(h)
    requires forall k :: 0 <= k < |s| ==> key(s[k]) <= key(h)
    ensures SortedDesc([h] + rest, key)
  {
    forall k | 0 <= k < |rest| ensures key(rest[k]) <= key(h) {
      assert rest[k] in multiset(rest);
      if rest[k] != x {
        assert rest[k] in multiset(s);
      }
    }
    var r := [h] + rest;
    forall i, j | 0 <= i < j < |r| ensures key(r[i]) >= key(r[j]) {
      assert r[j] == rest[j - 1];
      if i > 0 {
        assert r[i] == rest[i - 1];
      }
    }
  }

  /** ORDER BY key DESC: a permutation of `s` in non-increasing key order. */
  function SortDesc<T(==,!new)>(s: seq<T>, key: T -> int): (r: seq<T>)
    ensures SortedDesc(r, key)
    ensures multiset(r) == multiset(s)
    ensures |r| == |s|
    decreases |s|
  {
    if |s| == 0 then []
    else
      assert s == [s[0]] + s[1..];
      Insert(s[0], SortDesc(s[1..], key), key)
  }

  /** LIMIT n: the first `n` rows, or all of them when there are fewer. */
  function Take<T(==,!new)>(s: seq<T>, n: nat): (r: seq<T>)
    ensures |r| == if |s| < n then |s| else n
    ensures r == s[..|r|]
  {
    if |s| < n then s else s[..n]
  }

  /** In a sorted table an earlier row's key is at least a later row's. */
  lemma SortedAt<T(!new)>(s: seq<T>, key: T -> int, i: nat, j: nat)
    requires SortedDesc(s, key) && i <= j < |s|
    ensures key(s[j]) <= key(s[i])
  {
  }

  /** The first `n` rows of a sorted table are its top `n`: every row left out has
      a key no greater than the key of any row kept. */
  lemma {:induction false} TakeSortedIsTop<T(!new)>(s: seq<T>, key: T -> int, n: nat)
    requires SortedDesc(s, key)
    ensures forall i, x :: 0 <= i < |Take(s, n)| && x in multiset(s) - multiset(Take(s, n)) ==> key(x) <= key(Take(s, n)[i])
  {
    var t := Take(s, n);
    var rest := s[|t|..];
    assert s == t + rest;
    assert multiset(s) - multiset(t) == multiset(rest);
    forall i, x | 0 <= i < |t| && x in multiset(s) - multiset(t) ensures key(x) <= key(t[i]) {
      assert x in rest;
      var k :| 0 <= k < |rest| && rest[k] == x;
      SortedAt(s, key, i, |t| + k);
    }
  }

  /** ORDER BY key DESC LIMIT n: the `n` rows with the greatest keys, greatest first. */
  function TopDesc<T(==,!new)>(s: seq<T>, key: T -> int, n: nat): (r: seq<T>)
    ensures |r| == if |s| < n then |s| else n
    ensures multiset(r) <= multiset(s)
    ensures SortedDesc(r, key)
    ensures forall i, x :: 0 <= i < |r| && x in multiset(s) - multiset(r) ==> key(x) <= key(r[i])
  {
    var sorted := SortDesc(s, key);
    TakeSorted(sorted, key, n);
    Take(sorted, n)
  }

  /** The first `n` rows of a sorted table are sorted, taken from the table, and its top `n`. */
  lemma TakeSorted<T(!new)>(s: seq<T>, key: T -> int, n: nat)
    requires SortedDesc(s, key)
    ensures multiset(Take(s, n)) <= multiset(s)
    ensures SortedDesc(Take(s, n), key)
    ensures forall i, x :: 0 <= i < |Take(s, n)| && x in multiset(s) - multiset(Take(s, n)) ==> key(x) <= key(Take(s, n)[i])
  {
    TakeSortedIsTop(s, key, n);
    var r := Take(s, n);
    assert s == r + s[|r|..];
    assert multiset(s) == multiset(r) + multiset(s[|r|..]);
  }

  /** A row whose key is greater than every other row's survives the LIMIT. */
  lemma TopDescKeepsGreatest<T(!new)>(s: seq<T>, key: T -> int, n: nat, x: T)
    requires n >= 1 && x in s
    requires forall y :: y in s && y != x ==> key(y) < key(x)
    ensures x in TopDesc(s, key, n)
  {
    var r := TopDesc(s, key, n);
    assert r[0] in multiset(r);
    assert r[0] in s;
    assert x !in r ==> x in multiset(s) - multiset(r);
  }

  /** No two rows share a key (a PRIMARY KEY or UNIQUE column). */
  predicate UniqueBy<T(==,!new)>(s: seq<T>, key: T -> int)
  {
    forall i, j :: 0 <= i < j < |s| ==> key(s[i]) != key(s[j])
  }

  /** Removing rows keeps a key unique. */
  lemma {:induction false} FilterKeepsUnique<T(!new)>(s: seq<T>, p: T -> bool, key: T -> int)
    ensures UniqueBy(s, key) ==> UniqueBy(Filter(s, p), key)
    decreases |s|
  {
    if |s| > 0 && UniqueBy(s, key) {
      FilterKeepsUnique(s[1..], p, key);
      var rest := Filter(s[1..], p);
      forall y | y in rest ensures key(y) != key(s[0]) {
        var k :| 0 <= k < |s[1..]| && s[1..][k] == y;
        assert s[k + 1] == y;
      }
    }
  }

  /** The distinct keys of the rows of `s`. */
  function KeySet<T(==,!new)>(s: seq<T>, key: T -> int): set<int>
  {
    set x | x in s :: key(x)
  }

  /** Dropping the first row keeps a key unique, and no later row shares the first row's key. */
  lemma UniqueTail<T(!new)>(s: seq<T>, key: T -> int)
    requires UniqueBy(s, key) && |s| > 0
    ensures UniqueBy(s[1..], key)
    ensures forall y :: y in s[1..] ==> key(y) != key(s[0])
  {
    forall i, j | 0 <= i < j < |s[1..]| ensures key(s[1..][i]) != key(s[1..][j]) {
      assert s[1..][i] == s[i + 1] && s[1..][j] == s[j + 1];
    }
    forall y | y in s[1..] ensures key(y) != key(s[0]) {
      var k :| 0 <= k < |s[1..]| && s[1..][k] == y;
      assert s[k + 1] == y;
    }
  }

  /** The keys of a table are the first row's key and the keys of the rest. */
  lemma KeySetCons<T(!new)>(s: seq<T>, key: T -> int)
    requires |s| > 0
    ensures KeySet(s, key) == {key(s[0])} + KeySet(s[1..], key)
  {
    assert forall x :: x in s <==> x == s[0] || x in s[1..];
  }

  /** With a unique key there are as many distinct keys as rows. */
  lemma {:induction false} UniqueKeySetSize<T(!new)>(s: seq<T>, key: T -> int)
    requires UniqueBy(s, key)
    ensures |KeySet(s, key)| == |s|
    decreases |s|
  {
    if |s| > 0 {
      UniqueTail(s, key);
      UniqueKeySetSize(s[1..], key);
      KeySetCons(s, key);
      assert key(s[0]) !in KeySet(s[1..], key);
    }
  }

  /** Rows sharing one value of a unique key are at most one row. */
  lemma SameKeyAtMostOne<T(!new)>(s: seq<T>, key: T -> int, k: int)
    ensures UniqueBy(s, key) && (forall x :: x in s ==> key(x) == k) ==> |s| <= 1
  {
    if UniqueBy(s, key) && forall x :: x in s ==> key(x) == k {
      UniqueKeySetSize(s, key);
      if k in KeySet(s, key) {
        assert KeySet(s, key) == {k};
      } else {
        assert KeySet(s, key) == {};
      }
    }
  }

  /** The id sqlite gives a new row of an INTEGER PRIMARY KEY table: one more than
      the largest id in use, or 1 for an empty table. */
  function NextKey<T(==,!new)>(s: seq<T>, key: T -> int): (r: int)
    ensures forall x :: x in s ==> key(x) < r
    ensures |s| == 0 ==> r == 1
    ensures |s| > 0 ==> exists x :: x in s && key(x) == r - 1
    decreases |s|
  {
    if |s| == 0 then 1
    else
      var rest := NextKey(s[1..], key);
      assert forall x :: x in s <==> x == s[0] || x in s[1..];
      if |s| == 1 || key(s[0]) >= rest then key(s[0]) + 1 else rest
  }

  /** Under a unique key, two rows of the table with the same key are the same row. */
  lemma SameKeySameRow<T(!new)>(s: seq<T>, key: T -> int, a: T, b: T)
    requires UniqueBy(s, key) && a in s && b in s
    ensures key(a) == key(b) ==> a == b
  {
    var i :| 0 <= i < |s| && s[i] == a;
    var j :| 0 <= j < |s| && s[j] == b;
    assert i < j ==> key(s[i]) != key(s[j]);
    assert j < i ==> key(s[j]) != key(s[i]);
  }

  /** Appending a row whose key is fresh keeps the key unique. */
  lemma AppendKeepsUnique<T(!new)>(s: seq<T>, x: T, key: T -> int)
    requires UniqueBy(s, key)
    requires forall y :: y in s ==> key(y) != key(x)
    ensures UniqueBy(s + [x], key)
  {
    forall i, j | 0 <= i < j < |s + [x]| ensures key((s + [x])[i]) != key((s + [x])[j]) {
      if j == |s| {
        assert (s + [x])[i] == s[i] && s[i] in s;
      }
    }
  }
}
