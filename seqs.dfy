/**
 * Sequence machinery behind the sorter and the splicing engine: a stable insertion
 * sort by a key (JavaScript's `Array.prototype.sort` is stable), first-occurrence
 * de-duplication (the `indexOf(x) === index` filter idiom), and selection from a
 * sequence of tagged items (pushing each item into the bucket its tag names).
 */
module Seqs {

  ghost predicate TotalPreorder<K(!new)>(le: (K, K) -> bool) {
    && (forall a, b :: le(a, b) || le(b, a))
    && (forall a, b, c :: le(a, b) && le(b, c) ==> le(a, c))
  }

  predicate IntLe(a: int, b: int) { a <= b }
  predicate IntGe(a: int, b: int) { a >= b }

  lemma IntOrdersTotal()
    ensures TotalPreorder(IntLe) && TotalPreorder(IntGe)
  {
  }

  ghost predicate SortedBy<T, K>(s: seq<T>, key: T -> K, le: (K, K) -> bool) {
    forall i, j :: 0 <= i < j < |s| ==> le(key(s[i]), key(s[j]))
  }

  predicate NoDup<K(==)>(s: seq<K>) {
    forall i, j :: 0 <= i < j < |s| ==> s[i] != s[j]
  }

  // ---------------------------------------------------------------- sorting

  /** Puts `x` in front of the first element it is not after; ties keep `x` first. */
  function Insert<T, K>(x: T, s: seq<T>, key: T -> K, le: (K, K) -> bool): (r: seq<T>)
    ensures multiset(r) == multiset(s) + multiset{x}
    ensures |r| == |s| + 1
  {
    if s == [] then [x]
    else if le(key(x), key(s[0])) then [x] + s
    else
      assert s == [s[0]] + s[1..];
      [s[0]] + Insert(x, s[1..], key, le)
  }

  /** Stable insertion sort of `s` by `key` under the preorder `le`. */
  function SortBy<T, K>(s: seq<T>, key: T -> K, le: (K, K) -> bool): (r: seq<T>)
    ensures multiset(r) == multiset(s)
    ensures |r| == |s|
  {
    if s == [] then []
    else
      assert s == [s[0]] + s[1..];
      Insert(s[0], SortBy(s[1..], key, le), key, le)
  }

  lemma {:induction false} InsertSorted<T, K(!new)>(x: T, s: seq<T>, key: T -> K, le: (K, K) -> bool)
    requires TotalPreorder(le) && SortedBy(s, key, le)
    ensures SortedBy(Insert(x, s, key, le), key, le)
  {
    if s == [] {
    } else if le(key(x), key(s[0])) {
      var r := [x] + s;
      forall i, j | 0 <= i < j < |r| ensures le(key(r[i]), key(r[j])) {
        if i > 0 {
          assert r[i] == s[i - 1] && r[j] == s[j - 1];
        } else {
          assert r[j] == s[j - 1];
          if j > 1 {
            assert le(key(s[0]), key(s[j - 1]));
          }
        }
      }
    } else {
      var t := Insert(x, s[1..], key, le);
      InsertSorted(x, s[1..], key, le);
      assert le(key(s[0]), key(x));
      forall j | 0 <= j < |t| ensures le(key(s[0]), key(t[j])) {
        assert t[j] in multiset(t);
        assert t[j] == x || t[j] in multiset(s[1..]);
        if t[j] != x {
          var k :| 0 <= k < |s[1..]| && s[1..][k] == t[j];
          assert s[k + 1] == t[j];
        }
      }
      var r := [s[0]] + t;
      forall i, j | 0 <= i < j < |r| ensures le(key(r[i]), key(r[j])) {
        if i > 0 {
          assert r[i] == t[i - 1] && r[j] == t[j - 1];
        } else {
          assert r[j] == t[j - 1];
        }
      }
    }
  }

  /** With a total preorder, the result is ordered. */
  lemma {:induction false} SortBySorted<T, K(!new)>(s: seq<T>, key: T -> K, le: (K, K) -> bool)
    requires TotalPreorder(le)
    ensures SortedBy(SortBy(s, key, le), key, le)
  {
    if s != [] {
      SortBySorted(s[1..], key, le);
      InsertSorted(s[0], SortBy(s[1..], key, le), key, le);
    }
  }

  /** An input that is already ordered is returned as it is (stability). */
  lemma {:induction false} SortByOfSorted<T, K>(s: seq<T>, key: T -> K, le: (K, K) -> bool)
    requires SortedBy(s, key, le)
    ensures SortBy(s, key, le) == s
  {
    if s != [] {
      assert SortedBy(s[1..], key, le) by {
        forall i, j | 0 <= i < j < |s[1..]| ensures le(key(s[1..][i]), key(s[1..][j])) {
          assert s[1..][i] == s[i + 1] && s[1..][j] == s[j + 1];
        }
      }
      SortByOfSorted(s[1..], key, le);
      if |s| > 1 {
        assert le(key(s[0]), key(s[1..][0]));
      }
      assert s == [s[0]] + s[1..];
    }
  }

  /** The elements of `s` whose key is equivalent to `k` under `le`, in their order in `s`. */
  function TiesOf<T, K>(s: seq<T>, key: T -> K, le: (K, K) -> bool, k: K): seq<T> {
    if s == [] then []
    else (if le(key(s[0]), k) && le(k, key(s[0])) then [s[0]] else []) + TiesOf(s[1..], key, le, k)
  }

  lemma {:induction false} TiesOfAppend<T, K>(a: seq<T>, b: seq<T>, key: T -> K, le: (K, K) -> bool, k: K)
    ensures TiesOf(a + b, key, le, k) == TiesOf(a, key, le, k) + TiesOf(b, key, le, k)
  {
    if a == [] {
      assert a + b == b;
    } else {
      assert (a + b)[0] == a[0] && (a + b)[1..] == a[1..] + b;
      TiesOfAppend(a[1..], b, key, le, k);
    }
  }

  /** Inserting `x` puts it in front of every element equivalent to it that is already there. */
  lemma {:induction false} InsertTies<T, K(!new)>(x: T, s: seq<T>, key: T -> K, le: (K, K) -> bool, k: K)
    requires TotalPreorder(le)
    ensures TiesOf(Insert(x, s, key, le), key, le, k)
         == (if le(key(x), k) && le(k, key(x)) then [x] else []) + TiesOf(s, key, le, k)
  {
    var ex := if le(key(x), k) && le(k, key(x)) then [x] else [];
    if s == [] {
      assert [x][1..] == [];
    } else if le(key(x), key(s[0])) {
      assert ([x] + s)[0] == x && ([x] + s)[1..] == s;
    } else {
      var y := s[0];
      var t := Insert(x, s[1..], key, le);
      var e0 := if le(key(y), k) && le(k, key(y)) then [y] else [];
      InsertTies(x, s[1..], key, le, k);
      assert ([y] + t)[0] == y && ([y] + t)[1..] == t;
      // `x` and `s[0]` are not both equivalent to `k`, or `x` would not come after `s[0]`.
      assert le(key(x), k) && le(k, key(y)) ==> le(key(x), key(y));
      SwapFront(e0, ex, TiesOf(s[1..], key, le, k));
      calc {
        TiesOf(Insert(x, s, key, le), key, le, k);
        TiesOf([y] + t, key, le, k);
        e0 + TiesOf(t, key, le, k);
        e0 + (ex + TiesOf(s[1..], key, le, k));
        ex + (e0 + TiesOf(s[1..], key, le, k));
        ex + TiesOf(s, key, le, k);
      }
    }
  }

  lemma SwapFront<T>(a: seq<T>, b: seq<T>, r: seq<T>)
    requires a == [] || b == []
    ensures a + (b + r) == b + (a + r)
  {
    if a == [] {
      assert a + (b + r) == b + r && a + r == r;
    } else {
      assert b + (a + r) == a + r && b + r == r;
    }
  }

  /**
   * Stability: under a total preorder, the elements with equivalent keys come out in
   * the order they went in.
   */
  lemma {:induction false} SortByStable<T, K(!new)>(s: seq<T>, key: T -> K, le: (K, K) -> bool, k: K)
    requires TotalPreorder(le)
    ensures TiesOf(SortBy(s, key, le), key, le, k) == TiesOf(s, key, le, k)
  {
    if s != [] {
      SortByStable(s[1..], key, le, k);
      InsertTies(s[0], SortBy(s[1..], key, le), key, le, k);
    }
  }

  /** The ties come from `s` and are equivalent to `k`. */
  lemma {:induction false} TiesOfIn<T, K>(s: seq<T>, key: T -> K, le: (K, K) -> bool, k: K)
    ensures forall x :: x in TiesOf(s, key, le, k) ==> x in s && le(key(x), k) && le(k, key(x))
  {
    if s != [] {
      TiesOfIn(s[1..], key, le, k);
    }
  }

  /** Keeping only the ties keeps any order the sequence had. */
  lemma {:induction false} TiesOfKeepsOrder<T, K, O>(s: seq<T>, key: T -> K, le: (K, K) -> bool, k: K,
                                                     order: T -> O, before: (O, O) -> bool)
    requires SortedBy(s, order, before)
    ensures SortedBy(TiesOf(s, key, le, k), order, before)
  {
    if s != [] {
      var rest := TiesOf(s[1..], key, le, k);
      assert SortedBy(s[1..], order, before) by {
        forall i, j | 0 <= i < j < |s[1..]| ensures before(order(s[1..][i]), order(s[1..][j])) {
          assert s[1..][i] == s[i + 1] && s[1..][j] == s[j + 1];
        }
      }
      TiesOfKeepsOrder(s[1..], key, le, k, order, before);
      if le(key(s[0]), k) && le(k, key(s[0])) {
        TiesOfIn(s[1..], key, le, k);
        var r := [s[0]] + rest;
        forall i, j | 0 <= i < j < |r| ensures before(order(r[i]), order(r[j])) {
          assert r[j] == rest[j - 1] && r[j] in s[1..];
          var m :| 0 <= m < |s[1..]| && s[1..][m] == r[j];
          if i == 0 {
            assert s[m + 1] == r[j];
          } else {
            assert r[i] == rest[i - 1];
          }
        }
      }
    }
  }

  function Reverse<T>(s: seq<T>): (r: seq<T>)
    ensures |r| == |s|
    ensures forall i :: 0 <= i < |s| ==> r[i] == s[|s| - 1 - i]
    ensures multiset(r) == multiset(s)
  {
    if s == [] then []
    else
      assert s == s[..|s| - 1] + [s[|s| - 1]];
      [s[|s| - 1]] + Reverse(s[..|s| - 1])
  }

  // ---------------------------------------------------- first occurrences

  /** Keeps the first occurrence of every element, in order of first occurrence. */
  function Distinct<K(==)>(s: seq<K>): (r: seq<K>)
    ensures forall i :: 0 <= i < |r| ==> r[i] in s
    ensures forall i :: 0 <= i < |s| ==> s[i] in r
    ensures NoDup(r)
  {
    if s == [] then []
    else if s[|s| - 1] in s[..|s| - 1] then Distinct(s[..|s| - 1])
    else
      assert s == s[..|s| - 1] + [s[|s| - 1]];
      Distinct(s[..|s| - 1]) + [s[|s| - 1]]
  }

  /** The position of the first occurrence of `x` in `s`. */
  function FirstIndex<K(==)>(s: seq<K>, x: K): (r: nat)
    requires x in s
    ensures r < |s| && s[r] == x
    ensures forall j :: 0 <= j < r ==> s[j] != x
  {
    if s[0] == x then 0 else 1 + FirstIndex(s[1..], x)
  }

  /** An element occurring in a prefix first occurs at the same place in the whole. */
  lemma FirstIndexPrefix<K>(s: seq<K>, m: nat, x: K)
    requires m <= |s| && x in s[..m]
    ensures FirstIndex(s, x) == FirstIndex(s[..m], x)
  {
    var a := FirstIndex(s, x);
    var b := FirstIndex(s[..m], x);
    assert s[b] == x;
    assert a <= b;
    assert s[..m][a] == s[a];
  }

  /** `Distinct` lists the elements in the order of their first occurrences. */
  lemma {:induction false} DistinctInFirstOrder<K>(s: seq<K>)
    ensures forall i, j :: 0 <= i < j < |Distinct(s)| ==> FirstIndex(s, Distinct(s)[i]) < FirstIndex(s, Distinct(s)[j])
  {
    if s != [] {
      var n := |s| - 1;
      var p := s[..n];
      var d := Distinct(p);
      DistinctInFirstOrder(p);
      forall i | 0 <= i < |d| ensures FirstIndex(s, d[i]) == FirstIndex(p, d[i]) {
        FirstIndexPrefix(s, n, d[i]);
      }
      if s[n] !in p {
        assert Distinct(s) == d + [s[n]];
        assert FirstIndex(s, s[n]) == n by {
          forall j | 0 <= j < n ensures s[j] != s[n] {
            assert s[j] == p[j];
          }
        }
      }
    }
  }

  /** If `s` is ordered by `le`, so are its distinct elements. */
  lemma {:induction false} DistinctOrdered<K>(s: seq<K>, le: (K, K) -> bool)
    requires forall i, j :: 0 <= i < j < |s| ==> le(s[i], s[j])
    ensures forall i, j :: 0 <= i < j < |Distinct(s)| ==> le(Distinct(s)[i], Distinct(s)[j])
  {
    if s != [] {
      var p := s[..|s| - 1];
      assert forall i, j :: 0 <= i < j < |p| ==> le(p[i], p[j]) by {
        forall i, j | 0 <= i < j < |p| ensures le(p[i], p[j]) {
          assert p[i] == s[i] && p[j] == s[j];
        }
      }
      DistinctOrdered(p, le);
      var d := Distinct(p);
      if s[|s| - 1] !in p {
        var last := s[|s| - 1];
        forall i | 0 <= i < |d| ensures le(d[i], last) {
          assert d[i] in p;
          var k :| 0 <= k < |p| && p[k] == d[i];
          assert s[k] == d[i];
        }
      }
    }
  }

  // ---------------------------------------------------- tagged selection

  function Keys<K, T>(ps: seq<(K, T)>): (r: seq<K>)
    ensures |r| == |ps|
    ensures forall i :: 0 <= i < |ps| ==> r[i] == ps[i].0
  {
    if ps == [] then [] else Keys(ps[..|ps| - 1]) + [ps[|ps| - 1].0]
  }

  function Items<K, T>(ps: seq<(K, T)>): (r: seq<T>)
    ensures |r| == |ps|
    ensures forall i :: 0 <= i < |ps| ==> r[i] == ps[i].1
  {
    if ps == [] then [] else Items(ps[..|ps| - 1]) + [ps[|ps| - 1].1]
  }

  /** The items whose tag is in `ks`, in their order in `ps`. */
  function SelectIn<K(==), T>(ps: seq<(K, T)>, ks: set<K>): (r: seq<T>)
    ensures forall x :: x in r ==> exists i :: 0 <= i < |ps| && ps[i].0 in ks && ps[i].1 == x
    ensures |r| <= |ps|
  {
    if ps == [] then []
    else
      var rest := SelectIn(ps[..|ps| - 1], ks);
      if ps[|ps| - 1].0 in ks then rest + [ps[|ps| - 1].1] else rest
  }

  /** The bucket tagged `k`. */
  function Select<K(==), T>(ps: seq<(K, T)>, k: K): seq<T> {
    SelectIn(ps, {k})
  }

  /** One bucket per key of `ks`, in the order of `ks`. */
  function SelectEach<K(==), T>(ps: seq<(K, T)>, ks: seq<K>): (r: seq<seq<T>>)
    ensures |r| == |ks|
    ensures forall i :: 0 <= i < |ks| ==> r[i] == Select(ps, ks[i])
  {
    if ks == [] then [] else [Select(ps, ks[0])] + SelectEach(ps, ks[1..])
  }

  function Flatten<T>(gs: seq<seq<T>>): seq<T> {
    if gs == [] then [] else gs[0] + Flatten(gs[1..])
  }

  lemma {:induction false} FlattenAppend<T>(a: seq<seq<T>>, b: seq<seq<T>>)
    ensures Flatten(a + b) == Flatten(a) + Flatten(b)
  {
    if a == [] {
      assert a + b == b;
    } else {
      assert (a + b)[1..] == a[1..] + b;
      FlattenAppend(a[1..], b);
    }
  }

  lemma FlattenSnoc<T>(gs: seq<seq<T>>, x: seq<T>)
    ensures Flatten(gs + [x]) == Flatten(gs) + x
  {
    FlattenAppend(gs, [x]);
    assert [x][1..] == [];
  }

  lemma FlattenLast<T>(gs: seq<seq<T>>)
    requires gs != []
    ensures Flatten(gs) == Flatten(gs[..|gs| - 1]) + gs[|gs| - 1]
  {
    assert gs == gs[..|gs| - 1] + [gs[|gs| - 1]];
    FlattenSnoc(gs[..|gs| - 1], gs[|gs| - 1]);
  }

  // ---------------------------------------------------- element-wise maps

  function MapSeq<T, U>(s: seq<T>, f: T -> U): (r: seq<U>)
    ensures |r| == |s|
    ensures forall i :: 0 <= i < |s| ==> r[i] == f(s[i])
  {
    seq(|s|, i requires 0 <= i < |s| => f(s[i]))
  }

  lemma MapSeqAppend<T, U>(a: seq<T>, b: seq<T>, f: T -> U)
    ensures MapSeq(a + b, f) == MapSeq(a, f) + MapSeq(b, f)
  {
  }

  /** Mapping sequences with the same elements gives sequences with the same elements. */
  lemma {:induction false} MapSeqPermutation<T, U>(a: seq<T>, b: seq<T>, f: T -> U)
    requires multiset(a) == multiset(b)
    ensures multiset(MapSeq(a, f)) == multiset(MapSeq(b, f))
    decreases |a|
  {
    if a == [] {
      assert |b| == |multiset(b)| == 0;
    } else {
      var x := a[0];
      assert x in multiset(b);
      var k :| 0 <= k < |b| && b[k] == x;
      var a' := a[1..];
      var b' := b[..k] + b[k + 1..];
      RemoveAt(b, k);
      assert a == [x] + a';
      assert multiset(a') == multiset(b');
      MapSeqPermutation(a', b', f);
      MapSeqRemoveAt(b, k, f);
      MapSeqRemoveFirst(a, f);
    }
  }

  lemma MapSeqRemoveFirst<T, U>(a: seq<T>, f: T -> U)
    requires a != []
    ensures multiset(MapSeq(a, f)) == multiset(MapSeq(a[1..], f)) + multiset{f(a[0])}
  {
    assert MapSeq(a, f) == [f(a[0])] + MapSeq(a[1..], f);
  }

  lemma RemoveAt<T>(b: seq<T>, k: nat)
    requires k < |b|
    ensures multiset(b[..k] + b[k + 1..]) == multiset(b) - multiset{b[k]}
  {
    assert b == b[..k] + [b[k]] + b[k + 1..];
  }

  lemma MapSeqRemoveAt<T, U>(b: seq<T>, k: nat, f: T -> U)
    requires k < |b|
    ensures multiset(MapSeq(b, f)) == multiset(MapSeq(b[..k] + b[k + 1..], f)) + multiset{f(b[k])}
  {
    var m := MapSeq(b, f);
    assert m == m[..k] + [m[k]] + m[k + 1..];
    assert MapSeq(b[..k] + b[k + 1..], f) == m[..k] + m[k + 1..];
  }

  /** A key that occurs in `ps` selects a non-empty bucket. */
  lemma {:induction false} SelectNonEmpty<K, T>(ps: seq<(K, T)>, i: nat)
    requires i < |ps|
    ensures Select(ps, ps[i].0) != []
  {
    if i < |ps| - 1 {
      SelectNonEmpty(ps[..|ps| - 1], i);
    }
  }

  /** Selecting by disjoint key sets splits the selection by a union of keys. */
  lemma {:induction false} SelectInUnion<K, T>(ps: seq<(K, T)>, a: set<K>, b: set<K>)
    requires a !! b
    ensures multiset(SelectIn(ps, a + b)) == multiset(SelectIn(ps, a)) + multiset(SelectIn(ps, b))
  {
    if ps != [] {
      SelectInUnion(ps[..|ps| - 1], a, b);
    }
  }

  /** Selecting by a key set that covers every tag gives back all items, in order. */
  lemma {:induction false} SelectInAll<K, T>(ps: seq<(K, T)>, ks: set<K>)
    requires forall i :: 0 <= i < |ps| ==> ps[i].0 in ks
    ensures SelectIn(ps, ks) == Items(ps)
  {
    if ps != [] {
      SelectInAll(ps[..|ps| - 1], ks);
    }
  }

  lemma {:induction false} SelectEachCovers<K, T>(ps: seq<(K, T)>, ks: seq<K>)
    requires NoDup(ks)
    ensures multiset(Flatten(SelectEach(ps, ks))) == multiset(SelectIn(ps, set k | k in ks))
  {
    if ks == [] {
      assert (set k | k in ks) == {};
      assert SelectIn(ps, {}) == [] by { SelectInEmpty(ps); }
    } else {
      var tail := ks[1..];
      NoDupTail(ks);
      SelectEachCovers(ps, tail);
      KeySetSplit(ks);
      SelectInUnion(ps, {ks[0]}, set k | k in tail);
      assert SelectEach(ps, ks) == [Select(ps, ks[0])] + SelectEach(ps, tail);
    }
  }

  lemma NoDupTail<K>(ks: seq<K>)
    requires NoDup(ks) && ks != []
    ensures NoDup(ks[1..]) && ks[0] !in ks[1..]
  {
    var tail := ks[1..];
    forall i, j | 0 <= i < j < |tail| ensures tail[i] != tail[j] {
      assert tail[i] == ks[i + 1] && tail[j] == ks[j + 1];
    }
    forall i | 0 <= i < |tail| ensures tail[i] != ks[0] {
      assert tail[i] == ks[i + 1];
    }
  }

  lemma KeySetSplit<K>(ks: seq<K>)
    requires ks != []
    ensures (set k | k in ks) == {ks[0]} + (set k | k in ks[1..])
  {
    assert ks == [ks[0]] + ks[1..];
  }

  lemma {:induction false} SelectInEmpty<K, T>(ps: seq<(K, T)>)
    ensures SelectIn(ps, {}) == []
  {
    if ps != [] {
      SelectInEmpty(ps[..|ps| - 1]);
    }
  }

  /**
   * Partition: when the keys are distinct and cover every tag, the buckets taken in
   * the order of the keys hold exactly the items, with no loss and no duplication.
   */
  lemma SelectEachPartition<K, T>(ps: seq<(K, T)>, ks: seq<K>)
    requires NoDup(ks)
    requires forall i :: 0 <= i < |ps| ==> ps[i].0 in ks
    ensures multiset(Flatten(SelectEach(ps, ks))) == multiset(Items(ps))
  {
    SelectEachCovers(ps, ks);
    SelectInAll(ps, set k | k in ks);
  }

  lemma SelectEachSnoc<K, T>(ps: seq<(K, T)>, ks: seq<K>, k: K)
    ensures SelectEach(ps, ks + [k]) == SelectEach(ps, ks) + [Select(ps, k)]
  {
  }

  /** Splitting a tagged sequence by its distinct tags gives no empty part. */
  lemma SplitNonEmpty<K, T>(t: seq<(K, T)>)
    ensures forall k :: 0 <= k < |Distinct(Keys(t))| ==> SelectEach(t, Distinct(Keys(t)))[k] != []
  {
    var ks := Distinct(Keys(t));
    forall k | 0 <= k < |ks| ensures SelectEach(t, ks)[k] != [] {
      assert ks[k] in Keys(t);
      var i :| 0 <= i < |t| && Keys(t)[i] == ks[k];
      SelectNonEmpty(t, i);
    }
  }

  /** Every member of the `k`th part carries the `k`th distinct tag. */
  lemma SplitMemberTag<K, T>(t: seq<(K, T)>, k: nat, x: T)
    requires k < |Distinct(Keys(t))| && x in SelectEach(t, Distinct(Keys(t)))[k]
    ensures exists i :: 0 <= i < |t| && t[i].0 == Distinct(Keys(t))[k] && t[i].1 == x
  {
    var ks := Distinct(Keys(t));
    assert SelectEach(t, ks)[k] == SelectIn(t, {ks[k]});
    var i :| 0 <= i < |t| && t[i].0 in {ks[k]} && t[i].1 == x;
  }

  /** Splitting a tagged sequence by its distinct tags loses and adds nothing. */
  lemma SplitKeeps<K, T>(t: seq<(K, T)>)
    ensures multiset(Flatten(SelectEach(t, Distinct(Keys(t))))) == multiset(Items(t))
  {
    var ks := Distinct(Keys(t));
    forall i | 0 <= i < |t| ensures t[i].0 in ks {
      assert Keys(t)[i] == t[i].0;
    }
    SelectEachPartition(t, ks);
  }

  /** A bucket keeps the relative order of its items (it is a subsequence). */
  lemma {:induction false} SelectInKeepsOrder<K, T, O>(ps: seq<(K, T)>, ks: set<K>, key: T -> O, le: (O, O) -> bool)
    requires SortedBy(Items(ps), key, le)
    ensures SortedBy(SelectIn(ps, ks), key, le)
  {
    if ps != [] {
      var p := ps[..|ps| - 1];
      var last := ps[|ps| - 1].1;
      assert SortedBy(Items(p), key, le) by {
        forall i, j | 0 <= i < j < |Items(p)| ensures le(key(Items(p)[i]), key(Items(p)[j])) {
          assert Items(p)[i] == Items(ps)[i] && Items(p)[j] == Items(ps)[j];
        }
      }
      SelectInKeepsOrder(p, ks, key, le);
      var rest := SelectIn(p, ks);
      if ps[|ps| - 1].0 in ks {
        forall x | x in rest ensures le(key(x), key(last)) {
          var i :| 0 <= i < |p| && p[i].0 in ks && p[i].1 == x;
          assert Items(ps)[i] == x && Items(ps)[|ps| - 1] == last;
        }
        var r := rest + [last];
        forall i, j | 0 <= i < j < |r| ensures le(key(r[i]), key(r[j])) {
          if j == |r| - 1 {
            assert r[i] in rest;
          } else {
            assert r[i] == rest[i] && r[j] == rest[j];
          }
        }
      }
    }
  }
}
