/**
  The sequence operations the write page borrows from JavaScript and dnd-kit:
  `Math.max(...xs, floor)`, `Array.prototype.findIndex`, `Array.prototype.filter`
  on a key, dnd-kit's `arrayMove`, and the stable `Array.prototype.sort` driven by
  a comparator.
*/
module Seqs {

  /** `Math.max(...xs, floor)`: the largest of the elements of `xs` and `floor`. */
  function MaxOf(xs: seq<int>, floor: int): (m: int)
    ensures floor <= m
    ensures forall i :: 0 <= i < |xs| ==> xs[i] <= m
    ensures m == floor || m in xs
  {
    if xs == [] then floor
    else
      var rest := MaxOf(xs[1..], floor);
      if xs[0] > rest then xs[0] else rest
  }

  /** `findIndex(x => key(x) === k)`: the first index whose key is `k`, or -1. */
  function FindIndex<T>(s: seq<T>, key: T -> int, k: int): (r: int)
    ensures -1 <= r < |s|
    ensures r == -1 <==> forall i :: 0 <= i < |s| ==> key(s[i]) != k
    ensures 0 <= r ==> key(s[r]) == k && forall i :: 0 <= i < r ==> key(s[i]) != k
  {
    if s == [] then -1
    else if key(s[0]) == k then 0
    else
      var r := FindIndex(s[1..], key, k);
      if r == -1 then -1 else r + 1
  }

  /** `s.map(key)`: the key of every element, in order. */
  function Keys<T>(s: seq<T>, key: T -> int): (r: seq<int>)
    ensures |r| == |s| && forall i :: 0 <= i < |s| ==> r[i] == key(s[i])
  {
    seq(|s|, i requires 0 <= i < |s| => key(s[i]))
  }

  /** No two elements share a key. */
  ghost predicate UniqueBy<T>(s: seq<T>, key: T -> int) {
    forall i, j :: 0 <= i < j < |s| ==> key(s[i]) != key(s[j])
  }

  /** The keys present in `s`. */
  ghost function KeySet<T>(s: seq<T>, key: T -> int): set<int> {
    set x | x in s :: key(x)
  }

  /** Appending an element with a fresh key keeps keys distinct and adds just that key. */
  lemma AppendFresh<T>(s: seq<T>, key: T -> int, x: T)
    requires UniqueBy(s, key) && forall y :: y in s ==> key(y) != key(x)
    ensures UniqueBy(s + [x], key)
    ensures forall y :: y in s + [x] <==> y in s || y == x
    ensures KeySet(s + [x], key) == KeySet(s, key) + {key(x)}
  {
    var r := s + [x];
    forall i, j | 0 <= i < j < |r| ensures key(r[i]) != key(r[j]) {
      if j == |s| { assert r[i] in s; }
    }
  }

  /** In a sequence without repeated keys, the first index with key `k` is every index with key `k`. */
  lemma FindIndexUnique<T>(s: seq<T>, key: T -> int, i: int)
    requires UniqueBy(s, key) && 0 <= i < |s|
    ensures FindIndex(s, key, key(s[i])) == i
  {
  }

  /** A key that occurs in `s` occurs in every permutation of `s`. */
  lemma FoundInPermutation<T>(s: seq<T>, t: seq<T>, key: T -> int, k: int)
    requires multiset(s) == multiset(t) && FindIndex(s, key, k) >= 0
    ensures FindIndex(t, key, k) >= 0
  {
    var x := s[FindIndex(s, key, k)];
    assert x in multiset(t);
    var j :| 0 <= j < |t| && t[j] == x;
  }

  /** In a key-unique sequence, an element is found by its own key at its own place. */
  lemma FindIndexMember<T>(t: seq<T>, key: T -> int, x: T)
    requires x in t && UniqueBy(t, key)
    ensures 0 <= FindIndex(t, key, key(x)) && t[FindIndex(t, key, key(x))] == x
  {
    var j :| 0 <= j < |t| && t[j] == x;
    FindIndexUnique(t, key, j);
  }

  /** Every place of a key-unique permutation `t` of `s` is the place some element of `s` is found at. */
  lemma PermutationSource<T>(s: seq<T>, t: seq<T>, key: T -> int, k: int)
    requires multiset(s) == multiset(t) && UniqueBy(t, key) && 0 <= k < |t|
    ensures exists i :: 0 <= i < |s| && s[i] == t[k] && FindIndex(t, key, key(s[i])) == k
  {
    assert t[k] in multiset(s);
    var i :| 0 <= i < |s| && s[i] == t[k];
    FindIndexUnique(t, key, k);
  }

  /** A map that keeps every element's key keeps the key set and key uniqueness. */
  lemma SameKeys<T>(s: seq<T>, t: seq<T>, key: T -> int)
    requires |s| == |t| && forall i :: 0 <= i < |s| ==> key(s[i]) == key(t[i])
    ensures KeySet(s, key) == KeySet(t, key)
    ensures UniqueBy(s, key) ==> UniqueBy(t, key)
  {
    forall k | k in KeySet(s, key) ensures k in KeySet(t, key) {
      var x :| x in s && key(x) == k;
      var i :| 0 <= i < |s| && s[i] == x;
      assert t[i] in t;
    }
    forall k | k in KeySet(t, key) ensures k in KeySet(s, key) {
      var x :| x in t && key(x) == k;
      var i :| 0 <= i < |t| && t[i] == x;
      assert s[i] in s;
    }
  }

  /** Permuting a sequence keeps its key set. */
  lemma PermutationKeys<T>(s: seq<T>, t: seq<T>, key: T -> int)
    requires multiset(s) == multiset(t)
    ensures KeySet(s, key) == KeySet(t, key)
  {
    forall x | x in s ensures x in t { assert x in multiset(t); }
    forall x | x in t ensures x in s { assert x in multiset(s); }
  }

  /** The tail of a sequence with distinct keys has distinct keys, none of them the head's. */
  lemma TailUnique<T>(s: seq<T>, key: T -> int)
    requires s != [] && UniqueBy(s, key)
    ensures UniqueBy(s[1..], key)
    ensures forall x :: x in s[1..] ==> key(x) != key(s[0])
  {
    forall x | x in s[1..] ensures key(x) != key(s[0]) {
      var j :| 0 <= j < |s[1..]| && s[1..][j] == x;
      assert s[j + 1] == x;
    }
  }

  /** A head whose key is not in a tail with distinct keys gives a sequence with distinct keys. */
  lemma ConsUnique<T>(h: T, t: seq<T>, key: T -> int)
    requires UniqueBy(t, key) && forall x :: x in t ==> key(x) != key(h)
    ensures UniqueBy([h] + t, key)
  {
    var r := [h] + t;
    forall i, j | 0 <= i < j < |r| ensures key(r[i]) != key(r[j]) {
      assert r[j] == t[j - 1];
      if i > 0 { assert r[i] == t[i - 1]; }
    }
  }

  /** `filter(x => key(x) !== k)`. */
  function RemoveKey<T(!new)>(s: seq<T>, key: T -> int, k: int): (r: seq<T>)
    ensures forall x :: x in r <==> x in s && key(x) != k
    ensures |r| <= |s|
    ensures (forall x :: x in s ==> key(x) != k) ==> r == s
  {
    if s == [] then []
    else
      var rest := RemoveKey(s[1..], key, k);
      if key(s[0]) == k then rest else [s[0]] + rest
  }

  /** On distinct keys, removing key `k` keeps the keys distinct and drops exactly one element when `k` is present. */
  lemma {:induction false} RemoveKeyUnique<T(!new)>(s: seq<T>, key: T -> int, k: int)
    requires UniqueBy(s, key)
    ensures UniqueBy(RemoveKey(s, key, k), key)
    ensures k in KeySet(s, key) ==> |RemoveKey(s, key, k)| == |s| - 1
  {
    if s != [] {
      var rest := RemoveKey(s[1..], key, k);
      TailUnique(s, key);
      RemoveKeyUnique(s[1..], key, k);
      if key(s[0]) == k {
        assert forall x :: x in s[1..] ==> key(x) != k;
      } else {
        ConsUnique(s[0], rest, key);
        if k in KeySet(s, key) {
          var x :| x in s && key(x) == k;
          assert x in s[1..];
        }
      }
    }
  }

  /** `filter` keeps order: filtering a concatenation filters each part in turn. */
  lemma {:induction false} RemoveKeyAppend<T(!new)>(a: seq<T>, b: seq<T>, key: T -> int, k: int)
    ensures RemoveKey(a + b, key, k) == RemoveKey(a, key, k) + RemoveKey(b, key, k)
  {
    if a != [] {
      assert (a + b)[0] == a[0] && (a + b)[1..] == a[1..] + b;
      RemoveKeyAppend(a[1..], b, key, k);
    } else {
      assert a + b == b;
    }
  }

  /** The filter on one element: one element stays exactly when its key is not `k`. */
  lemma RemoveKeySingleton<T(!new)>(x: T, key: T -> int, k: int)
    ensures RemoveKey([x], key, k) == if key(x) == k then [] else [x]
  {
    assert [x][1..] == [];
  }

  /** On distinct keys, filtering out the key of `x` from `a + [x] + b` leaves `a + b`. */
  lemma RemoveKeySplices<T(!new)>(a: seq<T>, x: T, b: seq<T>, key: T -> int)
    requires UniqueBy(a + [x] + b, key)
    ensures RemoveKey(a + [x] + b, key, key(x)) == a + b
  {
    SpliceFresh(a, x, b, key);
    RemoveKeyAppend(a + [x], b, key, key(x));
    RemoveKeyAppend(a, [x], key, key(x));
    RemoveKeySingleton(x, key, key(x));
  }

  /** In `a + [x] + b` with distinct keys, no element of `a` or `b` has the key of `x`. */
  lemma SpliceFresh<T>(a: seq<T>, x: T, b: seq<T>, key: T -> int)
    requires UniqueBy(a + [x] + b, key)
    ensures forall y :: y in a ==> key(y) != key(x)
    ensures forall y :: y in b ==> key(y) != key(x)
  {
    var s := a + [x] + b;
    forall i | 0 <= i < |a| ensures key(a[i]) != key(x) {
      assert s[i] == a[i] && s[|a|] == x;
    }
    forall i | 0 <= i < |b| ensures key(b[i]) != key(x) {
      assert s[|a| + 1 + i] == b[i] && s[|a|] == x;
    }
  }

  /**
    dnd-kit's `arrayMove(s, from, to)`: take out the element at `from`, then insert
    it so that it ends at index `to`.
  */
  function ArrayMove<T>(s: seq<T>, from: nat, to: nat): (r: seq<T>)
    requires from < |s| && to < |s|
    ensures |r| == |s| && r[to] == s[from]
    ensures multiset(r) == multiset(s)
  {
    var rest := s[..from] + s[from + 1..];
    assert s == s[..from] + [s[from]] + s[from + 1..];
    assert rest == rest[..to] + rest[to..];
    var r := rest[..to] + [s[from]] + rest[to..];
    assert multiset(r) == multiset(rest) + multiset{s[from]};
    r
  }

  /** The index of `s` that index `k` of `ArrayMove(s, from, to)` comes from. */
  function MoveSource(from: nat, to: nat, k: nat): nat {
    if k == to then from
    else if from <= to && from <= k < to then k + 1
    else if to < from && to < k <= from then k - 1
    else k
  }

  /** Where every element of `s` lands after `ArrayMove(s, from, to)`. */
  lemma ArrayMoveAt<T>(s: seq<T>, from: nat, to: nat, k: nat)
    requires from < |s| && to < |s| && k < |s|
    ensures MoveSource(from, to, k) < |s| && ArrayMove(s, from, to)[k] == s[MoveSource(from, to, k)]
  {
  }

  /** Moving the element back from `to` to `from` restores the original sequence. */
  lemma ArrayMoveInverse<T>(s: seq<T>, from: nat, to: nat)
    requires from < |s| && to < |s|
    ensures ArrayMove(ArrayMove(s, from, to), to, from) == s
  {
    var m := ArrayMove(s, from, to);
    var b := ArrayMove(m, to, from);
    forall k | 0 <= k < |s| ensures b[k] == s[k] {
      ArrayMoveAt(m, to, from, k);
      var k1 := MoveSource(to, from, k);
      ArrayMoveAt(s, from, to, k1);
      assert MoveSource(from, to, k1) == k;
    }
  }

  /** `ArrayMove` keeps keys distinct. */
  lemma ArrayMoveUnique<T>(s: seq<T>, key: T -> int, from: nat, to: nat)
    requires from < |s| && to < |s| && UniqueBy(s, key)
    ensures UniqueBy(ArrayMove(s, from, to), key)
  {
    var r := ArrayMove(s, from, to);
    forall i, j | 0 <= i < j < |r| ensures key(r[i]) != key(r[j]) {
      ArrayMoveAt(s, from, to, i);
      ArrayMoveAt(s, from, to, j);
      var a, b := MoveSource(from, to, i), MoveSource(from, to, j);
      assert r[i] == s[a] && r[j] == s[b];
      assert a != b && a < |s| && b < |s|;
    }
  }

  /**
    Put `x` in front of the first element it does not sort after. With `x` taken from
    in front of `s`, this keeps elements the comparator calls equal in their original
    order, as the stable `Array.prototype.sort` does.
  */
  function Insert<T>(x: T, s: seq<T>, cmp: (T, T) -> int): (r: seq<T>)
    ensures multiset(r) == multiset(s) + multiset{x}
  {
    if s == [] || cmp(x, s[0]) <= 0 then [x] + s
    else
      assert s == [s[0]] + s[1..];
      [s[0]] + Insert(x, s[1..], cmp)
  }

  /** `Array.prototype.sort(cmp)`, which is stable: insertion sort. */
  function StableSort<T>(s: seq<T>, cmp: (T, T) -> int): (r: seq<T>)
    ensures multiset(r) == multiset(s)
  {
    if s == [] then []
    else
      assert s == [s[0]] + s[1..];
      Insert(s[0], StableSort(s[1..], cmp), cmp)
  }

  /** Every pair in order according to `cmp`. */
  ghost predicate SortedBy<T>(s: seq<T>, cmp: (T, T) -> int) {
    forall i, j :: 0 <= i < j < |s| ==> cmp(s[i], s[j]) <= 0
  }

  /**
    `cmp` is a consistent comparator in the sense of `Array.prototype.sort`: any two
    values compare one way or the other, and "sorts no later than" is transitive.
  */
  ghost predicate TotalPreorder<T(!new)>(cmp: (T, T) -> int) {
    && (forall a, b :: cmp(a, b) <= 0 || cmp(b, a) <= 0)
    && (forall a, b, c {:trigger cmp(a, b), cmp(b, c), cmp(a, c)} :: cmp(a, b) <= 0 && cmp(b, c) <= 0 ==> cmp(a, c) <= 0)
  }

  /** A head that sorts no later than every element of a sorted tail gives a sorted sequence. */
  lemma ConsSorted<T>(h: T, t: seq<T>, cmp: (T, T) -> int)
    requires SortedBy(t, cmp) && forall j :: 0 <= j < |t| ==> cmp(h, t[j]) <= 0
    ensures SortedBy([h] + t, cmp)
  {
    var r := [h] + t;
    forall i, j | 0 <= i < j < |r| ensures cmp(r[i], r[j]) <= 0 {
      assert r[j] == t[j - 1];
      if i > 0 { assert r[i] == t[i - 1]; }
    }
  }

  /** Every element of `Insert(x, s, cmp)` is `x` or an element of `s`. */
  lemma InsertFrom<T>(x: T, s: seq<T>, cmp: (T, T) -> int, y: T)
    requires y in Insert(x, s, cmp)
    ensures y == x || y in s
  {
    assert y in multiset(Insert(x, s, cmp));
  }

  lemma {:induction false} InsertSorted<T(!new)>(x: T, s: seq<T>, cmp: (T, T) -> int)
    requires TotalPreorder(cmp) && SortedBy(s, cmp)
    ensures SortedBy(Insert(x, s, cmp), cmp)
  {
    if s == [] || cmp(x, s[0]) <= 0 {
      forall j | 0 <= j < |s| ensures cmp(x, s[j]) <= 0 {
        if j > 0 {
          assert cmp(s[0], s[j]) <= 0;
        }
      }
      ConsSorted(x, s, cmp);
    } else {
      var t := Insert(x, s[1..], cmp);
      assert SortedBy(s[1..], cmp);
      InsertSorted(x, s[1..], cmp);
      forall j | 0 <= j < |t| ensures cmp(s[0], t[j]) <= 0 {
        InsertFrom(x, s[1..], cmp, t[j]);
        if t[j] != x {
          var p :| 0 <= p < |s[1..]| && s[1..][p] == t[j];
          assert s[p + 1] == t[j];
        }
      }
      ConsSorted(s[0], t, cmp);
    }
  }

  /** With a consistent comparator, `StableSort` sorts. */
  lemma {:induction false} StableSortSorted<T(!new)>(s: seq<T>, cmp: (T, T) -> int)
    requires TotalPreorder(cmp)
    ensures SortedBy(StableSort(s, cmp), cmp)
  {
    if s != [] {
      StableSortSorted(s[1..], cmp);
      InsertSorted(s[0], StableSort(s[1..], cmp), cmp);
    }
  }

  /**
    A rank that `cmp` always puts first: a value of lower rank sorts before one of
    higher rank whatever the rest of the comparison says.
  */
  ghost predicate RankDecides<T(!new)>(cmp: (T, T) -> int, rank: T -> int) {
    forall a, b :: rank(a) < rank(b) ==> cmp(a, b) < 0 && cmp(b, a) > 0
  }

  /** Ranks never decrease along a sequence. */
  ghost predicate RankSorted<T>(s: seq<T>, rank: T -> int) {
    forall i, j :: 0 <= i < j < |s| ==> rank(s[i]) <= rank(s[j])
  }

  /** A head of rank no higher than anything in a rank-sorted tail gives a rank-sorted sequence. */
  lemma ConsRankSorted<T>(h: T, t: seq<T>, rank: T -> int)
    requires RankSorted(t, rank) && forall j :: 0 <= j < |t| ==> rank(h) <= rank(t[j])
    ensures RankSorted([h] + t, rank)
  {
    var r := [h] + t;
    forall i, j | 0 <= i < j < |r| ensures rank(r[i]) <= rank(r[j]) {
      assert r[j] == t[j - 1];
      if i > 0 { assert r[i] == t[i - 1]; }
    }
  }

  lemma {:induction false} InsertRankSorted<T(!new)>(x: T, s: seq<T>, cmp: (T, T) -> int, rank: T -> int)
    requires RankDecides(cmp, rank) && RankSorted(s, rank)
    ensures RankSorted(Insert(x, s, cmp), rank)
  {
    if s == [] || cmp(x, s[0]) <= 0 {
      forall j | 0 <= j < |s| ensures rank(x) <= rank(s[j]) {
        assert rank(s[0]) <= rank(s[j]);
      }
      ConsRankSorted(x, s, rank);
    } else {
      var t := Insert(x, s[1..], cmp);
      assert RankSorted(s[1..], rank);
      InsertRankSorted(x, s[1..], cmp, rank);
      forall j | 0 <= j < |t| ensures rank(s[0]) <= rank(t[j]) {
        InsertFrom(x, s[1..], cmp, t[j]);
        if t[j] != x {
          var p :| 0 <= p < |s[1..]| && s[1..][p] == t[j];
          assert s[p + 1] == t[j];
        }
      }
      ConsRankSorted(s[0], t, rank);
    }
  }

  /** When a rank decides the comparison, `StableSort` groups the values by rank, lowest first. */
  lemma {:induction false} StableSortRankSorted<T(!new)>(s: seq<T>, cmp: (T, T) -> int, rank: T -> int)
    requires RankDecides(cmp, rank)
    ensures RankSorted(StableSort(s, cmp), rank)
  {
    if s != [] {
      StableSortRankSorted(s[1..], cmp, rank);
      InsertRankSorted(s[0], StableSort(s[1..], cmp), cmp, rank);
    }
  }

  /** A comparator that never asks to swap leaves the sequence as it is. */
  lemma {:induction false} StableSortKeeps<T>(s: seq<T>, cmp: (T, T) -> int)
    requires forall a, b :: a in s && b in s ==> cmp(a, b) <= 0
    ensures StableSort(s, cmp) == s
  {
    if s != [] {
      var t := s[1..];
      assert s == [s[0]] + t;
      forall a, b | a in t && b in t ensures cmp(a, b) <= 0 {
        assert a in s && b in s;
      }
      StableSortKeeps(t, cmp);
      if t != [] { assert cmp(s[0], t[0]) <= 0 by { assert t[0] in s; } }
    }
  }

  /** `cmp` ranks `a` and `b` level: neither sorts after the other. */
  ghost predicate Level<T>(cmp: (T, T) -> int, a: T, b: T) {
    cmp(a, b) <= 0 && cmp(b, a) <= 0
  }

  /** The elements of `s` that `cmp` ranks level with `k`, in their order in `s`. */
  ghost function Ties<T>(s: seq<T>, cmp: (T, T) -> int, k: T): seq<T> {
    if s == [] then []
    else TieOf(s[0], cmp, k) + Ties(s[1..], cmp, k)
  }

  /** The ties of `[h] + t` are those of `h` followed by those of `t`. */
  lemma TiesCons<T>(h: T, t: seq<T>, cmp: (T, T) -> int, k: T)
    ensures Ties([h] + t, cmp, k) == TieOf(h, cmp, k) + Ties(t, cmp, k)
  {
    assert ([h] + t)[1..] == t;
  }

  /** The ties of `[x]`: `x` when it is level with `k`. */
  function TieOf<T>(x: T, cmp: (T, T) -> int, k: T): seq<T> {
    if cmp(x, k) <= 0 && cmp(k, x) <= 0 then [x] else []
  }

  /**
    Inserting `x` into a sorted sequence puts it in front of every element level with
    `k` when `x` itself is level with `k`, and leaves those elements' order alone.
  */
  lemma {:induction false} InsertTies<T(!new)>(x: T, s: seq<T>, cmp: (T, T) -> int, k: T)
    requires TotalPreorder(cmp) && SortedBy(s, cmp)
    ensures Ties(Insert(x, s, cmp), cmp, k) == TieOf(x, cmp, k) + Ties(s, cmp, k)
  {
    if s == [] || cmp(x, s[0]) <= 0 {
      TiesCons(x, s, cmp, k);
    } else {
      assert SortedBy(s[1..], cmp);
      InsertTies(x, s[1..], cmp, k);
      if Level(cmp, x, k) && Level(cmp, s[0], k) {
        LevelSorted(x, s[0], cmp, k);
      }
      InsertTiesBehind(x, s, cmp, k);
    }
  }

  /** The step of `InsertTies` where `x` sorts after the head of `s`. */
  lemma InsertTiesBehind<T(!new)>(x: T, s: seq<T>, cmp: (T, T) -> int, k: T)
    requires s != [] && cmp(x, s[0]) > 0 && (TieOf(x, cmp, k) == [] || TieOf(s[0], cmp, k) == [])
    requires Ties(Insert(x, s[1..], cmp), cmp, k) == TieOf(x, cmp, k) + Ties(s[1..], cmp, k)
    ensures Ties(Insert(x, s, cmp), cmp, k) == TieOf(x, cmp, k) + Ties(s, cmp, k)
  {
    var t := Insert(x, s[1..], cmp);
    assert Insert(x, s, cmp) == [s[0]] + t;
    assert s == [s[0]] + s[1..];
    TiesCons(s[0], t, cmp, k);
    TiesCons(s[0], s[1..], cmp, k);
    SwapEmpty(TieOf(x, cmp, k), TieOf(s[0], cmp, k), Ties(s[1..], cmp, k));
  }

  /** Two parts of which one is empty may trade places. */
  lemma SwapEmpty<T>(a: seq<T>, b: seq<T>, rest: seq<T>)
    requires a == [] || b == []
    ensures b + (a + rest) == a + (b + rest)
  {
    if a == [] {
      assert a + rest == rest;
    } else {
      assert b + rest == rest;
    }
  }

  /** Two values level with the same `k` sort no later than each other. */
  lemma LevelSorted<T(!new)>(x: T, y: T, cmp: (T, T) -> int, k: T)
    requires TotalPreorder(cmp) && Level(cmp, x, k) && Level(cmp, y, k)
    ensures cmp(x, y) <= 0
  {
    assert cmp(x, k) <= 0 && cmp(k, y) <= 0;
  }

  /**
    `Array.prototype.sort` is stable: with a consistent comparator, the elements it
    ranks level with any `k` come out in the order they went in.
  */
  lemma {:induction false} StableSortStable<T(!new)>(s: seq<T>, cmp: (T, T) -> int, k: T)
    requires TotalPreorder(cmp)
    ensures Ties(StableSort(s, cmp), cmp, k) == Ties(s, cmp, k)
  {
    if s != [] {
      StableSortStable(s[1..], cmp, k);
      StableSortSorted(s[1..], cmp);
      InsertTies(s[0], StableSort(s[1..], cmp), cmp, k);
      TiesCons(s[0], s[1..], cmp, k);
      assert s == [s[0]] + s[1..];
    }
  }

  /** Sorting keeps keys distinct. */
  lemma {:induction false} StableSortUnique<T>(s: seq<T>, cmp: (T, T) -> int, key: T -> int)
    requires UniqueBy(s, key)
    ensures UniqueBy(StableSort(s, cmp), key)
  {
    if s != [] {
      var t := StableSort(s[1..], cmp);
      assert UniqueBy(s[1..], key);
      StableSortUnique(s[1..], cmp, key);
      forall y | y in t ensures key(y) != key(s[0]) {
        assert y in multiset(t);
        assert y in s[1..];
        var p :| 0 <= p < |s[1..]| && s[1..][p] == y;
        assert key(s[0]) != key(s[p + 1]);
      }
      InsertUnique(s[0], t, cmp, key);
    }
  }

  lemma {:induction false} InsertUnique<T>(x: T, s: seq<T>, cmp: (T, T) -> int, key: T -> int)
    requires UniqueBy(s, key) && forall y :: y in s ==> key(y) != key(x)
    ensures UniqueBy(Insert(x, s, cmp), key)
  {
    if s == [] || cmp(x, s[0]) <= 0 {
      ConsUnique(x, s, key);
    } else {
      var t := Insert(x, s[1..], cmp);
      TailUnique(s, key);
      assert forall y :: y in s[1..] ==> y in s;
      InsertUnique(x, s[1..], cmp, key);
      forall y | y in t ensures key(y) != key(s[0]) {
        InsertFrom(x, s[1..], cmp, y);
      }
      ConsUnique(s[0], t, key);
    }
  }

}
