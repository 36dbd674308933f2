/**
 * `Array.prototype.sort((a, b) => key(b) - key(a))`: a descending sort on an
 * integer key. The sort has been stable since ECMAScript 2019, so elements
 * with equal keys keep their input order. It is modelled as an insertion
 * sort in which an element goes in front of every element whose key is not
 * larger than its own.
 */
module StableSort {

  /** Every key is at least as large as every key after it. */
  ghost predicate Descending<T>(s: seq<T>, key: T -> int) {
    forall i, j :: 0 <= i < j < |s| ==> key(s[i]) >= key(s[j])
  }

  /**
   * Descending by `key`, and among equal keys ascending by `pos`: the order a
   * stable descending sort gives to a list that was ascending by `pos`.
   */
  ghost predicate DescendingThenAscending<T>(s: seq<T>, key: T -> int, pos: T -> int) {
    forall i, j :: 0 <= i < j < |s| ==>
      key(s[i]) > key(s[j]) || (key(s[i]) == key(s[j]) && pos(s[i]) < pos(s[j]))
  }

  ghost predicate StrictlyAscending<T>(s: seq<T>, pos: T -> int) {
    forall i, j :: 0 <= i < j < |s| ==> pos(s[i]) < pos(s[j])
  }

  /** Puts `x` in front of the first element whose key is not larger than its own. */
  function Insert<T>(x: T, s: seq<T>, key: T -> int): (r: seq<T>)
    ensures |r| == |s| + 1
  {
    if s == [] || key(x) >= key(s[0]) then [x] + s else [s[0]] + Insert(x, s[1..], key)
  }

  lemma {:induction false} InsertPermutes<T>(x: T, s: seq<T>, key: T -> int)
    ensures multiset(Insert(x, s, key)) == multiset(s) + multiset{x}
  {
    if s != [] && key(x) < key(s[0]) {
      InsertPermutes(x, s[1..], key);
      assert s == [s[0]] + s[1..];
    }
  }

  /** A head with a key at least that of every element keeps a descending list descending. */
  lemma ConsKeepsOrder<T>(h: T, rest: seq<T>, key: T -> int)
    requires Descending(rest, key)
    requires forall j :: 0 <= j < |rest| ==> key(h) >= key(rest[j])
    ensures Descending([h] + rest, key)
  {
    var s := [h] + rest;
    forall i, j | 0 <= i < j < |s| ensures key(s[i]) >= key(s[j]) {
      assert s[j] == rest[j - 1];
      if i > 0 {
        assert s[i] == rest[i - 1];
      }
    }
  }

  lemma {:induction false} InsertKeepsOrder<T>(x: T, s: seq<T>, key: T -> int)
    requires Descending(s, key)
    ensures Descending(Insert(x, s, key), key)
  {
    if s == [] || key(x) >= key(s[0]) {
      ConsKeepsOrder(x, s, key);
    } else {
      var rest := Insert(x, s[1..], key);
      InsertKeepsOrder(x, s[1..], key);
      InsertPermutes(x, s[1..], key);
      forall j | 0 <= j < |rest| ensures key(s[0]) >= key(rest[j]) {
        assert rest[j] in multiset(rest);
        if rest[j] != x {
          assert rest[j] in s[1..];
        }
      }
      ConsKeepsOrder(s[0], rest, key);
    }
  }

  /** The stable descending sort of `s` by `key`. */
  function SortDesc<T>(s: seq<T>, key: T -> int): (r: seq<T>)
    ensures |r| == |s|
  {
    if s == [] then [] else Insert(s[0], SortDesc(s[1..], key), key)
  }

  /** The sort only reorders: the output is a permutation of the input. */
  lemma {:induction false} SortDescPermutes<T>(s: seq<T>, key: T -> int)
    ensures multiset(SortDesc(s, key)) == multiset(s)
  {
    if s != [] {
      SortDescPermutes(s[1..], key);
      InsertPermutes(s[0], SortDesc(s[1..], key), key);
      assert s == [s[0]] + s[1..];
    }
  }

  /** The output is ordered by `key`, largest first. */
  lemma {:induction false} SortDescOrders<T>(s: seq<T>, key: T -> int)
    ensures Descending(SortDesc(s, key), key)
  {
    if s != [] {
      SortDescOrders(s[1..], key);
      InsertKeepsOrder(s[0], SortDesc(s[1..], key), key);
    }
  }

  /** `Array.prototype.slice(0, k)`: the first `k` elements, or all of them when there are fewer. */
  function Take<T>(s: seq<T>, k: nat): (r: seq<T>)
    ensures |r| == if k <= |s| then k else |s|
    ensures forall i :: 0 <= i < |r| ==> r[i] == s[i]
  {
    if k <= |s| then s[..k] else s
  }

  /** The first position of a largest key: an independent description of the head of a stable descending sort. */
  function FirstMax<T>(s: seq<T>, key: T -> int): (m: nat)
    requires s != []
    ensures m < |s|
    ensures forall j :: 0 <= j < |s| ==> key(s[j]) <= key(s[m])
    ensures forall j :: 0 <= j < m ==> key(s[j]) < key(s[m])
  {
    if |s| == 1 then
      0
    else
      var m := FirstMax(s[1..], key);
      if key(s[0]) >= key(s[1 + m]) then 0 else 1 + m
  }

  /** The head of the stable descending sort is the first element with the largest key. */
  lemma {:induction false} HeadIsFirstMax<T>(s: seq<T>, key: T -> int)
    requires s != []
    ensures SortDesc(s, key)[0] == s[FirstMax(s, key)]
  {
    if |s| > 1 {
      HeadIsFirstMax(s[1..], key);
    }
  }

  /** An element that precedes every element of an ordered sequence in that order can go in front of it. */
  lemma ConsKeepsTies<T>(h: T, rest: seq<T>, key: T -> int, pos: T -> int)
    requires DescendingThenAscending(rest, key, pos)
    requires forall j :: 0 <= j < |rest| ==>
      key(h) > key(rest[j]) || (key(h) == key(rest[j]) && pos(h) < pos(rest[j]))
    ensures DescendingThenAscending([h] + rest, key, pos)
  {
    var r := [h] + rest;
    forall i, j | 0 <= i < j < |r|
      ensures key(r[i]) > key(r[j]) || (key(r[i]) == key(r[j]) && pos(r[i]) < pos(r[j]))
    {
      assert r[j] == rest[j - 1];
      if i > 0 {
        assert r[i] == rest[i - 1];
      }
    }
  }

  /** Every element of `s` past its head, and `x` itself, come after that head in the order. */
  lemma BehindHead<T>(x: T, s: seq<T>, key: T -> int, pos: T -> int, rest: seq<T>)
    requires s != [] && key(x) < key(s[0])
    requires DescendingThenAscending(s, key, pos)
    requires rest == Insert(x, s[1..], key)
    ensures forall j :: 0 <= j < |rest| ==>
      key(s[0]) > key(rest[j]) || (key(s[0]) == key(rest[j]) && pos(s[0]) < pos(rest[j]))
  {
    InsertPermutes(x, s[1..], key);
    forall j | 0 <= j < |rest|
      ensures key(s[0]) > key(rest[j]) || (key(s[0]) == key(rest[j]) && pos(s[0]) < pos(rest[j]))
    {
      assert rest[j] in multiset(rest);
      if rest[j] != x {
        assert rest[j] in s[1..];
        var m :| 0 <= m < |s| - 1 && s[1..][m] == rest[j];
        assert s[1 + m] == rest[j];
      }
    }
  }

  lemma {:induction false} InsertKeepsTies<T>(x: T, s: seq<T>, key: T -> int, pos: T -> int)
    requires DescendingThenAscending(s, key, pos)
    requires forall j :: 0 <= j < |s| ==> pos(x) < pos(s[j])
    ensures DescendingThenAscending(Insert(x, s, key), key, pos)
  {
    if s != [] && key(x) < key(s[0]) {
      var rest := Insert(x, s[1..], key);
      InsertKeepsTies(x, s[1..], key, pos);
      BehindHead(x, s, key, pos, rest);
      ConsKeepsTies(s[0], rest, key, pos);
    } else {
      ConsKeepsTies(x, s, key, pos);
    }
  }

  /**
   * Stability: when the input is strictly ascending by `pos` (its original
   * positions, say), the sorted output breaks every tie in `key` by `pos`.
   */
  lemma {:induction false} SortDescIsStable<T>(s: seq<T>, key: T -> int, pos: T -> int)
    requires StrictlyAscending(s, pos)
    ensures DescendingThenAscending(SortDesc(s, key), key, pos)
  {
    if s != [] {
      var rest := SortDesc(s[1..], key);
      SortDescIsStable(s[1..], key, pos);
      SortDescPermutes(s[1..], key);
      forall j | 0 <= j < |rest| ensures pos(s[0]) < pos(rest[j]) {
        assert rest[j] in multiset(rest);
        assert rest[j] in s[1..];
      }
      InsertKeepsTies(s[0], rest, key, pos);
    }
  }

  /**
   * `order` lists the positions of `s` in the order a stable descending sort
   * puts them: it is a permutation of the positions (no position twice, all of
   * them present), higher keys come first, and among equal keys the earlier
   * position comes first.
   */
  ghost predicate SortsStably<T>(s: seq<T>, key: T -> int, order: seq<nat>)
  {
    && |order| == |s|
    && (forall i :: 0 <= i < |order| ==> order[i] < |s|)
    && (forall i, j :: 0 <= i < j < |order| ==> order[i] != order[j])
    && (forall i, j :: 0 <= i < j < |order| ==>
          key(s[order[i]]) > key(s[order[j]])
          || (key(s[order[i]]) == key(s[order[j]]) && order[i] < order[j]))
  }

  /** Each element of `s` paired with its position, counting from `base`. */
  function Tagged<T>(s: seq<T>, base: nat): (r: seq<(T, nat)>)
    ensures |r| == |s|
    ensures forall i :: 0 <= i < |s| ==> r[i] == (s[i], base + i)
  {
    if s == [] then [] else [(s[0], base)] + Tagged(s[1..], base + 1)
  }

  /** The elements of a tagged sequence without their tags. */
  function Untagged<T>(r: seq<(T, nat)>): (s: seq<T>)
    ensures |s| == |r|
    ensures forall i :: 0 <= i < |r| ==> s[i] == r[i].0
  {
    if r == [] then [] else [r[0].0] + Untagged(r[1..])
  }

  /** Inserting a tagged element by the key of its element ignores the tags. */
  lemma {:induction false} InsertUntagged<T>(x: (T, nat), r: seq<(T, nat)>, key: T -> int, tkey: ((T, nat)) -> int)
    requires forall p :: tkey(p) == key(p.0)
    ensures Untagged(Insert(x, r, tkey)) == Insert(x.0, Untagged(r), key)
  {
    if r != [] && tkey(x) < tkey(r[0]) {
      InsertUntagged(x, r[1..], key, tkey);
      assert Untagged(r)[1..] == Untagged(r[1..]);
    }
  }

  /** Sorting the tagged elements and dropping the tags is sorting the elements. */
  lemma {:induction false} SortUntagged<T>(s: seq<T>, base: nat, key: T -> int, tkey: ((T, nat)) -> int)
    requires forall p :: tkey(p) == key(p.0)
    ensures Untagged(SortDesc(Tagged(s, base), tkey)) == SortDesc(s, key)
  {
    if s != [] {
      var tags := Tagged(s, base);
      assert tags[1..] == Tagged(s[1..], base + 1);
      SortUntagged(s[1..], base + 1, key, tkey);
      InsertUntagged(tags[0], SortDesc(tags[1..], tkey), key, tkey);
    }
  }

  /**
   * Sorting the elements tagged with their positions: each entry carries the
   * position it came from, keys descend, and equal keys keep their positions
   * ascending.
   */
  lemma TaggedSort<T>(s: seq<T>, key: T -> int) returns (ts: seq<(T, nat)>)
    ensures Untagged(ts) == SortDesc(s, key)
    ensures forall i :: 0 <= i < |ts| ==> ts[i].1 < |s| && ts[i].0 == s[ts[i].1]
    ensures forall i, j :: 0 <= i < j < |ts| ==>
              key(ts[i].0) > key(ts[j].0) || (key(ts[i].0) == key(ts[j].0) && ts[i].1 < ts[j].1)
  {
    var tkey := (p: (T, nat)) => key(p.0);
    var pos := (p: (T, nat)) => p.1 as int;
    var tags := Tagged(s, 0);
    ts := SortDesc(tags, tkey);
    SortUntagged(s, 0, key, tkey);
    SortDescIsStable(tags, tkey, pos);
    SortDescPermutes(tags, tkey);
    forall i | 0 <= i < |ts|
      ensures ts[i].1 < |s| && ts[i].0 == s[ts[i].1]
    {
      assert ts[i] in multiset(tags);
      assert ts[i] in tags;
    }
  }

  /**
   * The stable sort as a permutation of positions: the `i`-th element of the
   * sorted sequence is the element at position `order[i]` of the input.
   */
  lemma SortDescOrder<T>(s: seq<T>, key: T -> int) returns (order: seq<nat>)
    ensures SortsStably(s, key, order)
    ensures forall i :: 0 <= i < |s| ==> SortDesc(s, key)[i] == s[order[i]]
  {
    var ts := TaggedSort(s, key);
    order := seq(|ts|, i requires 0 <= i < |ts| => ts[i].1);
    assert forall i :: 0 <= i < |ts| ==> Untagged(ts)[i] == ts[i].0;
  }
}
