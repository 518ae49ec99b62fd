/** Sorting as Go's sort package promises it: ordered, a permutation, and nothing about ties. */
module Sorting {

  ghost predicate Preorder<T(!new)>(le: (T, T) -> bool) {
    && (forall x, y :: le(x, y) || le(y, x))
    && (forall x, y, z :: le(x, y) && le(y, z) ==> le(x, z))
  }

  ghost predicate Sorted<T>(s: seq<T>, le: (T, T) -> bool) {
    forall i, j :: 0 <= i < j < |s| ==> le(s[i], s[j])
  }

  lemma InsertedSorted<T(!new)>(sorted: seq<T>, k: nat, x: T, le: (T, T) -> bool)
    requires Sorted(sorted, le) && k <= |sorted|
    requires forall i :: 0 <= i < k ==> le(sorted[i], x)
    requires forall i :: k <= i < |sorted| ==> le(x, sorted[i])
    ensures Sorted(sorted[..k] + [x] + sorted[k..], le)
  {
  }

  method Insert<T(!new)>(sorted: seq<T>, x: T, le: (T, T) -> bool) returns (r: seq<T>)
    requires Preorder(le) && Sorted(sorted, le)
    ensures Sorted(r, le) && multiset(r) == multiset(sorted) + multiset{x}
  {
    var k := |sorted|;
    while k > 0 && !le(sorted[k - 1], x)
      invariant 0 <= k <= |sorted|
      invariant forall i :: k <= i < |sorted| ==> le(x, sorted[i])
    {
      k := k - 1;
    }
    r := sorted[..k] + [x] + sorted[k..];
    assert sorted == sorted[..k] + sorted[k..];
    if k > 0 {
      forall i | 0 <= i < k ensures le(sorted[i], x) {
        assert le(sorted[i], sorted[k - 1]) by {
          assert le(sorted[i], sorted[i]);
        }
      }
    }
    InsertedSorted(sorted, k, x, le);
  }

  /** sort.Sort */
  method Sort<T(!new)>(items: seq<T>, le: (T, T) -> bool) returns (sorted: seq<T>)
    requires Preorder(le)
    ensures Sorted(sorted, le) && multiset(sorted) == multiset(items)
  {
    sorted := [];
    for i := 0 to |items|
      invariant Sorted(sorted, le) && multiset(sorted) == multiset(items[..i])
    {
      assert items[..i + 1] == items[..i] + [items[i]];
      sorted := Insert(sorted, items[i], le);
    }
    assert items[..|items|] == items;
  }

  /** The keys of a map in some order: Go's map iteration promises no more. */
  method Keys<T(==)>(keys: set<T>) returns (order: seq<T>)
    ensures multiset(order) == multiset(keys)
  {
    order := [];
    var rest := keys;
    while rest != {}
      invariant rest <= keys && multiset(order) + multiset(rest) == multiset(keys)
      decreases rest
    {
      var key :| key in rest;
      order := order + [key];
      rest := rest - {key};
    }
  }

  predicate Distinct<T(==)>(s: seq<T>) {
    forall i, j :: 0 <= i < j < |s| ==> s[i] != s[j]
  }

  /** A permutation of a set lists each member once. */
  lemma SetOrder<T>(order: seq<T>, keys: set<T>)
    requires multiset(order) == multiset(keys)
    ensures Distinct(order) && forall x :: x in order <==> x in keys
  {
    forall x ensures x in order <==> x in keys {
      assert x in multiset(order) <==> x in order;
    }
    forall i, j | 0 <= i < j < |order| ensures order[i] != order[j] {
      var a, b := order[..j], order[j..];
      assert order == a + b;
      assert a[i] == order[i] && b[0] == order[j];
      assert multiset(order)[order[j]] == multiset(a)[order[j]] + multiset(b)[order[j]];
      assert order[j] in b && order[j] in multiset(b);
      assert order[i] in a && order[i] in multiset(a);
    }
  }

  // ---------- correspondences ----------

  /** The positions are distinct positions below n, and cover them all. */
  ghost predicate IsBijection(at: seq<nat>, n: nat) {
    && |at| == n && Distinct(at)
    && (forall i :: 0 <= i < n ==> at[i] < n)
    && (forall k :: 0 <= k < n ==> k in at)
  }

  lemma RemoveOne<T>(b: seq<T>, k: nat)
    requires k < |b|
    ensures multiset(b) == multiset(b[..k] + b[k + 1..]) + multiset{b[k]}
  {
    assert b == b[..k] + [b[k]] + b[k + 1..];
  }

  ghost predicate Corresponds<T>(at: seq<nat>, a: seq<T>, b: seq<T>) {
    IsBijection(at, |a|) && |a| == |b| && forall i :: 0 <= i < |a| ==> a[i] == b[at[i]]
  }

  lemma OneLess<T>(front: seq<T>, x: T, b: seq<T>, k: nat)
    requires multiset(front + [x]) == multiset(b) && k < |b| && b[k] == x
    ensures multiset(front) == multiset(b[..k] + b[k + 1..])
  {
    RemoveOne(b, k);
    assert multiset(front) == multiset(front + [x]) - multiset{x};
    assert multiset(b[..k] + b[k + 1..]) == multiset(b) - multiset{x};
  }

  /** A correspondence with one position of b left out, extended by that position. */
  lemma ExtendCorrespondence<T>(shorter: seq<nat>, front: seq<T>, x: T, b: seq<T>, k: nat) returns (at: seq<nat>)
    requires k < |b| && b[k] == x && Corresponds(shorter, front, b[..k] + b[k + 1..])
    ensures Corresponds(at, front + [x], b)
  {
    var n := |front|;
    at := seq(n, i requires 0 <= i < n => if shorter[i] < k then shorter[i] else shorter[i] + 1) + [k];
    ShiftedBijection(shorter, k, at);
    forall i | 0 <= i < n ensures (front + [x])[i] == b[at[i]] {
      assert front[i] == (b[..k] + b[k + 1..])[shorter[i]];
    }
  }

  /** Equal multisets correspond one to one, position by position. */
  lemma {:induction false} Correspondence<T>(a: seq<T>, b: seq<T>) returns (at: seq<nat>)
    requires multiset(a) == multiset(b)
    ensures Corresponds(at, a, b)
    decreases |a|
  {
    assert |a| == |multiset(a)| == |multiset(b)| == |b|;
    if a == [] {
      at := [];
    } else {
      var front, x := a[..|a| - 1], a[|a| - 1];
      assert a == front + [x];
      assert x in multiset(b);
      var k :| 0 <= k < |b| && b[k] == x;
      OneLess(front, x, b, k);
      var shorter := Correspondence(front, b[..k] + b[k + 1..]);
      at := ExtendCorrespondence(shorter, front, x, b, k);
    }
  }

  lemma ShiftedBijection(shorter: seq<nat>, k: nat, at: seq<nat>)
    requires IsBijection(shorter, |shorter|) && k <= |shorter| && |at| == |shorter| + 1 && at[|shorter|] == k
    requires forall i :: 0 <= i < |shorter| ==> at[i] == if shorter[i] < k then shorter[i] else shorter[i] + 1
    ensures IsBijection(at, |at|)
  {
    forall m | 0 <= m < |at| ensures m in at {
      if m == k {
        assert at[|shorter|] == m;
      } else {
        var before := if m < k then m else m - 1;
        assert before in shorter;
        var i :| 0 <= i < |shorter| && shorter[i] == before;
        assert at[i] == m;
      }
    }
  }

  /** Several sequences, one behind the other. */
  function Flatten<T>(parts: seq<seq<T>>): seq<T> {
    if parts == [] then [] else Flatten(parts[..|parts| - 1]) + parts[|parts| - 1]
  }

  lemma FlattenSnoc<T>(parts: seq<seq<T>>, last: seq<T>)
    ensures Flatten(parts + [last]) == Flatten(parts) + last
  {
    assert (parts + [last])[..|parts|] == parts;
  }

  /** What stands in an earlier part stands earlier, and each part keeps its own order. */
  lemma {:induction false} FlattenConcat<T>(a: seq<seq<T>>, part: seq<T>, b: seq<seq<T>>)
    ensures Flatten(a + [part] + b) == Flatten(a) + part + Flatten(b)
    decreases b
  {
    if b == [] {
      assert a + [part] + b == a + [part];
      FlattenSnoc(a, part);
    } else {
      var front, last := b[..|b| - 1], b[|b| - 1];
      assert a + [part] + b == (a + [part] + front) + [last];
      FlattenConcat(a, part, front);
      FlattenSnoc(a + [part] + front, last);
    }
  }
}
