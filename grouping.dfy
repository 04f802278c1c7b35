/**
 * `categories.setdefault(key(entry), []).append(entry)` over a list of entries:
 * a dictionary from key to entries, whose iteration order is the order in which
 * each key was first inserted. The dictionary is modelled by `order` (its keys
 * in insertion order) and `groups` (its contents).
 */
module Grouping {

  /** The distinct keys of `items`, in the order of their first appearance. */
  function FirstSeen<T, K(==)>(items: seq<T>, key: T -> K): seq<K>
  {
    if items == [] then []
    else
      var prev := FirstSeen(items[..|items| - 1], key);
      var k := key(items[|items| - 1]);
      if k in prev then prev else prev + [k]
  }

  /** The entries with key `k`, in their original order. */
  function Filter<T, K(==)>(items: seq<T>, key: T -> K, k: K): seq<T>
  {
    if items == [] then []
    else Filter(items[..|items| - 1], key, k) + (if key(items[|items| - 1]) == k then [items[|items| - 1]] else [])
  }

  predicate Distinct<K(==)>(ks: seq<K>)
  {
    forall j, l :: 0 <= j < l < |ks| ==> ks[j] != ks[l]
  }

  /** Total size of the groups of the keys `ks`. */
  function Sizes<T, K(==)>(items: seq<T>, key: T -> K, ks: seq<K>): nat
  {
    if ks == [] then 0 else |Filter(items, key, ks[0])| + Sizes(items, key, ks[1..])
  }

  /** Number of occurrences of `k` in `ks`. */
  function Occurrences<K(==)>(ks: seq<K>, k: K): nat
  {
    if ks == [] then 0 else (if ks[0] == k then 1 else 0) + Occurrences(ks[1..], k)
  }

  /**
   * The grouping loop: a key met for the first time opens a new group at the end
   * of the iteration order; every entry is appended to the group of its key.
   */
  method GroupBy<T, K(==)>(items: seq<T>, key: T -> K) returns (order: seq<K>, groups: map<K, seq<T>>)
    ensures order == FirstSeen(items, key)
    ensures forall k :: k in groups <==> k in order
    ensures forall k :: k in groups ==> groups[k] == Filter(items, key, k)
  {
    order := [];
    groups := map[];
    for n := 0 to |items|
      invariant order == FirstSeen(items[..n], key)
      invariant forall k :: k in groups <==> k in order
      invariant forall k :: k in groups ==> groups[k] == Filter(items[..n], key, k)
    {
      var entry := items[n];
      var k := key(entry);
      assert items[..n + 1][..n] == items[..n];
      if k !in groups {
        order := order + [k];
        groups := groups[k := [entry]];
        FilterAbsent(items[..n], key, k);
      } else {
        groups := groups[k := groups[k] + [entry]];
      }
    }
    assert items[..|items|] == items;
  }

  /** A key is among the first-seen keys exactly when some entry has it. */
  lemma {:induction false} FirstSeenMembers<T, K>(items: seq<T>, key: T -> K, k: K)
    ensures k in FirstSeen(items, key) <==> exists i :: 0 <= i < |items| && key(items[i]) == k
  {
    if items != [] {
      var p := items[..|items| - 1];
      FirstSeenMembers(p, key, k);
      if exists i :: 0 <= i < |p| && key(p[i]) == k {
        var i :| 0 <= i < |p| && key(p[i]) == k;
        assert key(items[i]) == k;
      }
      if exists i :: 0 <= i < |items| && key(items[i]) == k {
        var i :| 0 <= i < |items| && key(items[i]) == k;
        if i < |p| {
          assert key(p[i]) == k;
        }
      }
    }
  }

  /** A key no entry has selects no entry. */
  lemma {:induction false} FilterAbsent<T, K>(items: seq<T>, key: T -> K, k: K)
    requires k !in FirstSeen(items, key)
    ensures Filter(items, key, k) == []
  {
    if items != [] {
      var p := items[..|items| - 1];
      FirstSeenMembers(items, key, k);
      FirstSeenMembers(p, key, k);
      FilterAbsent(p, key, k);
    }
  }

  /** The iteration order lists every key once. */
  lemma {:induction false} FirstSeenDistinct<T, K>(items: seq<T>, key: T -> K)
    ensures Distinct(FirstSeen(items, key))
  {
    if items != [] {
      FirstSeenDistinct(items[..|items| - 1], key);
    }
  }

  /**
   * An entry with the key at position `l` of the iteration order comes after an
   * entry with the key at any earlier position `j`; returns that earlier entry.
   */
  lemma {:induction false} FirstSeenBefore<T, K>(items: seq<T>, key: T -> K, j: nat, l: nat, i: nat) returns (e: nat)
    requires j < l < |FirstSeen(items, key)| && i < |items| && key(items[i]) == FirstSeen(items, key)[l]
    ensures e < i && key(items[e]) == FirstSeen(items, key)[j]
    decreases |items|
  {
    var p := items[..|items| - 1];
    var prev := FirstSeen(p, key);
    var ks := FirstSeen(items, key);
    assert ks[..|prev|] == prev;
    if l < |prev| {
      if i < |p| {
        assert key(p[i]) == prev[l];
        e := FirstSeenBefore(p, key, j, l, i);
      } else {
        FirstSeenMembers(p, key, prev[l]);
        var i0 :| 0 <= i0 < |p| && key(p[i0]) == prev[l];
        e := FirstSeenBefore(p, key, j, l, i0);
      }
      assert items[e] == p[e];
    } else {
      FirstSeenMembers(p, key, ks[l]);
      FirstSeenMembers(p, key, ks[j]);
      var e0 :| 0 <= e0 < |p| && key(p[e0]) == ks[j];
      e := e0;
      assert items[e] == p[e];
    }
  }

  /**
   * Keys are iterated in first-seen order: whenever an entry has the key at a later
   * position, an earlier entry has the key at the earlier position.
   */
  lemma FirstSeenOrder<T, K>(items: seq<T>, key: T -> K)
    ensures var ks := FirstSeen(items, key);
            forall j, l, i :: 0 <= j < l < |ks| && 0 <= i < |items| && key(items[i]) == ks[l] ==>
              exists e :: 0 <= e < i && key(items[e]) == ks[j]
  {
    var ks := FirstSeen(items, key);
    forall j, l, i | 0 <= j < l < |ks| && 0 <= i < |items| && key(items[i]) == ks[l]
      ensures exists e :: 0 <= e < i && key(items[e]) == ks[j]
    {
      var e := FirstSeenBefore(items, key, j, l, i);
    }
  }

  /** Every entry of a group has the group's key, and every entry is in the group of its own key. */
  lemma {:induction false} FilterMembers<T, K>(items: seq<T>, key: T -> K, k: K)
    ensures forall x :: x in Filter(items, key, k) ==> key(x) == k
    ensures forall i :: 0 <= i < |items| && key(items[i]) == k ==> items[i] in Filter(items, key, k)
  {
    if items != [] {
      var p := items[..|items| - 1];
      FilterMembers(p, key, k);
      forall i | 0 <= i < |items| && key(items[i]) == k ensures items[i] in Filter(items, key, k) {
        if i < |p| {
          assert items[i] == p[i];
        }
      }
    }
  }

  lemma {:induction false} SizesSnoc<T, K>(items: seq<T>, x: T, key: T -> K, ks: seq<K>)
    ensures Sizes(items + [x], key, ks) == Sizes(items, key, ks) + Occurrences(ks, key(x))
  {
    assert (items + [x])[..|items|] == items;
    if ks != [] {
      SizesSnoc(items, x, key, ks[1..]);
    }
  }

  lemma {:induction false} OccursOnce<K>(ks: seq<K>, k: K)
    requires Distinct(ks) && k in ks
    ensures Occurrences(ks, k) == 1
  {
    if ks[0] != k {
      OccursOnce(ks[1..], k);
    } else {
      OccursNever(ks[1..], k);
    }
  }

  lemma {:induction false} OccursNever<K>(ks: seq<K>, k: K)
    requires k !in ks
    ensures Occurrences(ks, k) == 0
  {
    if ks != [] {
      OccursNever(ks[1..], k);
    }
  }

  /** Every entry of a group is one of the input entries. */
  lemma {:induction false} FilterFrom<T, K>(items: seq<T>, key: T -> K, k: K, x: T)
    requires x in Filter(items, key, k)
    ensures x in items
  {
    if items != [] {
      var prefix := items[..|items| - 1];
      if x in Filter(prefix, key, k) {
        FilterFrom(prefix, key, k, x);
        assert prefix <= items;
      }
    }
  }

  /** Grouping along distinct keys that cover every entry's key puts every entry into exactly one group. */
  lemma {:induction false} SizesCover<T, K>(items: seq<T>, key: T -> K, ks: seq<K>)
    requires Distinct(ks)
    requires forall i :: 0 <= i < |items| ==> key(items[i]) in ks
    ensures Sizes(items, key, ks) == |items|
  {
    if items == [] {
      SizesEmpty(key, ks);
    } else {
      var p := items[..|items| - 1];
      var x := items[|items| - 1];
      assert items == p + [x];
      SizesCover(p, key, ks);
      SizesSnoc(p, x, key, ks);
      OccursOnce(ks, key(x));
    }
  }

  lemma {:induction false} SizesEmpty<T, K>(key: T -> K, ks: seq<K>)
    ensures Sizes([], key, ks) == 0
  {
    if ks != [] {
      SizesEmpty(key, ks[1..]);
    }
  }

  /** The groups, taken in iteration order, hold as many entries as the input: none lost, none repeated. */
  lemma GroupsPartition<T, K>(items: seq<T>, key: T -> K)
    ensures Sizes(items, key, FirstSeen(items, key)) == |items|
  {
    FirstSeenDistinct(items, key);
    forall i | 0 <= i < |items| ensures key(items[i]) in FirstSeen(items, key) {
      FirstSeenMembers(items, key, key(items[i]));
    }
    SizesCover(items, key, FirstSeen(items, key));
  }
}
