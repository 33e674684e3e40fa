// std::multimap<string, string> as the sequence its iterators walk.

module Multimap {

  type Entry = (string, string)

  type Order = (string, string) -> bool

  // emplace puts an entry behind all entries whose key is not greater.
  function Emplace(less: Order, entries: seq<Entry>, e: Entry): seq<Entry> {
    if entries == [] || less(e.0, entries[0].0) then [e] + entries
    else [entries[0]] + Emplace(less, entries[1..], e)
  }

  // The entries emplaced one after the other.
  function EmplaceAll(less: Order, before: seq<Entry>, entries: seq<Entry>): seq<Entry>
    decreases |entries|
  {
    if entries == [] then before else EmplaceAll(less, Emplace(less, before, entries[0]), entries[1..])
  }

  ghost predicate Ordered(less: Order, entries: seq<Entry>) {
    forall i, j | 0 <= i < j < |entries| :: !less(entries[j].0, entries[i].0)
  }

  // What std::multimap demands of its comparison.
  ghost predicate StrictWeak(less: Order) {
    && (forall a, b :: less(a, b) ==> !less(b, a))
    && (forall a, b, c :: less(a, c) ==> less(a, b) || less(b, c))
  }

  // The entries whose key is equivalent to k, in order.
  function OfKey(less: Order, entries: seq<Entry>, k: string): seq<Entry> {
    if entries == [] then []
    else (if less(entries[0].0, k) || less(k, entries[0].0) then [] else [entries[0]]) + OfKey(less, entries[1..], k)
  }

  // The same entries in order of their keys, those of one key in the order in which they came.
  ghost predicate StableSort(less: Order, from: seq<Entry>, to: seq<Entry>) {
    && Ordered(less, to) && multiset(to) == multiset(from)
    && forall k :: OfKey(less, to, k) == OfKey(less, from, k)
  }

  // ------------------------------------------------------------------------------------------
  // One entry more

  // The new entry goes behind all that are not greater and before all others, which keep their places.
  lemma {:induction false} EmplaceAt(less: Order, entries: seq<Entry>, e: Entry) returns (k: nat)
    ensures k <= |entries| && Emplace(less, entries, e) == entries[..k] + [e] + entries[k..]
    ensures forall i | 0 <= i < k :: !less(e.0, entries[i].0)
    ensures k < |entries| ==> less(e.0, entries[k].0)
  {
    if entries == [] || less(e.0, entries[0].0) {
      k := 0;
    } else {
      k := EmplaceAt(less, entries[1..], e);
      k := k + 1;
      assert entries[..k] == [entries[0]] + entries[1..][..k - 1] && entries[1..][k - 1..] == entries[k..];
    }
  }

  lemma EmplaceAdds(less: Order, entries: seq<Entry>, e: Entry)
    ensures multiset(Emplace(less, entries, e)) == multiset(entries) + multiset{e}
  {
    var k := EmplaceAt(less, entries, e);
    assert entries == entries[..k] + entries[k..];
  }

  lemma EmplaceKeeps(less: Order, entries: seq<Entry>, e: Entry)
    ensures forall x | x in Emplace(less, entries, e) :: x == e || x in entries
  {
    var k := EmplaceAt(less, entries, e);
  }

  lemma EmplaceOrdered(less: Order, entries: seq<Entry>, e: Entry)
    requires StrictWeak(less) && Ordered(less, entries)
    ensures Ordered(less, Emplace(less, entries, e))
  {
    var k := EmplaceAt(less, entries, e);
    var s := Emplace(less, entries, e);
    forall i | k <= i < |entries| ensures less(e.0, entries[i].0) {
      assert less(e.0, entries[k].0);
      assert i > k ==> !less(entries[i].0, entries[k].0);
    }
    forall i, j | 0 <= i < j < |s| ensures !less(s[j].0, s[i].0) {
      assert s[i] == if i < k then entries[i] else if i == k then e else entries[i - 1];
      assert s[j] == if j < k then entries[j] else if j == k then e else entries[j - 1];
    }
  }

  lemma {:induction false} OfKeyConcat(less: Order, a: seq<Entry>, b: seq<Entry>, k: string)
    ensures OfKey(less, a + b, k) == OfKey(less, a, k) + OfKey(less, b, k)
  {
    if a == [] {
      assert a + b == b;
    } else {
      hide OfKey;
      OfKeyConcat(less, a[1..], b, k);
      assert (a + b)[1..] == a[1..] + b;
      OfKeyFirst(less, a, k);
      OfKeyFirst(less, a + b, k);
      Associate(OfKey(less, [a[0]], k), OfKey(less, a[1..], k), OfKey(less, b, k));
    }
  }

  lemma OfKeyFirst(less: Order, entries: seq<Entry>, k: string)
    requires entries != []
    ensures OfKey(less, entries, k) == OfKey(less, [entries[0]], k) + OfKey(less, entries[1..], k)
  {
    assert [entries[0]][1..] == [];
  }

  lemma Associate(a: seq<Entry>, b: seq<Entry>, c: seq<Entry>)
    ensures a + (b + c) == (a + b) + c
  {
  }

  lemma {:induction false} NoneOfKey(less: Order, entries: seq<Entry>, k: string)
    requires forall i | 0 <= i < |entries| :: less(entries[i].0, k) || less(k, entries[i].0)
    ensures OfKey(less, entries, k) == []
  {
    if entries != [] { NoneOfKey(less, entries[1..], k); }
  }

  // Among its equals the new entry is the last.
  lemma EmplaceBehindEquals(less: Order, entries: seq<Entry>, e: Entry, k: string)
    requires StrictWeak(less) && Ordered(less, entries)
    ensures OfKey(less, Emplace(less, entries, e), k) == OfKey(less, entries + [e], k)
  {
    hide OfKey, Emplace;
    var n := EmplaceAt(less, entries, e);
    var a, b := entries[..n], entries[n..];
    assert entries == a + b;
    OfKeyConcat(less, a, b, k);
    OfKeyConcat(less, entries, [e], k);
    OfKeyConcat(less, a, [e], k);
    OfKeyConcat(less, a + [e], b, k);
    if !less(e.0, k) && !less(k, e.0) {
      GreaterBehind(less, entries, e, n, k);
      NoneOfKey(less, b, k);
    } else {
      NoneOfKey(less, [e], k);
    }
  }

  lemma GreaterBehind(less: Order, entries: seq<Entry>, e: Entry, n: nat, k: string)
    requires StrictWeak(less) && Ordered(less, entries) && !less(e.0, k) && n <= |entries|
    requires n < |entries| ==> less(e.0, entries[n].0)
    ensures forall i | n <= i < |entries| :: less(k, entries[i].0)
  {
    forall i | n <= i < |entries| ensures less(k, entries[i].0) {
      assert less(e.0, entries[n].0);
      assert i > n ==> !less(entries[i].0, entries[n].0);
      assert less(e.0, entries[i].0);
    }
  }

  // ------------------------------------------------------------------------------------------
  // A whole list

  // Emplacing entries, in whatever order they come, sorts them stably behind those that are there.
  lemma {:induction false} EmplaceAllSorts(less: Order, before: seq<Entry>, entries: seq<Entry>)
    requires StrictWeak(less) && Ordered(less, before)
    ensures StableSort(less, before + entries, EmplaceAll(less, before, entries))
    decreases |entries|
  {
    hide Emplace, OfKey, StrictWeak, Ordered;
    var to := EmplaceAll(less, before, entries);
    if entries == [] {
      assert before + [] == before;
    } else {
      var e, rest := entries[0], entries[1..];
      var more := Emplace(less, before, e);
      EmplaceOrdered(less, before, e);
      EmplaceAllSorts(less, more, rest);
      assert before + entries == (before + [e]) + rest;
      EmplaceAdds(less, before, e);
      assert multiset(more + rest) == multiset(before + [e] + rest);
      forall k ensures OfKey(less, to, k) == OfKey(less, before + entries, k) {
        EmplaceBehindEquals(less, before, e, k);
        OfKeyConcat(less, more, rest, k);
        OfKeyConcat(less, before + [e], rest, k);
      }
    }
  }

  lemma {:induction false} OfKeyHolds(less: Order, entries: seq<Entry>, x: Entry)
    requires StrictWeak(less) && x in entries
    ensures x in OfKey(less, entries, x.0)
  {
    assert !less(x.0, x.0);
    if entries[0] != x { OfKeyHolds(less, entries[1..], x); }
  }

  lemma {:induction false} OfKeyIsFrom(less: Order, entries: seq<Entry>, k: string)
    ensures forall x | x in OfKey(less, entries, k) :: x in entries && !less(x.0, k) && !less(k, x.0)
  {
    if entries != [] { OfKeyIsFrom(less, entries[1..], k); }
  }

  // Ordered lists that agree key by key are equal.
  lemma {:induction false} SortIsUnique(less: Order, a: seq<Entry>, b: seq<Entry>)
    requires StrictWeak(less) && Ordered(less, a) && Ordered(less, b)
    requires forall k :: OfKey(less, a, k) == OfKey(less, b, k)
    ensures a == b
    decreases |a|
  {
    if a == [] {
      if b != [] { OfKeyHolds(less, b, b[0]); }
    } else {
      SameFirst(less, a, b);
      SameFirst(less, b, a);
      var k := a[0].0;
      assert !less(k, b[0].0) && !less(b[0].0, k);
      assert OfKey(less, a, k)[0] == a[0] && OfKey(less, b, k)[0] == b[0];
      forall k ensures OfKey(less, a[1..], k) == OfKey(less, b[1..], k) {
        assert OfKey(less, a, k) == OfKey(less, b, k);
        var front := if less(a[0].0, k) || less(k, a[0].0) then [] else [a[0]];
        assert (front + OfKey(less, a[1..], k))[|front|..] == OfKey(less, a[1..], k);
        assert (front + OfKey(less, b[1..], k))[|front|..] == OfKey(less, b[1..], k);
      }
      SortIsUnique(less, a[1..], b[1..]);
      assert a == [a[0]] + a[1..] && b == [b[0]] + b[1..];
    }
  }

  lemma SameFirst(less: Order, a: seq<Entry>, b: seq<Entry>)
    requires StrictWeak(less) && Ordered(less, b) && a != []
    requires OfKey(less, a, a[0].0) == OfKey(less, b, a[0].0)
    ensures b != [] && !less(a[0].0, b[0].0)
  {
    var k := a[0].0;
    OfKeyHolds(less, a, a[0]);
    OfKeyIsFrom(less, b, k);
    var i :| 0 <= i < |b| && b[i] == a[0];
    assert i > 0 ==> !less(b[i].0, b[0].0);
  }

  // A list that is in order already stays as it is.
  lemma EmplaceInOrder(less: Order, entries: seq<Entry>)
    requires StrictWeak(less) && Ordered(less, entries)
    ensures EmplaceAll(less, [], entries) == entries
  {
    hide OfKey, StrictWeak, Emplace;
    EmplaceAllSorts(less, [], entries);
    assert [] + entries == entries;
    SortIsUnique(less, EmplaceAll(less, [], entries), entries);
  }
}
