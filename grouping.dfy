/** The two-level catalogue both generations build from a blob listing:
    first key -> second key -> entries in arrival order. `Group` is the
    declarative reference (each bucket is the ordered selection of the items
    filed under its two keys); `GroupSnoc` shows that the
    `setdefault(...).setdefault(...).append(...)` step the source performs per
    item keeps a catalogue equal to `Group` of the items seen so far. */
module Grouping {

  type Catalog<E> = map<string, map<string, seq<E>>>

  /** An item to be filed under `first` then `second`. */
  datatype Keyed<E> = Keyed(first: string, second: string, entry: E)

  /** The entries filed under (a, b), in arrival order. */
  function Bucket<E>(items: seq<Keyed<E>>, a: string, b: string): seq<E>
    decreases |items|
  {
    if items == [] then []
    else
      var k := items[|items| - 1];
      Bucket(items[..|items| - 1], a, b) + (if k.first == a && k.second == b then [k.entry] else [])
  }

  function Firsts<E>(items: seq<Keyed<E>>): set<string> {
    set i | 0 <= i < |items| :: items[i].first
  }

  function SecondsUnder<E>(items: seq<Keyed<E>>, a: string): set<string> {
    set i | 0 <= i < |items| && items[i].first == a :: items[i].second
  }

  function Group<E>(items: seq<Keyed<E>>): Catalog<E> {
    map a | a in Firsts(items) :: map b | b in SecondsUnder(items, a) :: Bucket(items, a, b)
  }

  /** `catalog.setdefault(first, {}).setdefault(second, []).append(entry)`. */
  function FileUnder<E>(c: Catalog<E>, k: Keyed<E>): Catalog<E> {
    var inner := if k.first in c then c[k.first] else map[];
    var bucket := if k.second in inner then inner[k.second] else [];
    c[k.first := inner[k.second := bucket + [k.entry]]]
  }

  lemma FirstsSnoc<E>(items: seq<Keyed<E>>, k: Keyed<E>)
    ensures Firsts(items + [k]) == Firsts(items) + {k.first}
  {
    var all := items + [k];
    forall a | a in Firsts(all) ensures a in Firsts(items) + {k.first} {
      var i :| 0 <= i < |all| && all[i].first == a;
      if i < |items| { assert items[i] == all[i]; }
    }
    forall a | a in Firsts(items) ensures a in Firsts(all) {
      var i :| 0 <= i < |items| && items[i].first == a;
      assert all[i] == items[i];
    }
    assert all[|items|] == k;
  }

  lemma SecondsSnoc<E>(items: seq<Keyed<E>>, k: Keyed<E>, a: string)
    ensures SecondsUnder(items + [k], a) == SecondsUnder(items, a) + (if a == k.first then {k.second} else {})
  {
    var all := items + [k];
    forall b | b in SecondsUnder(all, a) ensures b in SecondsUnder(items, a) + (if a == k.first then {k.second} else {}) {
      var i :| 0 <= i < |all| && all[i].first == a && all[i].second == b;
      if i < |items| { assert items[i] == all[i]; }
    }
    forall b | b in SecondsUnder(items, a) ensures b in SecondsUnder(all, a) {
      var i :| 0 <= i < |items| && items[i].first == a && items[i].second == b;
      assert all[i] == items[i];
    }
    if a == k.first { assert all[|items|] == k; }
  }

  /** Filing one more item into the grouped catalogue of the earlier items
      gives the grouped catalogue of all of them. */
  lemma GroupSnoc<E>(items: seq<Keyed<E>>, k: Keyed<E>)
    ensures Group(items + [k]) == FileUnder(Group(items), k)
  {
    var all := items + [k];
    assert all[..|all| - 1] == items;
    FirstsSnoc(items, k);
    var g := Group(items);
    var g' := Group(all);
    var f := FileUnder(g, k);
    assert g'.Keys == f.Keys;
    forall a | a in g' ensures g'[a] == f[a] {
      SecondsSnoc(items, k, a);
      if a == k.first {
        GroupSnocInner(items, k);
      } else {
        assert a in g;
        forall b | b in g'[a] ensures g'[a][b] == g[a][b] {
          BucketSnoc(items, k, a, b);
        }
      }
    }
  }

  lemma GroupSnocInner<E>(items: seq<Keyed<E>>, k: Keyed<E>)
    ensures k.first in Group(items + [k]) && Group(items + [k])[k.first] == FileUnder(Group(items), k)[k.first]
  {
    var all := items + [k];
    var a := k.first;
    FirstsSnoc(items, k);
    SecondsSnoc(items, k, a);
    var g := Group(items);
    var inner := if a in g then g[a] else map[];
    var lhs := Group(all)[a];
    var rhs := FileUnder(g, k)[a];
    assert inner.Keys == SecondsUnder(items, a);
    assert lhs.Keys == rhs.Keys;
    forall b | b in lhs ensures lhs[b] == rhs[b] {
      BucketSnoc(items, k, a, b);
      if b == k.second && b !in inner {
        BucketOutside(items, a, b);
      }
    }
  }

  lemma BucketSnoc<E>(items: seq<Keyed<E>>, k: Keyed<E>, a: string, b: string)
    ensures Bucket(items + [k], a, b) == Bucket(items, a, b) + (if k.first == a && k.second == b then [k.entry] else [])
  {
    assert (items + [k])[..|items|] == items;
  }

  lemma {:induction false} BucketOutside<E>(items: seq<Keyed<E>>, a: string, b: string)
    requires b !in SecondsUnder(items, a)
    ensures Bucket(items, a, b) == []
    decreases |items|
  {
    if items != [] {
      var init := items[..|items| - 1];
      assert b !in SecondsUnder(init, a);
      BucketOutside(init, a, b);
      assert items[|items| - 1].first != a || items[|items| - 1].second != b;
    }
  }

  /** An entry is in a bucket exactly when an item filed it under that
      bucket's keys. */
  lemma {:induction false} BucketMembers<E>(items: seq<Keyed<E>>, a: string, b: string, e: E)
    ensures e in Bucket(items, a, b) <==> Keyed(a, b, e) in items
    decreases |items|
  {
    if items != [] {
      var init := items[..|items| - 1];
      assert items == init + [items[|items| - 1]];
      BucketMembers(init, a, b, e);
    }
  }

  /** Every bucket of `Group` holds at least one entry, and its keys are
      exactly the pairs some item is filed under. */
  lemma GroupBuckets<E>(items: seq<Keyed<E>>, a: string, b: string)
    ensures (a in Group(items) && b in Group(items)[a]) <==>
            exists i :: 0 <= i < |items| && items[i].first == a && items[i].second == b
    ensures a in Group(items) && b in Group(items)[a] ==>
            Group(items)[a][b] == Bucket(items, a, b) && Bucket(items, a, b) != []
  {
    if exists i :: 0 <= i < |items| && items[i].first == a && items[i].second == b {
      var i :| 0 <= i < |items| && items[i].first == a && items[i].second == b;
      assert a in Firsts(items);
      assert b in SecondsUnder(items, a);
      BucketMembers(items, a, b, items[i].entry);
      assert items[i] == Keyed(a, b, items[i].entry);
    }
  }

  /** The sum of the values of a map, in no particular key order. */
  ghost function Total(m: map<string, nat>): nat
    decreases |m.Keys|
  {
    if m == map[] then 0
    else
      var k :| k in m;
      m[k] + Total(m - {k})
  }

  /** The sum does not depend on which key is taken first. */
  lemma {:induction false} TotalRemove(m: map<string, nat>, k: string)
    requires k in m
    ensures Total(m) == m[k] + Total(m - {k})
    decreases |m.Keys|
  {
    var j :| j in m && Total(m) == m[j] + Total(m - {j});
    if j != k {
      assert |(m - {j}).Keys| < |m.Keys| by { assert m.Keys == (m - {j}).Keys + {j}; }
      assert |(m - {k}).Keys| < |m.Keys| by { assert m.Keys == (m - {k}).Keys + {k}; }
      TotalRemove(m - {j}, k);
      TotalRemove(m - {k}, j);
      assert m - {j} - {k} == m - {k} - {j};
    }
  }

  lemma TotalUpdate(m: map<string, nat>, k: string, v: nat)
    ensures Total(m[k := v]) == Total(m) - (if k in m then m[k] else 0) + v
  {
    TotalRemove(m[k := v], k);
    if k in m {
      TotalRemove(m, k);
      assert m[k := v] - {k} == m - {k};
    } else {
      assert m[k := v] - {k} == m;
    }
  }

  /** The number of entries filed in one first-level bucket. */
  ghost function InnerCount<E>(inner: map<string, seq<E>>): nat {
    Total(map b | b in inner :: |inner[b]|)
  }

  /** The number of entries filed in the whole catalogue. */
  ghost function EntryCount<E>(c: Catalog<E>): nat {
    Total(map a | a in c :: InnerCount(c[a]))
  }

  /** Appending one entry to a bucket, new or old, adds one entry. */
  lemma AppendCount<E>(inner: map<string, seq<E>>, b: string, e: E)
    ensures var bucket := if b in inner then inner[b] else [];
            InnerCount(inner[b := bucket + [e]]) == InnerCount(inner) + 1
  {
    var bucket := if b in inner then inner[b] else [];
    var inner' := inner[b := bucket + [e]];
    var sizes := map x | x in inner :: |inner[x]|;
    TotalUpdate(sizes, b, |bucket| + 1);
    assert (map x | x in inner' :: |inner'[x]|) == sizes[b := |bucket| + 1];
  }

  lemma EmptyInnerCount<E>()
    ensures InnerCount<E>(map[]) == 0
  {
    var empty: map<string, seq<E>> := map[];
    assert (map x | x in empty :: |empty[x]|) == map[];
  }

  /** Replacing one first-level bucket changes the count by the difference. */
  lemma CatalogUpdateCount<E>(c: Catalog<E>, a: string, inner': map<string, seq<E>>)
    ensures EntryCount(c[a := inner']) == EntryCount(c) - (if a in c then InnerCount(c[a]) else 0) + InnerCount(inner')
  {
    var counts := map x | x in c :: InnerCount(c[x]);
    TotalUpdate(counts, a, InnerCount(inner'));
    var c' := c[a := inner'];
    assert (map x | x in c' :: InnerCount(c'[x])) == counts[a := InnerCount(inner')];
  }

  /** Filing one item adds exactly one entry. */
  lemma FileUnderCount<E>(c: Catalog<E>, k: Keyed<E>)
    ensures EntryCount(FileUnder(c, k)) == EntryCount(c) + 1
  {
    var inner := if k.first in c then c[k.first] else map[];
    var bucket := if k.second in inner then inner[k.second] else [];
    var inner' := inner[k.second := bucket + [k.entry]];
    AppendCount(inner, k.second, k.entry);
    if k.first !in c {
      EmptyInnerCount<E>();
    }
    assert FileUnder(c, k) == c[k.first := inner'];
    CatalogUpdateCount(c, k.first, inner');
  }

  /** Each item is filed exactly once: the grouped catalogue holds as many
      entries as there were items. */
  lemma {:induction false} GroupCount<E>(items: seq<Keyed<E>>)
    ensures EntryCount(Group(items)) == |items|
    decreases |items|
  {
    if items == [] {
      assert Group(items) == map[];
    } else {
      var front := items[..|items| - 1];
      var k := items[|items| - 1];
      assert front + [k] == items;
      GroupCount(front);
      GroupSnoc(front, k);
      FileUnderCount(Group(front), k);
    }
  }
}
