/** Python's ordering of strings and integers, and the `sorted(...)` calls the
    core makes: a stable sort of records by a string key, `sorted(set(ints))`
    and `sorted(d.keys())`. */
module Ordering {

  /** Python's `a <= b` on strings: lexicographic by code point. */
  predicate StrLe(a: string, b: string)
    decreases |a|
  {
    a == [] || (b != [] && (a[0] < b[0] || (a[0] == b[0] && StrLe(a[1..], b[1..]))))
  }

  lemma {:induction false} StrLeRefl(a: string)
    ensures StrLe(a, a)
    decreases |a|
  {
    if a != [] { StrLeRefl(a[1..]); }
  }

  lemma {:induction false} StrLeTotal(a: string, b: string)
    ensures StrLe(a, b) || StrLe(b, a)
    decreases |a|
  {
    if a != [] && b != [] && a[0] == b[0] {
      StrLeTotal(a[1..], b[1..]);
    }
  }

  lemma {:induction false} StrLeTrans(a: string, b: string, c: string)
    requires StrLe(a, b) && StrLe(b, c)
    ensures StrLe(a, c)
    decreases |a|
  {
    if a != [] && b != [] && c != [] && a[0] == b[0] == c[0] {
      StrLeTrans(a[1..], b[1..], c[1..]);
    }
  }

  lemma {:induction false} StrLeAntisym(a: string, b: string)
    requires StrLe(a, b) && StrLe(b, a)
    ensures a == b
    decreases |a|
  {
    if a != [] {
      StrLeAntisym(a[1..], b[1..]);
      assert a == [a[0]] + a[1..] && b == [b[0]] + b[1..];
    }
  }

  // ---------------------------------------------------------------------------
  // sorted(xs, key=...) over a string key

  predicate SortedBy<E>(s: seq<E>, key: E -> string) {
    forall i, j :: 0 <= i < j < |s| ==> StrLe(key(s[i]), key(s[j]))
  }

  /** Places `x` after every element whose key is not greater than its own,
      which keeps equal keys in arrival order. */
  function InsertBy<E>(s: seq<E>, x: E, key: E -> string): (r: seq<E>)
    requires SortedBy(s, key)
    ensures SortedBy(r, key)
    ensures multiset(r) == multiset(s) + multiset{x}
    decreases |s|
  {
    if s == [] then [x]
    else
      var last := s[|s| - 1];
      if StrLe(key(last), key(x)) then
        assert SortedBy(s + [x], key) by {
          forall i | 0 <= i < |s| ensures StrLe(key(s[i]), key(x)) {
            if i < |s| - 1 { StrLeTrans(key(s[i]), key(last), key(x)); }
          }
        }
        s + [x]
      else
        var init := s[..|s| - 1];
        assert s == init + [last];
        var r := InsertBy(init, x, key) + [last];
        assert SortedBy(r, key) by {
          StrLeTotal(key(last), key(x));
          forall i | 0 <= i < |r| - 1 ensures StrLe(key(r[i]), key(last)) {
            assert r[i] in multiset(init) + multiset{x};
            assert r[i] == x || r[i] in init;
          }
          forall i, j | 0 <= i < j < |r| ensures StrLe(key(r[i]), key(r[j])) {
          }
        }
        r
  }

  /** A stable sort by `key`, like Python's `sorted(s, key=key)`. */
  function SortBy<E>(s: seq<E>, key: E -> string): (r: seq<E>)
    ensures SortedBy(r, key)
    ensures multiset(r) == multiset(s)
    decreases |s|
  {
    if s == [] then []
    else
      assert s == s[..|s| - 1] + [s[|s| - 1]];
      InsertBy(SortBy(s[..|s| - 1], key), s[|s| - 1], key)
  }

  // ---------------------------------------------------------------------------
  // sorted(set(xs)) over integers

  predicate StrictlyIncreasing(s: seq<int>) {
    forall i, j :: 0 <= i < j < |s| ==> s[i] < s[j]
  }

  function InsertDistinct(s: seq<int>, x: int): (r: seq<int>)
    requires StrictlyIncreasing(s)
    ensures StrictlyIncreasing(r)
    ensures forall v :: v in r <==> v in s || v == x
    decreases |s|
  {
    if s == [] then [x]
    else if x < s[0] then [x] + s
    else if x == s[0] then s
    else
      var rest := InsertDistinct(s[1..], x);
      assert forall v :: v in s <==> v == s[0] || v in s[1..];
      assert forall j :: 0 <= j < |rest| ==> s[0] < rest[j] by {
        forall j | 0 <= j < |rest| ensures s[0] < rest[j] {
          assert rest[j] in rest;
          if rest[j] != x {
            var m :| 1 <= m < |s| && s[m] == rest[j];
          }
        }
      }
      [s[0]] + rest
  }

  /** Python `sorted(set(xs))`: the distinct values in increasing order. */
  function SortedDistinct(xs: seq<int>): (r: seq<int>)
    ensures StrictlyIncreasing(r)
    ensures forall v :: v in r <==> v in xs
    decreases |xs|
  {
    if xs == [] then []
    else
      var init := xs[..|xs| - 1];
      assert forall v :: v in xs <==> v in init || v == xs[|xs| - 1] by {
        assert xs == init + [xs[|xs| - 1]];
      }
      InsertDistinct(SortedDistinct(init), xs[|xs| - 1])
  }

  // ---------------------------------------------------------------------------
  // sorted(d.keys()) over strings

  predicate StrictlySorted(s: seq<string>) {
    forall i, j :: 0 <= i < j < |s| ==> StrLe(s[i], s[j]) && s[i] != s[j]
  }

  predicate IsLeast(m: string, s: set<string>) {
    m in s && forall x :: x in s ==> StrLe(m, x)
  }

  lemma {:induction false} LeastExists(s: set<string>)
    requires s != {}
    ensures exists m :: IsLeast(m, s)
    decreases s
  {
    var x :| x in s;
    if s - {x} == {} {
      assert s == {x};
      StrLeRefl(x);
      assert IsLeast(x, s);
    } else {
      LeastExists(s - {x});
      var m :| IsLeast(m, s - {x});
      StrLeTotal(m, x);
      if StrLe(m, x) {
        assert IsLeast(m, s);
      } else {
        forall y | y in s ensures StrLe(x, y) {
          if y != x { StrLeTrans(x, m, y); } else { StrLeRefl(x); }
        }
        assert IsLeast(x, s);
      }
    }
  }

  lemma LeastUnique(s: set<string>)
    ensures forall a, b :: IsLeast(a, s) && IsLeast(b, s) ==> a == b
  {
    forall a, b | IsLeast(a, s) && IsLeast(b, s) ensures a == b {
      StrLeAntisym(a, b);
    }
  }

  /** Python `sorted(keys)` for a set of strings. */
  function SortedKeys(s: set<string>): (r: seq<string>)
    ensures StrictlySorted(r)
    ensures forall k :: k in r <==> k in s
    ensures |r| == |s|
    decreases s
  {
    if s == {} then []
    else
      LeastExists(s);
      LeastUnique(s);
      var m :| IsLeast(m, s);
      var rest := SortedKeys(s - {m});
      assert forall k :: k in rest ==> StrLe(m, k) && m != k;
      [m] + rest
  }
}
