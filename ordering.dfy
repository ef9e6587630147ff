/**
 * `Array.prototype.sort` with a comparator `(a, b) => key(b) - key(a)`: the
 * sort is stable (as ECMAScript 2019 requires), so it orders by descending
 * key and keeps elements with equal keys in their input order. Modelled as an
 * insertion sort that places each element after every element whose key is
 * at least its own.
 */
module Ordering {

  predicate SortedDesc<T>(s: seq<T>, key: T -> int) {
    forall i, j :: 0 <= i < j < |s| ==> key(s[i]) >= key(s[j])
  }

  /** The elements of `s` whose key is `c`, in order. */
  function WithKey<T>(s: seq<T>, key: T -> int, c: int): (r: seq<T>)
    ensures |r| <= |s|
  {
    if s == [] then []
    else if key(s[0]) == c then [s[0]] + WithKey(s[1..], key, c)
    else WithKey(s[1..], key, c)
  }

  /** No two elements share the same `f` image. */
  ghost predicate UniqueBy<T, U>(s: seq<T>, f: T -> U) {
    forall i, j :: 0 <= i < j < |s| ==> f(s[i]) != f(s[j])
  }

  function Insert<T>(e: T, t: seq<T>, key: T -> int): (r: seq<T>)
    ensures |r| == |t| + 1
    ensures multiset(r) == multiset(t) + multiset{e}
  {
    if t == [] then [e]
    else if key(t[0]) >= key(e) then
      var rest := Insert(e, t[1..], key);
      assert t == [t[0]] + t[1..];
      [t[0]] + rest
    else [e] + t
  }

  function Sort<T>(s: seq<T>, key: T -> int): (r: seq<T>)
    ensures |r| == |s|
    ensures multiset(r) == multiset(s)
  {
    if s == [] then []
    else
      var r := Insert(s[|s| - 1], Sort(s[..|s| - 1], key), key);
      assert s == s[..|s| - 1] + [s[|s| - 1]];
      r
  }

  lemma {:induction false} InsertSorted<T>(e: T, t: seq<T>, key: T -> int)
    requires SortedDesc(t, key)
    ensures SortedDesc(Insert(e, t, key), key)
  {
    if t != [] && key(t[0]) >= key(e) {
      var rest := Insert(e, t[1..], key);
      InsertSorted(e, t[1..], key);
      forall j | 0 <= j < |rest| ensures key(t[0]) >= key(rest[j]) {
        assert rest[j] in multiset(rest);
        if rest[j] != e {
          assert rest[j] in multiset(t[1..]);
          var m :| 0 <= m < |t[1..]| && t[1..][m] == rest[j];
          assert t[1..][m] == t[m + 1];
        }
      }
    }
  }

  /** The sort orders by non-increasing key. */
  lemma {:induction false} SortSorted<T>(s: seq<T>, key: T -> int)
    ensures SortedDesc(Sort(s, key), key)
  {
    if s != [] {
      SortSorted(s[..|s| - 1], key);
      InsertSorted(s[|s| - 1], Sort(s[..|s| - 1], key), key);
    }
  }

  lemma {:induction false} WithKeyAppend<T>(a: seq<T>, b: seq<T>, key: T -> int, c: int)
    ensures WithKey(a + b, key, c) == WithKey(a, key, c) + WithKey(b, key, c)
  {
    if a == [] {
      assert a + b == b;
    } else {
      assert (a + b)[0] == a[0] && (a + b)[1..] == a[1..] + b;
      WithKeyAppend(a[1..], b, key, c);
      if key(a[0]) == c {
        calc {
          WithKey(a + b, key, c);
          [a[0]] + WithKey(a[1..] + b, key, c);
          [a[0]] + (WithKey(a[1..], key, c) + WithKey(b, key, c));
        }
      }
    }
  }

  ghost predicate IsPrefix<T>(a: seq<T>, b: seq<T>) {
    |a| <= |b| && b[..|a|] == a
  }

  /** The elements of a prefix with key `c` come first among those of the whole list. */
  lemma WithKeyPrefix<T>(a: seq<T>, b: seq<T>, key: T -> int, c: int)
    ensures IsPrefix(WithKey(a, key, c), WithKey(a + b, key, c))
  {
    WithKeyAppend(a, b, key, c);
    var x := WithKey(a, key, c);
    assert (x + WithKey(b, key, c))[..|x|] == x;
  }

  lemma WithKeySingle<T>(x: T, key: T -> int, c: int)
    ensures WithKey([x], key, c) == (if key(x) == c then [x] else [])
  {
    assert [x][1..] == [];
  }

  /** In a sorted list every element with key `c` lies before the new element. */
  lemma {:induction false} InsertWithKey<T>(e: T, t: seq<T>, key: T -> int, c: int)
    requires SortedDesc(t, key)
    ensures WithKey(Insert(e, t, key), key, c) == WithKey(t, key, c) + (if key(e) == c then [e] else [])
  {
    if t == [] {
    } else if key(t[0]) >= key(e) {
      InsertWithKey(e, t[1..], key, c);
      var rest := Insert(e, t[1..], key);
      assert ([t[0]] + rest)[1..] == rest;
    } else {
      NoneWithKey(t, key, key(e));
      assert ([e] + t)[1..] == t;
    }
  }

  /** When the first key is below `c`, nothing in a sorted list has key `c`. */
  lemma {:induction false} NoneWithKey<T>(t: seq<T>, key: T -> int, c: int)
    requires SortedDesc(t, key) && t != [] && key(t[0]) < c
    ensures WithKey(t, key, c) == []
  {
    if |t| > 1 {
      assert key(t[1]) <= key(t[0]);
      NoneWithKey(t[1..], key, c);
    }
  }

  /** Stability: the elements with any one key keep their input order. */
  lemma {:induction false} SortStable<T>(s: seq<T>, key: T -> int, c: int)
    ensures WithKey(Sort(s, key), key, c) == WithKey(s, key, c)
  {
    if s != [] {
      var p := s[..|s| - 1];
      var x := s[|s| - 1];
      var single := if key(x) == c then [x] else [];
      SortSorted(p, key);
      calc {
        WithKey(Sort(s, key), key, c);
        WithKey(Insert(x, Sort(p, key), key), key, c);
        { InsertWithKey(x, Sort(p, key), key, c); }
        WithKey(Sort(p, key), key, c) + single;
        { SortStable(p, key, c); WithKeySingle(x, key, c); }
        WithKey(p, key, c) + WithKey([x], key, c);
        { WithKeyAppend(p, [x], key, c); }
        WithKey(p + [x], key, c);
        { assert p + [x] == s; }
        WithKey(s, key, c);
      }
    }
  }

  /** The first `n` sorted elements with key `c` are the first elements with key `c` of the input. */
  lemma SortPrefixStable<T>(s: seq<T>, key: T -> int, n: nat, c: int)
    requires n <= |s|
    ensures IsPrefix(WithKey(Sort(s, key)[..n], key, c), WithKey(s, key, c))
  {
    var r := Sort(s, key);
    assert r == r[..n] + r[n..];
    WithKeyPrefix(r[..n], r[n..], key, c);
    SortStable(s, key, c);
  }

  lemma {:induction false} InsertUnique<T, U>(e: T, t: seq<T>, key: T -> int, f: T -> U)
    requires UniqueBy(t, f)
    requires forall k :: 0 <= k < |t| ==> f(t[k]) != f(e)
    ensures UniqueBy(Insert(e, t, key), f)
  {
    if t != [] && key(t[0]) >= key(e) {
      var rest := Insert(e, t[1..], key);
      InsertUnique(e, t[1..], key, f);
      forall j | 0 <= j < |rest| ensures f(t[0]) != f(rest[j]) {
        assert rest[j] in multiset(rest);
        if rest[j] != e {
          assert rest[j] in multiset(t[1..]);
          var m :| 0 <= m < |t[1..]| && t[1..][m] == rest[j];
          assert t[1..][m] == t[m + 1];
        }
      }
    }
  }

  /** Sorting keeps the images of `f` pairwise distinct. */
  lemma {:induction false} SortUnique<T, U>(s: seq<T>, key: T -> int, f: T -> U)
    requires UniqueBy(s, f)
    ensures UniqueBy(Sort(s, key), f)
  {
    if s != [] {
      var p := s[..|s| - 1];
      var x := s[|s| - 1];
      SortUnique(p, key, f);
      var sp := Sort(p, key);
      forall k | 0 <= k < |sp| ensures f(sp[k]) != f(x) {
        assert sp[k] in multiset(sp);
        var m :| 0 <= m < |p| && p[m] == sp[k];
      }
      InsertUnique(x, sp, key, f);
    }
  }

  /** `s.filter(p)`. */
  function Filter<T>(s: seq<T>, p: T -> bool): (r: seq<T>)
    ensures |r| <= |s|
    ensures forall k :: 0 <= k < |r| ==> p(r[k])
  {
    if s == [] then []
    else if p(s[0]) then [s[0]] + Filter(s[1..], p)
    else Filter(s[1..], p)
  }

  lemma {:induction false} FilterAppend<T>(a: seq<T>, b: seq<T>, p: T -> bool)
    ensures Filter(a + b, p) == Filter(a, p) + Filter(b, p)
  {
    if a == [] {
      assert a + b == b;
    } else {
      assert (a + b)[0] == a[0] && (a + b)[1..] == a[1..] + b;
      FilterAppend(a[1..], b, p);
      if p(a[0]) {
        calc {
          Filter(a + b, p);
          [a[0]] + Filter(a[1..] + b, p);
          [a[0]] + (Filter(a[1..], p) + Filter(b, p));
        }
      }
    }
  }

  /** Filtering by a predicate and by its negation splits the elements between the two. */
  lemma {:induction false} FilterPartition<T>(s: seq<T>, p: T -> bool, q: T -> bool)
    requires forall x :: q(x) == !p(x)
    ensures multiset(Filter(s, p)) + multiset(Filter(s, q)) == multiset(s)
  {
    if s != [] {
      var x := s[0];
      var t := s[1..];
      FilterPartition(t, p, q);
      assert s == [x] + t;
      assert q(x) == !p(x);
      if p(x) {
        assert Filter(s, p) == [x] + Filter(t, p);
        assert Filter(s, q) == Filter(t, q);
      } else {
        assert Filter(s, p) == Filter(t, p);
        assert Filter(s, q) == [x] + Filter(t, q);
      }
    }
  }

  /** The filter keeps exactly the elements that pass. */
  lemma {:induction false} FilterMember<T>(s: seq<T>, p: T -> bool)
    ensures forall x :: x in Filter(s, p) <==> x in s && p(x)
  {
    if s != [] {
      FilterMember(s[1..], p);
      assert s == [s[0]] + s[1..];
    }
  }

  /** Nothing survives a filter that every element fails. */
  lemma {:induction false} FilterNone<T>(s: seq<T>, p: T -> bool)
    requires forall k :: 0 <= k < |s| ==> !p(s[k])
    ensures Filter(s, p) == []
  {
    if s != [] {
      FilterNone(s[1..], p);
    }
  }

  /** Everything survives a filter that every element passes. */
  lemma {:induction false} FilterAll<T>(s: seq<T>, p: T -> bool)
    requires forall k :: 0 <= k < |s| ==> p(s[k])
    ensures Filter(s, p) == s
  {
    if s != [] {
      FilterAll(s[1..], p);
      assert [s[0]] + s[1..] == s;
    }
  }

  /** Where an element of a permutation sits in the other list. */
  lemma PermutationIndex<T>(a: seq<T>, b: seq<T>, k: nat) returns (m: nat)
    requires multiset(a) == multiset(b) && k < |a|
    ensures m < |b| && b[m] == a[k]
  {
    assert a[k] in multiset(a);
    m :| 0 <= m < |b| && b[m] == a[k];
  }
}
