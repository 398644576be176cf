/**
 * Stable sorting by a string key, as Python's `list.sort(key=...)` does it: the result is a
 * permutation of the input, ordered by key under Python's string `<=`, and elements with equal
 * keys keep their original relative order.
 */
module Sorting {
  import opened Seqs
  import opened Text

  /** Every earlier element's key is `<=` every later element's key. */
  ghost predicate SortedBy<T>(s: seq<T>, key: T -> string)
  {
    forall i, j :: 0 <= i < j < |s| ==> LexLe(key(s[i]), key(s[j]))
  }

  /** The selector for the elements whose key is exactly `k`. */
  function HasKey<T>(key: T -> string, k: string): T -> bool
  {
    x => key(x) == k
  }

  /** Places `x` in front of the first element whose key is not below its own. */
  function Insert<T>(x: T, t: seq<T>, key: T -> string): (r: seq<T>)
    ensures |r| == |t| + 1
  {
    if t == [] || LexLe(key(x), key(t[0])) then [x] + t
    else [t[0]] + Insert(x, t[1..], key)
  }

  /** Inserting adds exactly one occurrence of `x`. */
  lemma {:induction false} InsertPermutes<T>(x: T, t: seq<T>, key: T -> string)
    ensures multiset(Insert(x, t, key)) == multiset(t) + multiset{x}
  {
    if t != [] && !LexLe(key(x), key(t[0])) {
      InsertPermutes(x, t[1..], key);
      assert t == [t[0]] + t[1..];
    }
  }

  /** Insertion sort; `SortByStable` adds that it keeps ties in input order. */
  function SortBy<T>(s: seq<T>, key: T -> string): (r: seq<T>)
    ensures |r| == |s|
    ensures multiset(r) == multiset(s)
    ensures SortedBy(r, key)
  {
    if s == [] then []
    else
      var t := SortBy(s[1..], key);
      InsertSorted(s[0], t, key);
      InsertPermutes(s[0], t, key);
      assert s == [s[0]] + s[1..];
      Insert(s[0], t, key)
  }

  /**
   * The sort is stable: for every key value, the elements carrying it appear in the result
   * in the order they had in the input. With the permutation and ordering clauses of `SortBy`
   * this is the whole contract of Python's `list.sort`.
   */
  lemma {:induction false} SortByStable<T>(s: seq<T>, key: T -> string, k: string)
    ensures Filter(SortBy(s, key), HasKey(key, k)) == Filter(s, HasKey(key, k))
  {
    if s != [] {
      SortByStable(s[1..], key, k);
      InsertTie(s[0], SortBy(s[1..], key), key, k);
      assert s == [s[0]] + s[1..];
      FilterCons(s[0], s[1..], HasKey(key, k));
    }
  }

  /** Inserting into a sorted sequence keeps it sorted. */
  lemma {:induction false} InsertSorted<T>(x: T, t: seq<T>, key: T -> string)
    requires SortedBy(t, key)
    ensures SortedBy(Insert(x, t, key), key)
  {
    var r := Insert(x, t, key);
    if t == [] || LexLe(key(x), key(t[0])) {
      forall j | 1 <= j < |r| ensures LexLe(key(x), key(r[j])) {
        if j > 1 {
          LexLeTransitive(key(x), key(t[0]), key(t[j - 1]));
        }
      }
    } else {
      var t' := t[1..];
      var r' := Insert(x, t', key);
      InsertSorted(x, t', key);
      InsertPermutes(x, t', key);
      LexLeTotal(key(x), key(t[0]));
      forall j | 0 <= j < |r'| ensures LexLe(key(t[0]), key(r'[j])) {
        assert r'[j] in multiset(r');
        if r'[j] != x {
          assert r'[j] in multiset(t');
          var m :| 0 <= m < |t'| && t'[m] == r'[j];
          assert t[m + 1] == r'[j];
        }
      }
      assert r == [t[0]] + r';
    }
  }

  /** Inserting `x` adds it in front of the elements sharing its key and disturbs nothing else. */
  lemma {:induction false} InsertTie<T>(x: T, t: seq<T>, key: T -> string, k: string)
    ensures Filter(Insert(x, t, key), HasKey(key, k))
         == (if key(x) == k then [x] else []) + Filter(t, HasKey(key, k))
  {
    var p := HasKey(key, k);
    if t == [] || LexLe(key(x), key(t[0])) {
      FilterCons(x, t, p);
    } else {
      var t' := t[1..];
      LexLeReflexive(key(x));
      assert key(t[0]) != key(x);
      InsertTie(x, t', key, k);
      FilterCons(t[0], Insert(x, t', key), p);
      assert t == [t[0]] + t';
      FilterCons(t[0], t', p);
    }
  }

  lemma SortedTail<T>(t: seq<T>, key: T -> string)
    requires t != [] && SortedBy(t, key)
    ensures SortedBy(t[1..], key)
  {
    var t' := t[1..];
    forall i, j | 0 <= i < j < |t'| ensures LexLe(key(t'[i]), key(t'[j])) {
      assert t'[i] == t[i + 1] && t'[j] == t[j + 1];
    }
  }

  /** Filtering a sorted sequence and then inserting `x` agrees with inserting and then filtering. */
  lemma {:induction false} FilterInsert<T>(x: T, t: seq<T>, p: T -> bool, key: T -> string)
    requires SortedBy(t, key)
    ensures Filter(Insert(x, t, key), p)
         == if p(x) then Insert(x, Filter(t, p), key) else Filter(t, p)
  {
    if t == [] || LexLe(key(x), key(t[0])) {
      FilterInsertFront(x, t, p, key);
    } else {
      var t' := t[1..];
      SortedTail(t, key);
      FilterInsert(x, t', p, key);
      FilterInsertBehind(x, t, p, key);
    }
  }

  /** The case of `FilterInsert` where `x` lands in front of `t`. */
  lemma FilterInsertFront<T>(x: T, t: seq<T>, p: T -> bool, key: T -> string)
    requires SortedBy(t, key)
    requires t == [] || LexLe(key(x), key(t[0]))
    ensures Filter(Insert(x, t, key), p)
         == if p(x) then Insert(x, Filter(t, p), key) else Filter(t, p)
  {
    var f := Filter(t, p);
    assert Insert(x, t, key) == [x] + t;
    FilterCons(x, t, p);
    if p(x) && f != [] {
      var m := FilterSource(t, p, 0);
      if m > 0 {
        LexLeTransitive(key(x), key(t[0]), key(t[m]));
      }
      assert Insert(x, f, key) == [x] + f;
    }
  }

  /** The case of `FilterInsert` where `x` goes behind the head of `t`, given the tail's case. */
  lemma FilterInsertBehind<T>(x: T, t: seq<T>, p: T -> bool, key: T -> string)
    requires t != [] && !LexLe(key(x), key(t[0]))
    requires Filter(Insert(x, t[1..], key), p)
          == if p(x) then Insert(x, Filter(t[1..], p), key) else Filter(t[1..], p)
    ensures Filter(Insert(x, t, key), p)
         == if p(x) then Insert(x, Filter(t, p), key) else Filter(t, p)
  {
    var t' := t[1..];
    var f' := Filter(t', p);
    var i' := Insert(x, t', key);
    assert Insert(x, t, key) == [t[0]] + i';
    FilterCons(t[0], i', p);
    assert Filter(Insert(x, t, key), p) == (if p(t[0]) then [t[0]] else []) + Filter(i', p);
    assert t == [t[0]] + t';
    FilterCons(t[0], t', p);
    assert Filter(t, p) == (if p(t[0]) then [t[0]] else []) + f';
    if !p(x) {
      assert Filter(i', p) == f';
    } else if p(t[0]) {
      assert Filter(i', p) == Insert(x, f', key);
      assert Filter(t, p) == [t[0]] + f';
      InsertBehindHead(x, t[0], f', key);
    } else {
      assert Filter(i', p) == Insert(x, f', key);
      assert Filter(t, p) == f';
    }
  }

  lemma InsertBehindHead<T>(x: T, y: T, f: seq<T>, key: T -> string)
    requires !LexLe(key(x), key(y))
    ensures Insert(x, [y] + f, key) == [y] + Insert(x, f, key)
  {
    assert ([y] + f)[0] == y;
    assert ([y] + f)[1..] == f;
  }

  /**
   * Sorting and then keeping the elements that satisfy `p` gives the same sequence as keeping
   * them first and sorting afterwards.
   */
  lemma {:induction false} SortThenFilter<T>(s: seq<T>, p: T -> bool, key: T -> string)
    ensures Filter(SortBy(s, key), p) == SortBy(Filter(s, p), key)
  {
    if s != [] {
      var s' := s[1..];
      var t := SortBy(s', key);
      var f' := Filter(s', p);
      SortThenFilter(s', p, key);
      assert Filter(t, p) == SortBy(f', key);
      assert SortBy(s, key) == Insert(s[0], t, key);
      FilterInsert(s[0], t, p, key);
      assert s == [s[0]] + s';
      FilterCons(s[0], s', p);
      if p(s[0]) {
        var f := Filter(s, p);
        assert f == [s[0]] + f';
        assert f[0] == s[0] && f[1..] == f';
        assert SortBy(f, key) == Insert(s[0], SortBy(f', key), key);
      } else {
        assert Filter(s, p) == f';
      }
    }
  }

  /** Inserting an element whose `f` value is new keeps the `f` values distinct. */
  lemma {:induction false} InsertDistinct<T, K>(x: T, t: seq<T>, key: T -> string, f: T -> K)
    requires DistinctBy(t, f)
    requires forall i :: 0 <= i < |t| ==> f(t[i]) != f(x)
    ensures DistinctBy(Insert(x, t, key), f)
  {
    if t != [] && !LexLe(key(x), key(t[0])) {
      var t' := t[1..];
      var r' := Insert(x, t', key);
      assert DistinctBy(t', f) by {
        forall i, j | 0 <= i < j < |t'| ensures f(t'[i]) != f(t'[j]) {
          assert t'[i] == t[i + 1] && t'[j] == t[j + 1];
        }
      }
      InsertDistinct(x, t', key, f);
      InsertPermutes(x, t', key);
      forall j | 0 <= j < |r'| ensures f(t[0]) != f(r'[j]) {
        assert r'[j] in multiset(r');
        if r'[j] != x {
          assert r'[j] in multiset(t');
          var m :| 0 <= m < |t'| && t'[m] == r'[j];
          assert t[m + 1] == r'[j];
        }
      }
      assert Insert(x, t, key) == [t[0]] + r';
    }
  }

  /** Sorting cannot introduce a repeated `f` value. */
  lemma {:induction false} SortDistinct<T, K>(s: seq<T>, key: T -> string, f: T -> K)
    requires DistinctBy(s, f)
    ensures DistinctBy(SortBy(s, key), f)
  {
    if s != [] {
      var s' := s[1..];
      assert DistinctBy(s', f) by {
        forall i, j | 0 <= i < j < |s'| ensures f(s'[i]) != f(s'[j]) {
          assert s'[i] == s[i + 1] && s'[j] == s[j + 1];
        }
      }
      SortDistinct(s', key, f);
      var t := SortBy(s', key);
      forall i | 0 <= i < |t| ensures f(t[i]) != f(s[0]) {
        assert t[i] in multiset(s');
        var m :| 0 <= m < |s'| && s'[m] == t[i];
        assert s[m + 1] == t[i];
      }
      InsertDistinct(s[0], t, key, f);
    }
  }

  /**
   * Everything a stable sort followed by a filter promises: membership, order, ties in input
   * order, and agreement with filtering first.
   */
  lemma SortedSection<T>(s: seq<T>, p: T -> bool, key: T -> string)
    ensures Filter(SortBy(s, key), p) == SortBy(Filter(s, p), key)
    ensures forall x :: x in Filter(SortBy(s, key), p) <==> x in s && p(x)
    ensures SortedBy(Filter(SortBy(s, key), p), key)
    ensures forall k :: Filter(Filter(SortBy(s, key), p), HasKey(key, k))
                     == Filter(Filter(s, p), HasKey(key, k))
  {
    SortThenFilter(s, p, key);
    var f := Filter(s, p);
    forall x ensures x in SortBy(f, key) <==> x in s && p(x) {
      FilterMember(s, p, x);
      assert x in SortBy(f, key) <==> x in multiset(SortBy(f, key));
    }
    forall k ensures Filter(SortBy(f, key), HasKey(key, k)) == Filter(f, HasKey(key, k)) {
      SortByStable(f, key, k);
    }
  }
}
