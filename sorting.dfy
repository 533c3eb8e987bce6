/**
 * Python's `list.sort(key=...)` for string keys: a stable sort under the
 * code-point order of `str`, written as an insertion sort.
 */
module Sorting {

  /** Python's `a <= b` on `str`: lexicographic by code point. */
  predicate LexLeq(a: string, b: string)
    decreases |a|
  {
    if a == [] then true
    else if b == [] then false
    else if a[0] < b[0] then true
    else if a[0] > b[0] then false
    else LexLeq(a[1..], b[1..])
  }

  lemma {:induction false} LexLeqTotal(a: string, b: string)
    ensures LexLeq(a, b) || LexLeq(b, a)
    decreases |a|
  {
    if a != [] && b != [] && a[0] == b[0] {
      LexLeqTotal(a[1..], b[1..]);
    }
  }

  lemma {:induction false} LexLeqTrans(a: string, b: string, c: string)
    requires LexLeq(a, b) && LexLeq(b, c)
    ensures LexLeq(a, c)
    decreases |a|
  {
    if a != [] && b != [] && c != [] && a[0] == b[0] == c[0] {
      LexLeqTrans(a[1..], b[1..], c[1..]);
    }
  }

  /** Neighbours are in key order. */
  predicate SortedBy<T>(s: seq<T>, key: T -> string)
  {
    forall i :: 0 <= i < |s| - 1 ==> LexLeq(key(s[i]), key(s[i + 1]))
  }

  /** Places `x` after every element whose key is not greater than its own. */
  function Insert<T>(x: T, s: seq<T>, key: T -> string): (r: seq<T>)
    ensures |r| == |s| + 1
    ensures multiset(r) == multiset(s) + multiset{x}
    ensures r[0] == x || (s != [] && r[0] == s[0])
  {
    if s == [] then [x]
    else if !LexLeq(key(s[0]), key(x)) then [x] + s
    else
      var rest := Insert(x, s[1..], key);
      assert s == [s[0]] + s[1..];
      [s[0]] + rest
  }

  lemma {:induction false} InsertSorted<T>(x: T, s: seq<T>, key: T -> string)
    requires SortedBy(s, key)
    ensures SortedBy(Insert(x, s, key), key)
  {
    if s != [] {
      if !LexLeq(key(s[0]), key(x)) {
        LexLeqTotal(key(s[0]), key(x));
      } else {
        var tail := s[1..];
        assert SortedBy(tail, key) by {
          forall i | 0 <= i < |tail| - 1 ensures LexLeq(key(tail[i]), key(tail[i + 1])) {
            assert tail[i] == s[i + 1] && tail[i + 1] == s[i + 2];
          }
        }
        InsertSorted(x, tail, key);
        var rest := Insert(x, tail, key);
        assert LexLeq(key(s[0]), key(rest[0])) by {
          if rest[0] != x {
            assert rest[0] == s[1];
          }
        }
        var r := [s[0]] + rest;
        forall i | 0 <= i < |r| - 1 ensures LexLeq(key(r[i]), key(r[i + 1])) {
          if i > 0 {
            assert r[i] == rest[i - 1] && r[i + 1] == rest[i];
          }
        }
      }
    }
  }

  /** `sorted(s, key=key)`: the elements of `s` in key order. */
  function SortBy<T>(s: seq<T>, key: T -> string): (r: seq<T>)
    ensures |r| == |s| && multiset(r) == multiset(s)
  {
    if s == [] then []
    else
      assert s == s[..|s| - 1] + [s[|s| - 1]];
      Insert(s[|s| - 1], SortBy(s[..|s| - 1], key), key)
  }

  /** The sorted list is in key order and is a permutation of the input. */
  lemma {:induction false} SortBySorted<T>(s: seq<T>, key: T -> string)
    ensures SortedBy(SortBy(s, key), key)
    ensures multiset(SortBy(s, key)) == multiset(s)
  {
    if s != [] {
      SortBySorted(s[..|s| - 1], key);
      InsertSorted(s[|s| - 1], SortBy(s[..|s| - 1], key), key);
    }
  }

  /** The elements of `s` whose key is `k`, in their order in `s`. */
  function KeyFilter<T>(s: seq<T>, key: T -> string, k: string): (r: seq<T>)
    ensures |r| <= |s|
    ensures forall i :: 0 <= i < |r| ==> key(r[i]) == k
  {
    if s == [] then []
    else (if key(s[0]) == k then [s[0]] else []) + KeyFilter(s[1..], key, k)
  }

  lemma {:induction false} KeyFilterAppend<T>(a: seq<T>, b: seq<T>, key: T -> string, k: string)
    ensures KeyFilter(a + b, key, k) == KeyFilter(a, key, k) + KeyFilter(b, key, k)
  {
    if a != [] {
      assert (a + b)[0] == a[0] && (a + b)[1..] == a[1..] + b;
      KeyFilterAppend(a[1..], b, key, k);
      var head := if key(a[0]) == k then [a[0]] else [];
      assert KeyFilter(a + b, key, k) == head + KeyFilter(a[1..] + b, key, k);
    } else {
      assert a + b == b;
    }
  }

  lemma {:induction false} KeyFilterNone<T>(s: seq<T>, key: T -> string, k: string)
    requires forall i :: 0 <= i < |s| ==> key(s[i]) != k
    ensures KeyFilter(s, key, k) == []
  {
    if s != [] {
      KeyFilterNone(s[1..], key, k);
    }
  }

  lemma SortedTail<T>(s: seq<T>, key: T -> string)
    requires SortedBy(s, key) && s != []
    ensures SortedBy(s[1..], key)
  {
    var tail := s[1..];
    forall i | 0 <= i < |tail| - 1 ensures LexLeq(key(tail[i]), key(tail[i + 1])) {
      assert tail[i] == s[i + 1] && tail[i + 1] == s[i + 2];
    }
  }

  /** An element placed before a sorted list whose first key is greater gets no equal key behind it. */
  lemma InsertKeyFilterFront<T>(x: T, s: seq<T>, key: T -> string, k: string)
    requires SortedBy(s, key) && s != [] && !LexLeq(key(s[0]), key(x))
    ensures KeyFilter([x] + s, key, k) == KeyFilter(s, key, k) + KeyFilter([x], key, k)
  {
    KeyFilterAppend([x], s, key, k);
    if key(x) == k {
      forall j | 0 <= j < |s| ensures key(s[j]) != k {
        SortedPairwise(s, key, 0, j);
      }
      KeyFilterNone(s, key, k);
    } else {
      assert KeyFilter([x], key, k) == [];
    }
  }

  /** Insertion puts `x` after every element of a sorted list that has its key. */
  lemma {:induction false} InsertKeyFilter<T>(x: T, s: seq<T>, key: T -> string, k: string)
    requires SortedBy(s, key)
    ensures KeyFilter(Insert(x, s, key), key, k) == KeyFilter(s, key, k) + KeyFilter([x], key, k)
  {
    if s == [] {
      assert Insert(x, s, key) == [x];
    } else if !LexLeq(key(s[0]), key(x)) {
      assert Insert(x, s, key) == [x] + s;
      InsertKeyFilterFront(x, s, key, k);
    } else {
      var rest := Insert(x, s[1..], key);
      assert Insert(x, s, key) == [s[0]] + rest;
      SortedTail(s, key);
      InsertKeyFilter(x, s[1..], key, k);
      ConsKeyFilter(s, rest, KeyFilter([x], key, k), key, k);
    }
  }

  /** Putting back the head of `s` in front of a list that filters like its tail with `extra` added. */
  lemma ConsKeyFilter<T>(s: seq<T>, rest: seq<T>, extra: seq<T>, key: T -> string, k: string)
    requires s != [] && KeyFilter(rest, key, k) == KeyFilter(s[1..], key, k) + extra
    ensures KeyFilter([s[0]] + rest, key, k) == KeyFilter(s, key, k) + extra
  {
    var head := KeyFilter([s[0]], key, k);
    assert s == [s[0]] + s[1..];
    calc {
      KeyFilter([s[0]] + rest, key, k);
      { KeyFilterAppend([s[0]], rest, key, k); }
      head + (KeyFilter(s[1..], key, k) + extra);
      (head + KeyFilter(s[1..], key, k)) + extra;
      { KeyFilterAppend([s[0]], s[1..], key, k); }
      KeyFilter(s, key, k) + extra;
    }
  }

  /**
   * The sort is stable: for every key, the elements with that key appear in
   * the sorted list in the order they had in the input.
   */
  lemma {:induction false} SortByStable<T>(s: seq<T>, key: T -> string, k: string)
    ensures KeyFilter(SortBy(s, key), key, k) == KeyFilter(s, key, k)
  {
    if s != [] {
      var init, last := s[..|s| - 1], s[|s| - 1];
      assert s == init + [last];
      calc {
        KeyFilter(SortBy(s, key), key, k);
        KeyFilter(Insert(last, SortBy(init, key), key), key, k);
        { SortBySorted(init, key); InsertKeyFilter(last, SortBy(init, key), key, k); }
        KeyFilter(SortBy(init, key), key, k) + KeyFilter([last], key, k);
        { SortByStable(init, key, k); }
        KeyFilter(init, key, k) + KeyFilter([last], key, k);
        { KeyFilterAppend(init, [last], key, k); }
        KeyFilter(s, key, k);
      }
    }
  }

  /** In a list sorted by neighbours every pair is in order. */
  lemma {:induction false} SortedPairwise<T>(s: seq<T>, key: T -> string, i: int, j: int)
    requires SortedBy(s, key) && 0 <= i <= j < |s|
    ensures LexLeq(key(s[i]), key(s[j]))
    decreases j - i
  {
    if i == j {
      LexLeqRefl(key(s[i]));
    } else {
      SortedPairwise(s, key, i + 1, j);
      LexLeqTrans(key(s[i]), key(s[i + 1]), key(s[j]));
    }
  }

  lemma {:induction false} LexLeqRefl(a: string)
    ensures LexLeq(a, a)
    decreases |a|
  {
    if a != [] {
      LexLeqRefl(a[1..]);
    }
  }
}
