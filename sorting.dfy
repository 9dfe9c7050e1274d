/**
 * Python's `list.sort(key=..., reverse=...)` and `sorted(...)`: a stable
 * sort by a key, where `reverse` sorts descending but still keeps elements
 * with equal keys in their original order.
 *
 * Every key the scanner sorts by (an int, a string, a `(bool, int)` tuple)
 * is encoded as a sequence of integers compared lexicographically, which is
 * exactly how Python compares tuples and strings. The sort itself is modelled
 * by insertion sort; `StableSortUnique` shows that any sorted, stable
 * rearrangement is this one, so the choice of algorithm does not matter.
 */
module Sorting {

  /** Lexicographic order; a proper prefix comes first. */
  predicate LexLe(a: seq<int>, b: seq<int>) {
    |a| == 0 || (|b| > 0 && (a[0] < b[0] || (a[0] == b[0] && LexLe(a[1..], b[1..]))))
  }

  lemma {:induction false} LexTotal(a: seq<int>, b: seq<int>)
    ensures LexLe(a, b) || LexLe(b, a)
    decreases |a|
  {
    if |a| > 0 && |b| > 0 && a[0] == b[0] {
      LexTotal(a[1..], b[1..]);
    }
  }

  lemma {:induction false} LexTrans(a: seq<int>, b: seq<int>, c: seq<int>)
    requires LexLe(a, b) && LexLe(b, c)
    ensures LexLe(a, c)
    decreases |a|
  {
    if |a| > 0 && a[0] == b[0] && b[0] == c[0] {
      LexTrans(a[1..], b[1..], c[1..]);
    }
  }

  lemma {:induction false} LexAntisym(a: seq<int>, b: seq<int>)
    requires LexLe(a, b) && LexLe(b, a)
    ensures a == b
    decreases |a|
  {
    if |a| > 0 {
      LexAntisym(a[1..], b[1..]);
      assert a == [a[0]] + a[1..] && b == [b[0]] + b[1..];
    }
  }

  /** Lexicographic order on pairs, as Python compares two-element tuples. */
  lemma LexLePair(a1: int, b1: int, a2: int, b2: int)
    ensures LexLe([a1, b1], [a2, b2]) <==> a1 < a2 || (a1 == a2 && b1 <= b2)
  {
    assert [a1, b1][1..] == [b1] && [a2, b2][1..] == [b2];
    assert [b1][1..] == [] && [b2][1..] == [];
    assert LexLe([], []);
    assert LexLe([b1], [b2]) <==> b1 <= b2;
  }

  /** Key `ka` may stand before key `kb` in the output of a sort in direction `reverse`. */
  predicate InOrder(ka: seq<int>, kb: seq<int>, reverse: bool) {
    if reverse then LexLe(kb, ka) else LexLe(ka, kb)
  }

  lemma InOrderTotal(ka: seq<int>, kb: seq<int>, reverse: bool)
    ensures InOrder(ka, kb, reverse) || InOrder(kb, ka, reverse)
  {
    LexTotal(ka, kb);
  }

  lemma InOrderTrans(ka: seq<int>, kb: seq<int>, kc: seq<int>, reverse: bool)
    requires InOrder(ka, kb, reverse) && InOrder(kb, kc, reverse)
    ensures InOrder(ka, kc, reverse)
  {
    if reverse { LexTrans(kc, kb, ka); } else { LexTrans(ka, kb, kc); }
  }

  lemma InOrderAntisym(ka: seq<int>, kb: seq<int>, reverse: bool)
    requires InOrder(ka, kb, reverse) && InOrder(kb, ka, reverse)
    ensures ka == kb
  {
    LexAntisym(ka, kb);
  }

  ghost predicate Sorted<T>(s: seq<T>, key: T -> seq<int>, reverse: bool) {
    forall i, j :: 0 <= i < j < |s| ==> InOrder(key(s[i]), key(s[j]), reverse)
  }

  /** The elements of `s` whose key is `k`, in their order in `s`. */
  function Select<T>(s: seq<T>, key: T -> seq<int>, k: seq<int>): seq<T> {
    if s == [] then [] else (if key(s[0]) == k then [s[0]] else []) + Select(s[1..], key, k)
  }

  /** Inserts `x` before the first element it may precede. */
  function Insert<T>(x: T, s: seq<T>, key: T -> seq<int>, reverse: bool): seq<T> {
    if s == [] || InOrder(key(x), key(s[0]), reverse) then [x] + s
    else [s[0]] + Insert(x, s[1..], key, reverse)
  }

  /** The stable sort of `s` by `key`, descending when `reverse`. */
  function SortBy<T>(s: seq<T>, key: T -> seq<int>, reverse: bool): seq<T> {
    if s == [] then [] else Insert(s[0], SortBy(s[1..], key, reverse), key, reverse)
  }

  lemma {:induction false} InsertPerm<T>(x: T, s: seq<T>, key: T -> seq<int>, reverse: bool)
    ensures multiset(Insert(x, s, key, reverse)) == multiset(s) + multiset{x}
    decreases |s|
  {
    if s != [] && !InOrder(key(x), key(s[0]), reverse) {
      InsertPerm(x, s[1..], key, reverse);
      assert s == [s[0]] + s[1..];
    }
  }

  lemma {:induction false} InsertSorted<T>(x: T, s: seq<T>, key: T -> seq<int>, reverse: bool)
    requires Sorted(s, key, reverse)
    ensures Sorted(Insert(x, s, key, reverse), key, reverse)
    decreases |s|
  {
    var r := Insert(x, s, key, reverse);
    if s == [] || InOrder(key(x), key(s[0]), reverse) {
      forall i, j | 0 <= i < j < |r| ensures InOrder(key(r[i]), key(r[j]), reverse) {
        if i == 0 && j > 1 {
          InOrderTrans(key(x), key(s[0]), key(s[j - 1]), reverse);
        }
      }
    } else {
      InOrderTotal(key(x), key(s[0]), reverse);
      var t := Insert(x, s[1..], key, reverse);
      InsertSorted(x, s[1..], key, reverse);
      InsertPerm(x, s[1..], key, reverse);
      forall j | 0 <= j < |t| ensures InOrder(key(s[0]), key(t[j]), reverse) {
        assert t[j] in multiset(t);
        if t[j] != x {
          assert t[j] in multiset(s[1..]);
          var k :| 0 <= k < |s[1..]| && s[1..][k] == t[j];
          assert s[k + 1] == t[j];
        }
      }
      assert r == [s[0]] + t;
    }
  }

  lemma SortedTail<T>(s: seq<T>, key: T -> seq<int>, reverse: bool)
    requires s != [] && Sorted(s, key, reverse)
    ensures Sorted(s[1..], key, reverse)
  {
    forall i, j | 0 <= i < j < |s[1..]| ensures InOrder(key(s[1..][i]), key(s[1..][j]), reverse) {
      assert s[1..][i] == s[i + 1] && s[1..][j] == s[j + 1];
    }
  }

  lemma SelectCons<T>(x: T, s: seq<T>, key: T -> seq<int>, k: seq<int>)
    ensures Select([x] + s, key, k) == (if key(x) == k then [x] else []) + Select(s, key, k)
  {
    assert ([x] + s)[1..] == s;
  }

  lemma SwapDisjoint<T>(a: seq<T>, b: seq<T>, c: seq<T>)
    requires a == [] || b == []
    ensures a + (b + c) == b + (a + c)
  {
  }

  lemma {:induction false} InsertSelect<T>(x: T, s: seq<T>, key: T -> seq<int>, reverse: bool, k: seq<int>)
    ensures Select(Insert(x, s, key, reverse), key, k)
         == (if key(x) == k then [x] else []) + Select(s, key, k)
    decreases |s|
  {
    if s == [] || InOrder(key(x), key(s[0]), reverse) {
      SelectCons(x, s, key, k);
    } else {
      var t := Insert(x, s[1..], key, reverse);
      InsertSelect(x, s[1..], key, reverse, k);
      SelectCons(s[0], t, key, k);
      SelectCons(s[0], s[1..], key, k);
      assert [s[0]] + s[1..] == s;
      LexTotal(key(x), key(x));
      SwapDisjoint(if key(s[0]) == k then [s[0]] else [], if key(x) == k then [x] else [], Select(s[1..], key, k));
    }
  }

  /** The sort rearranges its input: a permutation. */
  lemma {:induction false} SortByPerm<T>(s: seq<T>, key: T -> seq<int>, reverse: bool)
    ensures multiset(SortBy(s, key, reverse)) == multiset(s)
    decreases |s|
  {
    if s != [] {
      SortByPerm(s[1..], key, reverse);
      InsertPerm(s[0], SortBy(s[1..], key, reverse), key, reverse);
      assert s == [s[0]] + s[1..];
    }
  }

  /** The sort orders its output by key. */
  lemma {:induction false} SortBySorted<T>(s: seq<T>, key: T -> seq<int>, reverse: bool)
    ensures Sorted(SortBy(s, key, reverse), key, reverse)
    decreases |s|
  {
    if s != [] {
      SortBySorted(s[1..], key, reverse);
      InsertSorted(s[0], SortBy(s[1..], key, reverse), key, reverse);
    }
  }

  /** The sort is stable: elements with the same key keep their input order. */
  lemma {:induction false} SortByStable<T>(s: seq<T>, key: T -> seq<int>, reverse: bool, k: seq<int>)
    ensures Select(SortBy(s, key, reverse), key, k) == Select(s, key, k)
    decreases |s|
  {
    if s != [] {
      SortByStable(s[1..], key, reverse, k);
      InsertSelect(s[0], SortBy(s[1..], key, reverse), key, reverse, k);
    }
  }

  lemma {:induction false} SelectMember<T>(s: seq<T>, key: T -> seq<int>, k: seq<int>, x: T)
    ensures x in Select(s, key, k) <==> x in s && key(x) == k
    decreases |s|
  {
    if s != [] {
      SelectMember(s[1..], key, k, x);
      assert s == [s[0]] + s[1..];
    }
  }

  lemma SelectNonEmpty<T>(s: seq<T>, key: T -> seq<int>)
    requires s != []
    ensures Select(s, key, key(s[0])) != []
  {
  }

  lemma {:induction false} SortedUnique<T>(r1: seq<T>, r2: seq<T>, key: T -> seq<int>, reverse: bool)
    requires Sorted(r1, key, reverse) && Sorted(r2, key, reverse)
    requires forall k :: Select(r1, key, k) == Select(r2, key, k)
    ensures r1 == r2
    decreases |r1|
  {
    if r1 == [] || r2 == [] {
      if r1 != [] {
        SelectNonEmpty(r1, key);
        assert false;
      } else if r2 != [] {
        SelectNonEmpty(r2, key);
        assert false;
      }
    } else {
      var a, b := r1[0], r2[0];
      if key(a) != key(b) {
        SelectMember(r2, key, key(b), b);
        SelectMember(r1, key, key(b), b);
        var j :| 0 <= j < |r1| && r1[j] == b;
        assert j > 0 && InOrder(key(a), key(b), reverse);
        SelectMember(r1, key, key(a), a);
        SelectMember(r2, key, key(a), a);
        var i :| 0 <= i < |r2| && r2[i] == a;
        assert i > 0 && InOrder(key(b), key(a), reverse);
        InOrderAntisym(key(a), key(b), reverse);
        assert false;
      }
      var ka := key(a);
      SelectCons(a, r1[1..], key, ka);
      SelectCons(b, r2[1..], key, ka);
      assert r1 == [a] + r1[1..] && r2 == [b] + r2[1..];
      assert Select(r1, key, ka) == [a] + Select(r1[1..], key, ka);
      assert Select(r2, key, ka) == [b] + Select(r2[1..], key, ka);
      assert a == Select(r1, key, ka)[0] == Select(r2, key, ka)[0] == b;
      forall k ensures Select(r1[1..], key, k) == Select(r2[1..], key, k) {
        SelectCons(a, r1[1..], key, k);
        SelectCons(b, r2[1..], key, k);
        var p1, p2 := Select(r1[1..], key, k), Select(r2[1..], key, k);
        assert Select(r1, key, k) == Select(r2, key, k);
        if k == ka {
          assert Select(r1, key, k) == [a] + p1;
          assert Select(r2, key, k) == [a] + p2;
          assert ([a] + p1)[1..] == p1 && ([a] + p2)[1..] == p2;
        } else {
          assert Select(r1, key, k) == p1;
          assert Select(r2, key, k) == p2;
        }
      }
      SortedTail(r1, key, reverse);
      SortedTail(r2, key, reverse);
      SortedUnique(r1[1..], r2[1..], key, reverse);
    }
  }

  /**
   * Any rearrangement of `s` that is sorted by key and keeps equal keys in
   * input order is `SortBy(s)`: the stable sort is determined by its input.
   */
  lemma StableSortUnique<T>(s: seq<T>, r: seq<T>, key: T -> seq<int>, reverse: bool)
    requires Sorted(r, key, reverse)
    requires forall k :: Select(r, key, k) == Select(s, key, k)
    ensures r == SortBy(s, key, reverse)
  {
    SortBySorted(s, key, reverse);
    forall k ensures Select(r, key, k) == Select(SortBy(s, key, reverse), key, k) {
      SortByStable(s, key, reverse, k);
    }
    SortedUnique(r, SortBy(s, key, reverse), key, reverse);
  }
}
