/**
 * The final ordering of a run's results: Python's stable `list.sort` with
 * the key `(rank of the status's first word, department, title)`. The model
 * is an insertion sort that moves an element in front of another only when
 * its key is strictly smaller, which is what makes it stable.
 */
module Ordering {
  import opened Text
  import opened Probe
  import opened History

  /** The sort key tuple. */
  datatype SortKey = SortKey(rank: nat, department: string, title: string)

  /** The key of a result: rank 0 for failures and 1 for healthy links, then
      the department and the title unchanged. */
  function KeyOf(r: CheckResult): (k: SortKey)
    ensures k.rank <= 1 && (k.rank == 0 <==> !r.status.OK?)
    ensures k.department == r.department && k.title == r.title
  {
    SortKey(Rank(r.status), r.department, r.title)
  }

  /** Python's `<` on the key tuples: lexicographic, strings by code point. */
  predicate KeyLess(a: SortKey, b: SortKey) {
    || a.rank < b.rank
    || (a.rank == b.rank && StrLess(a.department, b.department))
    || (a.rank == b.rank && a.department == b.department && StrLess(a.title, b.title))
  }

  lemma KeyLessIrreflexive(a: SortKey)
    ensures !KeyLess(a, a)
  {
    StrLessIrreflexive(a.department);
    StrLessIrreflexive(a.title);
  }

  lemma KeyLessTransitive(a: SortKey, b: SortKey, c: SortKey)
    requires KeyLess(a, b) && KeyLess(b, c)
    ensures KeyLess(a, c)
  {
    if a.rank == b.rank == c.rank {
      if StrLess(a.department, b.department) && StrLess(b.department, c.department) {
        StrLessTransitive(a.department, b.department, c.department);
      } else if a.department == b.department == c.department {
        StrLessTransitive(a.title, b.title, c.title);
      }
    }
  }

  /** Distinct keys are always ordered one way or the other. */
  lemma KeyLessTotal(a: SortKey, b: SortKey)
    requires a != b
    ensures KeyLess(a, b) || KeyLess(b, a)
  {
    if a.rank == b.rank {
      if a.department != b.department {
        StrLessTotal(a.department, b.department);
      } else {
        StrLessTotal(a.title, b.title);
      }
    }
  }

  /** No later element has a strictly smaller key than an earlier one. */
  ghost predicate Sorted<T>(key: T -> SortKey, s: seq<T>) {
    forall i, j :: 0 <= i < j < |s| ==> !KeyLess(key(s[j]), key(s[i]))
  }

  /** The elements of `s` whose key is `k`, in their order in `s`. */
  function WithKey<T(==)>(key: T -> SortKey, s: seq<T>, k: SortKey): seq<T> {
    if |s| == 0 then []
    else (if key(s[0]) == k then [s[0]] else []) + WithKey(key, s[1..], k)
  }

  /** Inserts `x` into `s` just before the first element whose key is strictly
      greater than `x`'s key, that is, after every element with an equal key. */
  function Insert<T(==)>(key: T -> SortKey, x: T, s: seq<T>): (r: seq<T>)
    ensures multiset(r) == multiset(s) + multiset{x}
    ensures |r| == |s| + 1
  {
    if |s| == 0 then [x]
    else if KeyLess(key(x), key(s[0])) then [x] + s
    else
      assert s == [s[0]] + s[1..];
      [s[0]] + Insert(key, x, s[1..])
  }

  lemma {:induction false} InsertSorted<T>(key: T -> SortKey, x: T, s: seq<T>)
    requires Sorted(key, s)
    ensures Sorted(key, Insert(key, x, s))
  {
    if |s| > 0 {
      var r := Insert(key, x, s);
      if KeyLess(key(x), key(s[0])) {
        forall j | 1 <= j < |r|
          ensures !KeyLess(key(r[j]), key(x))
        {
          assert r[j] == s[j - 1];
          if KeyLess(key(s[j - 1]), key(x)) {
            KeyLessTransitive(key(s[j - 1]), key(x), key(s[0]));
            KeyLessIrreflexive(key(s[0]));
          }
        }
      } else {
        InsertSorted(key, x, s[1..]);
        var t := Insert(key, x, s[1..]);
        forall j | 0 <= j < |t|
          ensures !KeyLess(key(t[j]), key(s[0]))
        {
          assert t[j] in multiset(t);
          assert t[j] == x || t[j] in multiset(s[1..]);
          if t[j] != x {
            var m :| 0 <= m < |s[1..]| && s[1..][m] == t[j];
            assert s[m + 1] == t[j];
          }
        }
        assert r == [s[0]] + t;
      }
    }
  }

  /** In a sorted sequence, inserting `x` appends it after the elements with an
      equal key and leaves every other key class untouched. */
  lemma {:induction false} InsertWithKey<T>(key: T -> SortKey, x: T, s: seq<T>, k: SortKey)
    requires Sorted(key, s)
    ensures WithKey(key, Insert(key, x, s), k) == WithKey(key, s, k) + (if key(x) == k then [x] else [])
  {
    if |s| == 0 {
      assert WithKey(key, [x], k) == (if key(x) == k then [x] else []) + WithKey(key, [], k);
    } else if KeyLess(key(x), key(s[0])) {
      assert ([x] + s)[1..] == s;
      if key(x) == k {
        NoneWithKey(key, s, key(x));
      }
    } else {
      InsertWithKey(key, x, s[1..], k);
      assert ([s[0]] + Insert(key, x, s[1..]))[1..] == Insert(key, x, s[1..]);
    }
  }

  /** Nothing in a sorted sequence has a key strictly below its first element's. */
  lemma NoneWithKey<T>(key: T -> SortKey, s: seq<T>, k: SortKey)
    requires Sorted(key, s) && |s| > 0 && KeyLess(k, key(s[0]))
    ensures WithKey(key, s, k) == []
  {
    forall i | 0 <= i < |s|
      ensures key(s[i]) != k
    {
      if key(s[i]) == k {
        KeyLessIrreflexive(k);
      }
    }
    NoneWithKeyAll(key, s, k);
  }

  lemma {:induction false} NoneWithKeyAll<T>(key: T -> SortKey, s: seq<T>, k: SortKey)
    requires forall i :: 0 <= i < |s| ==> key(s[i]) != k
    ensures WithKey(key, s, k) == []
  {
    if |s| > 0 {
      NoneWithKeyAll(key, s[1..], k);
    }
  }

  lemma {:induction false} WithKeyAppend<T>(key: T -> SortKey, a: seq<T>, b: seq<T>, k: SortKey)
    ensures WithKey(key, a + b, k) == WithKey(key, a, k) + WithKey(key, b, k)
  {
    if |a| == 0 {
      assert a + b == b;
    } else {
      assert (a + b)[1..] == a[1..] + b;
      WithKeyAppend(key, a[1..], b, k);
    }
  }

  /** `results.sort(key=...)`: sorted by key, a permutation of its input, and
      stable: the elements of every key class keep their relative order. */
  function Sort<T(==)>(key: T -> SortKey, s: seq<T>): (r: seq<T>)
    ensures multiset(r) == multiset(s)
    ensures |r| == |s|
    ensures Sorted(key, r)
    ensures forall k :: WithKey(key, r, k) == WithKey(key, s, k)
  {
    if |s| == 0 then []
    else
      var front := s[..|s| - 1];
      var last := s[|s| - 1];
      assert s == front + [last];
      var sorted := Sort(key, front);
      InsertSorted(key, last, sorted);
      assert forall k :: WithKey(key, Insert(key, last, sorted), k) == WithKey(key, s, k) by {
        forall k
          ensures WithKey(key, Insert(key, last, sorted), k) == WithKey(key, s, k)
        {
          InsertWithKey(key, last, sorted, k);
          WithKeyAppend(key, front, [last], k);
          assert WithKey(key, [last], k) == (if key(last) == k then [last] else []) + WithKey(key, [], k);
        }
      }
      Insert(key, last, sorted)
  }

  /** In a sorted result list every result that is not OK comes before every
      result that is OK, and within one rank the (department, title) pairs
      never decrease. */
  lemma SortedGroups(r: seq<CheckResult>)
    requires Sorted(KeyOf, r)
    ensures forall i, j :: 0 <= i < j < |r| && r[i].status.OK? ==> r[j].status.OK?
    ensures forall i, j :: 0 <= i < j < |r| && Rank(r[i].status) == Rank(r[j].status) ==>
      !StrLess(r[j].department, r[i].department)
    ensures forall i, j :: (0 <= i < j < |r| && Rank(r[i].status) == Rank(r[j].status)
      && r[i].department == r[j].department) ==> !StrLess(r[j].title, r[i].title)
  {
    forall i, j | 0 <= i < j < |r|
      ensures !KeyLess(KeyOf(r[j]), KeyOf(r[i]))
    {
    }
  }
}
