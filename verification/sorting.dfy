/** A stable insertion sort by an integer key. JavaScript's `Array.prototype.sort`
    is stable, so sorting with the comparator `(a, b) => key(a) - key(b)` yields
    exactly this sequence: ordered by key, ties in their original order. */
module Sorting {
  import opened Seqs

  /** `s` is ordered by non-decreasing `key`. */
  ghost predicate SortedBy<T>(s: seq<T>, key: T -> int) {
    forall i, j :: 0 <= i < j < |s| ==> key(s[i]) <= key(s[j])
  }

  /** The predicate "has key `v`", used to pick out the elements that tie at `v`. */
  function WithKey<T>(key: T -> int, v: int): T -> bool {
    x => key(x) == v
  }

  /** Puts `x` into the sorted `s` in front of the first element whose key is not
      smaller than that of `x`. */
  function Insert<T>(x: T, s: seq<T>, key: T -> int): (r: seq<T>)
    requires SortedBy(s, key)
    ensures |r| == |s| + 1
    ensures multiset(r) == multiset{x} + multiset(s)
    ensures SortedBy(r, key)
  {
    if |s| == 0 || key(x) <= key(s[0]) then [x] + s
    else
      var rest := Insert(x, s[1..], key);
      assert s == [s[0]] + s[1..];
      assert forall i :: 0 <= i < |rest| ==> key(s[0]) <= key(rest[i]) by {
        forall i | 0 <= i < |rest|
          ensures key(s[0]) <= key(rest[i])
        {
          assert rest[i] in multiset(rest);
          if rest[i] != x {
            assert rest[i] in multiset(s[1..]);
          }
        }
      }
      [s[0]] + rest
  }

  /** Sorts `s` by non-decreasing `key`, keeping elements with equal keys in the
      order they had in `s`. */
  function InsertionSort<T>(s: seq<T>, key: T -> int): (r: seq<T>)
    ensures |r| == |s|
    ensures multiset(r) == multiset(s)
    ensures SortedBy(r, key)
  {
    if |s| == 0 then []
    else
      assert s == [s[0]] + s[1..];
      Insert(s[0], InsertionSort(s[1..], key), key)
  }

  /** Inserting `x` puts it in front of the elements of `s` that share its key. */
  lemma {:induction false} InsertKeepsTies<T>(x: T, s: seq<T>, key: T -> int, v: int)
    requires SortedBy(s, key)
    ensures Filter(Insert(x, s, key), WithKey(key, v)) == Filter([x], WithKey(key, v)) + Filter(s, WithKey(key, v))
  {
    var p := WithKey(key, v);
    if |s| == 0 || key(x) <= key(s[0]) {
      FilterAppend([x], s, p);
    } else {
      var rest := Insert(x, s[1..], key);
      InsertKeepsTies(x, s[1..], key, v);
      FilterAppend([s[0]], rest, p);
      assert s == [s[0]] + s[1..];
      FilterAppend([s[0]], s[1..], p);
      // s[0] and x cannot both have key v, since key(s[0]) < key(x)
    }
  }

  /** Stability: the elements with any one key appear in the sorted sequence in the
      same order as in the input. */
  lemma {:induction false} InsertionSortStable<T>(s: seq<T>, key: T -> int, v: int)
    ensures Filter(InsertionSort(s, key), WithKey(key, v)) == Filter(s, WithKey(key, v))
  {
    if |s| > 0 {
      InsertionSortStable(s[1..], key, v);
      InsertKeepsTies(s[0], InsertionSort(s[1..], key), key, v);
      assert s == [s[0]] + s[1..];
      FilterAppend([s[0]], s[1..], WithKey(key, v));
    }
  }

  /** Inserting `x` adds one to the count of a predicate `x` satisfies, and nothing otherwise. */
  lemma {:induction false} InsertCount<T>(x: T, s: seq<T>, key: T -> int, p: T -> bool)
    requires SortedBy(s, key)
    ensures |Filter(Insert(x, s, key), p)| == |Filter(s, p)| + (if p(x) then 1 else 0)
  {
    if |s| == 0 || key(x) <= key(s[0]) {
      FilterAppend([x], s, p);
    } else {
      InsertCount(x, s[1..], key, p);
      FilterAppend([s[0]], Insert(x, s[1..], key), p);
      assert s == [s[0]] + s[1..];
      FilterAppend([s[0]], s[1..], p);
    }
  }

  /** Sorting does not change how many elements satisfy any predicate. */
  lemma {:induction false} InsertionSortCount<T>(s: seq<T>, key: T -> int, p: T -> bool)
    ensures |Filter(InsertionSort(s, key), p)| == |Filter(s, p)|
  {
    if |s| > 0 {
      var sorted := InsertionSort(s[1..], key);
      assert InsertionSort(s, key) == Insert(s[0], sorted, key);
      InsertionSortCount(s[1..], key, p);
      InsertCount(s[0], sorted, key, p);
      assert s == [s[0]] + s[1..];
      FilterAppend([s[0]], s[1..], p);
    }
  }
}
