/**
 A stable sort into non-increasing order of an integer key.

 This is the behaviour the project list gets from `Array.prototype.sort` with a
 comparator of the shape `(a, b) => key(b) - key(a)`: the comparator is negative
 exactly when `a` has the larger key, and the sort is stable (ECMA-262 requires
 a stable sort since its 2019 edition), so projects with equal keys keep their
 input order. The model is an insertion sort; `SortedStableUnique` shows that
 any sort meeting those two requirements produces the very same sequence.
 */
module StableSort {

  /** `xs` is in non-increasing order of `key`. */
  ghost predicate SortedDesc<T>(xs: seq<T>, key: T -> int) {
    forall i, j | 0 <= i < j < |xs| :: key(xs[i]) >= key(xs[j])
  }

  /** The elements of `xs` whose key is `k`, in the order they have in `xs`. */
  function Select<T>(xs: seq<T>, key: T -> int, k: int): seq<T> {
    if |xs| == 0 then []
    else if key(xs[0]) == k then [xs[0]] + Select(xs[1..], key, k)
    else Select(xs[1..], key, k)
  }

  /** `ys` keeps, for every key value, the relative order those elements have in `xs`. */
  ghost predicate StableWrt<T>(ys: seq<T>, xs: seq<T>, key: T -> int) {
    forall k :: Select(ys, key, k) == Select(xs, key, k)
  }

  /** Everything `Select` returns comes from `xs` and carries the key `k`. */
  lemma {:induction false} SelectElements<T>(xs: seq<T>, key: T -> int, k: int)
    ensures forall z | z in Select(xs, key, k) :: z in xs && key(z) == k
  {
    if |xs| > 0 {
      SelectElements(xs[1..], key, k);
    }
  }

  /** The first element of a non-empty `xs` heads the selection of its own key. */
  lemma SelectHead<T>(xs: seq<T>, key: T -> int)
    requires |xs| > 0
    ensures Select(xs, key, key(xs[0])) == [xs[0]] + Select(xs[1..], key, key(xs[0]))
  {
  }

  /**
   Places `x` in front of the first element of `ys` whose key is not larger
   than its own: every element it passes has a strictly larger key.
   */
  function Insert<T>(x: T, ys: seq<T>, key: T -> int): (r: seq<T>)
    ensures |r| == |ys| + 1
    ensures multiset(r) == multiset(ys) + multiset{x}
    ensures forall z | z in r :: z == x || z in ys
  {
    if |ys| == 0 then [x]
    else if key(x) >= key(ys[0]) then
      assert ys == [ys[0]] + ys[1..];
      [x] + ys
    else
      var rest := Insert(x, ys[1..], key);
      assert ys == [ys[0]] + ys[1..];
      var r := [ys[0]] + rest;
      assert forall z | z in r :: z == ys[0] || z in rest;
      r
  }

  /** Inserting into a sorted sequence keeps it sorted. */
  lemma {:induction false} InsertSorted<T>(x: T, ys: seq<T>, key: T -> int)
    requires SortedDesc(ys, key)
    ensures SortedDesc(Insert(x, ys, key), key)
  {
    if |ys| > 0 && key(x) < key(ys[0]) {
      var rest := Insert(x, ys[1..], key);
      InsertSorted(x, ys[1..], key);
      var r := Insert(x, ys, key);
      assert r == [ys[0]] + rest;
      forall j | 0 < j < |r|
        ensures key(r[0]) >= key(r[j])
      {
        assert r[j] in rest;
      }
    }
  }

  /** Insertion adds `x` at the front of its own key's selection and leaves the other keys alone. */
  lemma {:induction false} InsertSelect<T>(x: T, ys: seq<T>, key: T -> int, k: int)
    ensures Select(Insert(x, ys, key), key, k) == if key(x) == k then [x] + Select(ys, key, k) else Select(ys, key, k)
  {
    if |ys| > 0 {
      assert ys == [ys[0]] + ys[1..];
      if key(x) < key(ys[0]) {
        InsertSelect(x, ys[1..], key, k);
        var r := Insert(x, ys, key);
        assert r[1..] == Insert(x, ys[1..], key);
      } else {
        assert ([x] + ys)[1..] == ys;
      }
    }
  }

  /** Insertion sort, stable and non-increasing in `key`. */
  function Sort<T>(xs: seq<T>, key: T -> int): (r: seq<T>)
    ensures |r| == |xs|
    ensures multiset(r) == multiset(xs)
    ensures SortedDesc(r, key)
    ensures StableWrt(r, xs, key)
  {
    if |xs| == 0 then []
    else
      var sorted := Sort(xs[1..], key);
      var r := Insert(xs[0], sorted, key);
      assert xs == [xs[0]] + xs[1..];
      InsertSorted(xs[0], sorted, key);
      assert StableWrt(r, xs, key) by {
        forall k ensures Select(r, key, k) == Select(xs, key, k) {
          InsertSelect(xs[0], sorted, key, k);
          assert Select(sorted, key, k) == Select(xs[1..], key, k);
        }
      }
      r
  }

  /**
   A sequence that is sorted by `key` and keeps the input order within every key
   value is unique: two such arrangements of the same input are equal.
   */
  lemma {:induction false} SortedStableUnique<T>(a: seq<T>, b: seq<T>, key: T -> int)
    requires SortedDesc(a, key) && SortedDesc(b, key)
    requires forall k :: Select(a, key, k) == Select(b, key, k)
    ensures a == b
  {
    if |a| == 0 && |b| == 0 {
    } else if |a| == 0 {
      SelectHead(b, key);
      assert false;
    } else if |b| == 0 {
      SelectHead(a, key);
      assert false;
    } else {
      var ka, kb := key(a[0]), key(b[0]);
      if ka > kb {
        assert a[0] in Select(a, key, ka);
        SelectElements(b, key, ka);
        assert false;
      } else if kb > ka {
        assert b[0] in Select(b, key, kb);
        SelectElements(a, key, kb);
        assert false;
      }
      assert Select(a, key, ka) == [a[0]] + Select(a[1..], key, ka);
      assert Select(b, key, ka) == [b[0]] + Select(b[1..], key, ka);
      forall k ensures Select(a[1..], key, k) == Select(b[1..], key, k) {
        if k == ka {
          assert ([a[0]] + Select(a[1..], key, ka))[1..] == Select(a[1..], key, ka);
          assert ([b[0]] + Select(b[1..], key, ka))[1..] == Select(b[1..], key, ka);
        } else {
          assert Select(a, key, k) == Select(a[1..], key, k);
          assert Select(b, key, k) == Select(b[1..], key, k);
        }
      }
      SortedStableUnique(a[1..], b[1..], key);
      assert a == [a[0]] + a[1..];
      assert b == [b[0]] + b[1..];
    }
  }

  /** Any stable non-increasing arrangement of `xs` is exactly `Sort(xs, key)`. */
  lemma SortIsTheStableSort<T>(xs: seq<T>, r: seq<T>, key: T -> int)
    requires SortedDesc(r, key)
    requires StableWrt(r, xs, key)
    ensures r == Sort(xs, key)
  {
    var s := Sort(xs, key);
    forall k ensures Select(r, key, k) == Select(s, key, k) {
    }
    SortedStableUnique(r, s, key);
  }

  /** Sorting a sequence that is already sorted by `key` returns it unchanged. */
  lemma SortIdempotent<T>(xs: seq<T>, key: T -> int)
    requires SortedDesc(xs, key)
    ensures Sort(xs, key) == xs
  {
    SortIsTheStableSort(xs, xs, key);
  }
}
