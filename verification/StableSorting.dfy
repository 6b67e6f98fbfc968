/** Sorting as a function: what it means for a list to be sorted, stably, by a strict weak order.
    The items are pairs of an identity and a value; only the values are compared. */
module StableSorting {

  // A strict weak order: the comparisons the list may be sorted by.
  ghost predicate StrictWeak<T(!new)>(less: (T, T) -> bool) {
    && (forall x :: !less(x, x))
    && (forall x, y, z :: less(x, y) && less(y, z) ==> less(x, z))
    && (forall x, y, z :: less(x, z) ==> less(x, y) || less(y, z))
  }

  ghost predicate Sorted<K, T>(less: (T, T) -> bool, s: seq<(K, T)>) {
    forall i, j :: 0 <= i < j < |s| ==> !less(s[j].1, s[i].1)
  }

  // Puts x in front of the first item that it need not be behind.
  function Insert<K, T>(less: (T, T) -> bool, x: (K, T), s: seq<(K, T)>): seq<(K, T)> {
    if s == [] || !less(s[0].1, x.1) then [x] + s else [s[0]] + Insert(less, x, s[1..])
  }

  function Sort<K, T>(less: (T, T) -> bool, s: seq<(K, T)>): seq<(K, T)> {
    if s == [] then [] else Insert(less, s[0], Sort(less, s[1..]))
  }

  // The items, in order, that are equivalent to v.
  function Like<K, T>(less: (T, T) -> bool, v: T, s: seq<(K, T)>): seq<(K, T)> {
    if s == [] then []
    else (if !less(s[0].1, v) && !less(v, s[0].1) then [s[0]] else []) + Like(less, v, s[1..])
  }

  lemma {:induction false} InsertSorted<K, T(!new)>(less: (T, T) -> bool, x: (K, T), s: seq<(K, T)>)
    requires StrictWeak(less) && Sorted(less, s)
    ensures Sorted(less, Insert(less, x, s))
    ensures multiset(Insert(less, x, s)) == multiset{x} + multiset(s)
  {
    if s != [] && less(s[0].1, x.1) {
      var t := Insert(less, x, s[1..]);
      InsertSorted(less, x, s[1..]);
      assert s == [s[0]] + s[1..];
      forall j | 0 <= j < |t| ensures !less(t[j].1, s[0].1) {
        assert t[j] in multiset(t);
        if t[j] != x {
          assert t[j] in s[1..];
        }
      }
    }
  }

  lemma {:induction false} InsertLike<K, T(!new)>(less: (T, T) -> bool, x: (K, T), s: seq<(K, T)>, v: T)
    requires StrictWeak(less)
    ensures Like(less, v, Insert(less, x, s)) == Like(less, v, [x] + s)
  {
    assert ([x] + s)[1..] == s;
    if s != [] && less(s[0].1, x.1) {
      InsertLike(less, x, s[1..], v);
      assert ([x] + s[1..])[1..] == s[1..];
      assert ([s[0]] + Insert(less, x, s[1..]))[1..] == Insert(less, x, s[1..]);
    }
  }

  // Sort sorts, loses nothing, and keeps equivalent items in their order.
  lemma {:induction false} SortIsStable<K, T(!new)>(less: (T, T) -> bool, s: seq<(K, T)>)
    requires StrictWeak(less)
    ensures Sorted(less, Sort(less, s)) && multiset(Sort(less, s)) == multiset(s)
    ensures forall v :: Like(less, v, Sort(less, s)) == Like(less, v, s)
  {
    if s != [] {
      SortIsStable(less, s[1..]);
      InsertSorted(less, s[0], Sort(less, s[1..]));
      assert s == [s[0]] + s[1..];
      forall v ensures Like(less, v, Sort(less, s)) == Like(less, v, s) {
        InsertLike(less, s[0], Sort(less, s[1..]), v);
        assert ([s[0]] + Sort(less, s[1..]))[1..] == Sort(less, s[1..]);
      }
    }
  }

  // What is sorted already stays as it is.
  lemma {:induction false} SortedIsFixed<K, T>(less: (T, T) -> bool, s: seq<(K, T)>)
    requires Sorted(less, s)
    ensures Sort(less, s) == s
  {
    if s != [] {
      SortedIsFixed(less, s[1..]);
      assert s == [s[0]] + s[1..];
    }
  }

  lemma {:induction false} InsertsCommute<K, T(!new)>(less: (T, T) -> bool, x: (K, T), y: (K, T), s: seq<(K, T)>)
    requires StrictWeak(less) && less(y.1, x.1)
    ensures Insert(less, x, Insert(less, y, s)) == Insert(less, y, Insert(less, x, s))
  {
    if s != [] && less(s[0].1, y.1) {
      InsertsCommute(less, x, y, s[1..]);
      assert less(s[0].1, x.1);
    }
  }

  // Swapping two neighbours that are out of order does not change what the list sorts to.
  lemma {:induction false} SwapKeepsSort<K, T(!new)>(
      less: (T, T) -> bool, a: seq<(K, T)>, x: (K, T), y: (K, T), b: seq<(K, T)>)
    requires StrictWeak(less) && less(y.1, x.1)
    ensures Sort(less, a + [x, y] + b) == Sort(less, a + [y, x] + b)
  {
    if a == [] {
      assert a + [x, y] + b == [x] + ([y] + b) && a + [y, x] + b == [y] + ([x] + b);
      assert ([x] + ([y] + b))[1..] == [y] + b && ([y] + ([x] + b))[1..] == [x] + b;
      assert ([x] + b)[1..] == b && ([y] + b)[1..] == b;
      InsertsCommute(less, x, y, Sort(less, b));
    } else {
      SwapKeepsSort(less, a[1..], x, y, b);
      assert (a + [x, y] + b)[1..] == a[1..] + [x, y] + b && (a + [y, x] + b)[1..] == a[1..] + [y, x] + b;
    }
  }

  // How many items of s belong before v.
  function Before<K, T>(less: (T, T) -> bool, v: T, s: seq<(K, T)>): nat {
    if s == [] then 0 else (if less(s[0].1, v) then 1 else 0) + Before(less, v, s[1..])
  }

  // The number of pairs that are out of order.
  function Inversions<K, T>(less: (T, T) -> bool, s: seq<(K, T)>): nat {
    if s == [] then 0 else Before(less, s[0].1, s[1..]) + Inversions(less, s[1..])
  }

  lemma {:induction false} SwapKeepsBefore<K, T>(
      less: (T, T) -> bool, v: T, a: seq<(K, T)>, x: (K, T), y: (K, T), b: seq<(K, T)>)
    ensures Before(less, v, a + [x, y] + b) == Before(less, v, a + [y, x] + b)
  {
    if a == [] {
      assert a + [x, y] + b == [x] + ([y] + b) && a + [y, x] + b == [y] + ([x] + b);
      assert ([x] + ([y] + b))[1..] == [y] + b && ([y] + ([x] + b))[1..] == [x] + b;
      assert ([x] + b)[1..] == b && ([y] + b)[1..] == b;
    } else {
      SwapKeepsBefore(less, v, a[1..], x, y, b);
      assert (a + [x, y] + b)[1..] == a[1..] + [x, y] + b && (a + [y, x] + b)[1..] == a[1..] + [y, x] + b;
    }
  }

  // Such a swap removes exactly one inversion.
  lemma {:induction false} SwapRemovesInversion<K, T(!new)>(
      less: (T, T) -> bool, a: seq<(K, T)>, x: (K, T), y: (K, T), b: seq<(K, T)>)
    requires StrictWeak(less) && less(y.1, x.1)
    ensures Inversions(less, a + [x, y] + b) == Inversions(less, a + [y, x] + b) + 1
  {
    if a == [] {
      assert a + [x, y] + b == [x] + ([y] + b) && a + [y, x] + b == [y] + ([x] + b);
      assert ([x] + ([y] + b))[1..] == [y] + b && ([y] + ([x] + b))[1..] == [x] + b;
      assert ([x] + b)[1..] == b && ([y] + b)[1..] == b;
    } else {
      SwapRemovesInversion(less, a[1..], x, y, b);
      SwapKeepsBefore(less, a[0].1, a[1..], x, y, b);
      assert (a + [x, y] + b)[1..] == a[1..] + [x, y] + b && (a + [y, x] + b)[1..] == a[1..] + [y, x] + b;
    }
  }

  // Neighbours in order: everything in order.
  lemma {:induction false} NeighboursSorted<K, T(!new)>(less: (T, T) -> bool, s: seq<(K, T)>)
    requires StrictWeak(less) && forall i :: 0 <= i < |s| - 1 ==> !less(s[i + 1].1, s[i].1)
    ensures Sorted(less, s)
  {
    if |s| > 1 {
      var t := s[1..];
      forall i | 0 <= i < |t| - 1 ensures !less(t[i + 1].1, t[i].1) { assert !less(s[i + 2].1, s[i + 1].1); }
      NeighboursSorted(less, t);
      forall i, j | 0 <= i < j < |s| ensures !less(s[j].1, s[i].1) {
        if i > 0 {
          assert s[j] == t[j - 1] && s[i] == t[i - 1];
        } else if j > 1 {
          assert s[j] == t[j - 1] && s[1] == t[0];
        }
      }
    }
  }
}
