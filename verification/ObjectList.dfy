/** The doubly linked list of the program: objects that carry their own links, and a list that only
    knows its first and its last object. Every operation is proved against the sequence of objects
    the links spell out. */
module ObjectList {
  import opened StableSorting

  // The object, as the set of what may be changed.
  ghost function OrNone<T>(item: ListObject?<T>): set<ListObject<T>> {
    if item == null then {} else {item}
  }

  class ListObject<T> {
    var prev: ListObject?<T>
    var next: ListObject?<T>
    var val: T

    constructor (val: T)
      ensures this.val == val && prev == null && next == null
    {
      this.val := val;
      prev, next := null, null;
    }

    method Append(item: ListObject<T>)
      modifies `next, item`prev
      ensures next == item && item.prev == this
    {
      next := item;
      item.prev := this;
    }

    method Unlink()
      modifies `prev, `next, OrNone(prev)`next, OrNone(next)`prev
      ensures prev == null && next == null
      ensures old(prev) != null && old(prev) != this ==> old(prev).next == old(next)
      ensures old(next) != null && old(next) != this ==> old(next).prev == old(prev)
    {
      if next != null { next.prev := prev; }
      if prev != null { prev.next := next; }
      next, prev := null, null;
    }

    // The number of objects in front of this one.
    method Index(ghost s: seq<ListObject<T>>, ghost k: nat) returns (i: nat)
      requires Chained(s) && k < |s| && s[k] == this
      ensures i == k
    {
      i := 0;
      var p := prev;
      while p != null
        invariant i <= k && p == if i == k then null else s[k - i - 1]
        decreases k - i
      {
        i := i + 1;
        p := p.prev;
      }
    }
  }

  // The links of the objects in s spell out s, and nothing else.
  ghost predicate Chained<T>(s: seq<ListObject<T>>)
    reads s
  {
    && (forall i {:trigger s[i].prev} :: 0 <= i < |s| ==> s[i].prev == if i == 0 then null else s[i - 1])
    && (forall i {:trigger s[i].next} :: 0 <= i < |s| ==> s[i].next == if i == |s| - 1 then null else s[i + 1])
  }

  ghost predicate Distinct<T>(s: seq<ListObject<T>>) {
    forall i, j :: 0 <= i < j < |s| ==> s[i] != s[j]
  }

  // The links of s with the object at k bridged over.
  ghost predicate Bridged<T>(s: seq<ListObject<T>>, k: nat)
    requires k < |s|
    reads s
  {
    && (forall i {:trigger s[i].prev} :: 0 <= i < |s| && i != k ==>
          s[i].prev == if i == k + 1 then (if k == 0 then null else s[k - 1]) else if i == 0 then null else s[i - 1])
    && (forall i {:trigger s[i].next} :: 0 <= i < |s| && i != k ==>
          s[i].next == if i == k - 1 then (if k == |s| - 1 then null else s[k + 1])
                       else if i == |s| - 1 then null else s[i + 1])
  }

  lemma BridgedIsChained<T>(s: seq<ListObject<T>>, k: nat)
    requires k < |s| && Distinct(s) && Bridged(s, k)
    ensures Chained(RemoveAt(s, k)) && Distinct(RemoveAt(s, k)) && s[k] !in RemoveAt(s, k)
  {
    var t := RemoveAt(s, k);
    assert forall i :: 0 <= i < |t| ==> t[i] == if i < k then s[i] else s[i + 1];
  }

  function RemoveAt<X>(s: seq<X>, i: nat): seq<X>
    requires i < |s|
  {
    s[..i] + s[i + 1..]
  }

  function InsertAt<X>(s: seq<X>, i: nat, x: X): seq<X>
    requires i <= |s|
  {
    s[..i] + [x] + s[i..]
  }

  // The links of s with x put in at j.
  ghost predicate Spliced<T>(s: seq<ListObject<T>>, j: nat, x: ListObject<T>)
    requires j <= |s|
    reads s, x
  {
    && x.prev == (if j == 0 then null else s[j - 1]) && x.next == (if j == |s| then null else s[j])
    && (forall i {:trigger s[i].prev} :: 0 <= i < |s| ==>
          s[i].prev == if i == j then x else if i == 0 then null else s[i - 1])
    && (forall i {:trigger s[i].next} :: 0 <= i < |s| ==>
          s[i].next == if i == j - 1 then x else if i == |s| - 1 then null else s[i + 1])
  }

  lemma SplicedIsChained<T>(s: seq<ListObject<T>>, j: nat, x: ListObject<T>)
    requires j <= |s| && Distinct(s) && x !in s && Spliced(s, j, x)
    ensures Chained(InsertAt(s, j, x)) && Distinct(InsertAt(s, j, x))
  {
    var t := InsertAt(s, j, x);
    assert forall i :: 0 <= i < |t| ==> t[i] == if i < j then s[i] else if i == j then x else s[i - 1];
  }

  class ListBase<T(!new)> {
    var objects: ListObject?<T>
    var lastObject: ListObject?<T>
    ghost var nodes: seq<ListObject<T>>

    ghost predicate Valid()
      reads this, nodes
    {
      && Distinct(nodes) && Chained(nodes)
      && objects == (if nodes == [] then null else nodes[0])
      && lastObject == (if nodes == [] then null else nodes[|nodes| - 1])
    }

    // The objects with their values.
    ghost function Items(): (s: seq<(ListObject<T>, T)>)
      reads this, nodes
      ensures |s| == |nodes| && forall i :: 0 <= i < |s| ==> s[i] == (nodes[i], nodes[i].val)
    {
      seq(|nodes|, i requires 0 <= i < |nodes| reads this, nodes => (nodes[i], nodes[i].val))
    }

    constructor ()
      ensures Valid() && nodes == []
    {
      objects, lastObject, nodes := null, null, [];
    }

    method Add(item: ListObject<T>)
      requires Valid() && item !in nodes && item.prev == null && item.next == null
      modifies this, lastObject, item`prev
      ensures Valid() && nodes == old(nodes) + [item]
      ensures forall n :: n in nodes ==> n.val == old(n.val)
    {
      if lastObject != null {
        lastObject.Append(item);
      } else {
        objects := item;
      }
      lastObject := item;
      nodes := nodes + [item];
    }

    // Takes the object at k out of the chain.
    method Detach(item: ListObject<T>, ghost k: nat)
      requires Valid() && k < |nodes| && nodes[k] == item
      modifies this, nodes
      ensures Valid() && nodes == RemoveAt(old(nodes), k)
      ensures item.prev == null && item.next == null
      ensures forall n :: n in old(nodes) ==> n.val == old(n.val)
    {
      ghost var s := nodes;
      if item == objects { objects := item.next; }
      if item == lastObject { lastObject := item.prev; }
      item.Unlink();
      BridgedIsChained(s, k);
      nodes := RemoveAt(s, k);
    }

    method Del(item: ListObject<T>, ghost k: nat)
      requires Valid() && k < |nodes| && nodes[k] == item
      modifies this, nodes
      ensures Valid() && nodes == RemoveAt(old(nodes), k)
      ensures item.prev == null && item.next == null
      ensures forall n :: n in old(nodes) ==> n.val == old(n.val)
    {
      Detach(item, k);
    }

    // Puts the object in front of the target, or at the end of the list.
    method Attach(from: ListObject<T>, target: ListObject?<T>, ghost j: nat)
      requires Valid() && from !in nodes && from.prev == null && from.next == null
      requires target != from ==> j <= |nodes| && nodes != [] && target == if j == |nodes| then null else nodes[j]
      modifies this, nodes, from
      ensures Valid() && (forall n :: n in old(nodes) ==> n.val == old(n.val)) && from.val == old(from.val)
      ensures target != from ==> nodes == InsertAt(old(nodes), j, from)
      ensures target == from ==> nodes == old(nodes) && from.next == from.prev == from
    {
      ghost var s := nodes;
      if target != null {
        if target.prev != null { target.prev.Append(from); }
        from.Append(target);
      } else {
        lastObject.Append(from);
        lastObject := from;
      }
      if from.prev == null { objects := from; }
      if target != from {
        SplicedIsChained(s, j, from);
        nodes := InsertAt(s, j, from);
      }
    }

    // Moves `from` to where `to` is. Moving an object onto itself takes it out of the list and leaves
    // it linked to itself.
    method Move(from: ListObject?<T>, to: ListObject?<T>, ghost i: nat, ghost j: nat)
      requires Valid()
      requires from != null && to != null ==> i < |nodes| && from == nodes[i] && j < |nodes| && to == nodes[j]
      modifies this, nodes
      ensures Valid()
      ensures from == null || to == null ==> nodes == old(nodes)
      ensures from != null && to != null && from != to ==> nodes == InsertAt(RemoveAt(old(nodes), i), j, from)
      ensures from != null && from == to ==> nodes == RemoveAt(old(nodes), i) && from.next == from.prev == from
      ensures forall n :: n in old(nodes) ==> n.val == old(n.val)
    {
      if from != null && to != null {
        var fromIndex := from.Index(nodes, i);
        var toIndex := to.Index(nodes, j);
        var target: ListObject?<T> := to;
        if fromIndex < toIndex { target := to.next; }
        Detach(from, i);
        Attach(from, target, j);
      }
    }

    method Clear()
      modifies this
      ensures Valid() && nodes == []
    {
      objects, lastObject, nodes := null, null, [];
    }

    // The object at a position, or null if there is none.
    method Get(index: int) returns (item: ListObject?<T>)
      requires Valid()
      ensures item == if 0 <= index < |nodes| then nodes[index] else null
    {
      if index < 0 { return null; }
      item := objects;
      ghost var k := 0;
      var left := index;
      while item != null && left > 0
        invariant 0 <= k <= |nodes| && left == index - k >= 0
        invariant item == if k < |nodes| then nodes[k] else null
        decreases left
      {
        left := left - 1;
        item := item.next;
        k := k + 1;
      }
    }

    method Count() returns (n: nat)
      requires Valid()
      ensures n == |nodes|
    {
      n := 0;
      var item := objects;
      while item != null
        invariant n <= |nodes| && item == if n < |nodes| then nodes[n] else null
        decreases |nodes| - n
      {
        n := n + 1;
        item := item.next;
      }
    }

    // Move by position; positions outside the list do nothing.
    method MoveAt(i: int, j: int)
      requires Valid()
      modifies this, nodes
      ensures Valid() && forall n :: n in old(nodes) ==> n.val == old(n.val)
      ensures if 0 <= i < |old(nodes)| && 0 <= j < |old(nodes)| then
                nodes == if i == j then RemoveAt(old(nodes), i) else InsertAt(RemoveAt(old(nodes), i), j, old(nodes)[i])
              else nodes == old(nodes)
    {
      var from := Get(i);
      var to := Get(j);
      Move(from, to, if i < 0 then 0 else i, if j < 0 then 0 else j);
    }

    // Bubbles objects forward until a whole pass finds nothing out of order. After a swap the object
    // just moved is not compared with its new neighbour in that pass.
    method Sort(less: (T, T) -> bool)
      requires Valid() && StrictWeak(less)
      modifies this, nodes
      ensures Valid() && Items() == StableSorting.Sort(less, old(Items()))
    {
      hide StrictWeak, StableSorting.Sort, Inversions, Sorted, Distinct, Chained, Items;
      var swapped := true;
      while swapped
        invariant Valid() && |nodes| == |old(nodes)| && Within(old(nodes), nodes)
        invariant StableSorting.Sort(less, Items()) == StableSorting.Sort(less, old(Items()))
        invariant !swapped ==> Sorted(less, Items())
        decreases Inversions(less, Items()) + if swapped then 1 else 0
      {
        swapped := Pass(less);
      }
      SortedIsFixed(less, Items());
    }

    // Moves the object behind the one at k in front of it.
    method SwapWithNext(less: (T, T) -> bool, item: ListObject<T>, ghost k: nat)
      requires Valid() && StrictWeak(less) && k + 1 < |nodes| && nodes[k] == item
      requires less(nodes[k + 1].val, item.val)
      modifies this, nodes
      ensures Valid() && |nodes| == |old(nodes)| && Within(old(nodes), nodes) && nodes[k + 1] == item
      ensures StableSorting.Sort(less, Items()) == StableSorting.Sort(less, old(Items()))
      ensures Inversions(less, Items()) + 1 == Inversions(less, old(Items()))
    {
      hide StrictWeak, StableSorting.Sort, Inversions;
      ghost var s, items := nodes, Items();
      Move(item.next, item, k + 1, k);
      assert nodes == s[..k] + [s[k + 1], s[k]] + s[k + 2..];
      NeighboursSwapped(less, items, Items(), k);
    }

    // One pass over the list.
    method Pass(less: (T, T) -> bool) returns (swapped: bool)
      requires Valid() && StrictWeak(less)
      modifies this, nodes
      ensures Valid() && |nodes| == |old(nodes)| && Within(old(nodes), nodes)
      ensures StableSorting.Sort(less, Items()) == StableSorting.Sort(less, old(Items()))
      ensures if swapped then Inversions(less, Items()) < Inversions(less, old(Items()))
              else Items() == old(Items()) && Sorted(less, Items())
    {
      hide StrictWeak, StableSorting.Sort, Inversions, Sorted, Distinct, Items;
      swapped := false;
      var item := objects;
      ghost var k := 0;
      while item != null
        invariant Valid() && |nodes| == |old(nodes)| && Within(old(nodes), nodes)
        invariant 0 <= k <= |nodes| && item == if k < |nodes| then nodes[k] else null
        invariant StableSorting.Sort(less, Items()) == StableSorting.Sort(less, old(Items()))
        invariant if swapped then Inversions(less, Items()) < Inversions(less, old(Items()))
                  else Items() == old(Items())
        invariant !swapped ==> forall i :: 0 <= i < k && i + 1 < |nodes| ==> !less(nodes[i + 1].val, nodes[i].val)
        decreases |nodes| - k
      {
        if item.next != null && less(item.next.val, item.val) {
          SwapWithNext(less, item, k);
          swapped := true;
          k := k + 1;
        }
        item := item.next;
        k := k + 1;
      }
      if !swapped { NeighboursSorted(less, Items()); }
    }
  }

  // No object that was not in the list before.
  ghost predicate Within<T>(s: seq<ListObject<T>>, t: seq<ListObject<T>>) {
    |t| <= |s| && forall i :: 0 <= i < |t| ==> t[i] in s
  }

  // What moving an object in front of its neighbour does to the items.
  lemma NeighboursSwapped<K, T(!new)>(less: (T, T) -> bool, s: seq<(K, T)>, t: seq<(K, T)>, k: nat)
    requires StrictWeak(less) && k + 1 < |s| == |t| && less(s[k + 1].1, s[k].1)
    requires forall i :: 0 <= i < |s| ==> t[i] == s[if i == k then k + 1 else if i == k + 1 then k else i]
    ensures StableSorting.Sort(less, t) == StableSorting.Sort(less, s)
    ensures Inversions(less, s) == Inversions(less, t) + 1
  {
    var a, x, y, b := s[..k], s[k], s[k + 1], s[k + 2..];
    assert s == a + [x, y] + b && t == a + [y, x] + b;
    SwapKeepsSort(less, a, x, y, b);
    SwapRemovesInversion(less, a, x, y, b);
  }
}
