/** The marks of a recording: a list of marks on the heap that is kept sorted by position. */
module MarkList {
  import opened ObjectList
  import opened CutTimes
  import opened CutSorting

  datatype Mark = Mark(position: int, comment: Comment, checked: bool)

  class Marks {
    const list: ListBase<Mark>

    ghost predicate Valid()
      reads list, list.nodes
    {
      list.Valid()
    }

    // Positions and comments, in list order.
    ghost function Cuts(): (cs: seq<Cut>)
      reads list, list.nodes
      ensures |cs| == |list.nodes|
      ensures forall i :: 0 <= i < |cs| ==> cs[i] == (list.nodes[i].val.position, list.nodes[i].val.comment)
    {
      seq(|list.nodes|, i requires 0 <= i < |list.nodes| reads list, list.nodes =>
        (list.nodes[i].val.position, list.nodes[i].val.comment))
    }

    // Which marks have been checked, in list order.
    ghost function Checked(): (bs: seq<bool>)
      reads list, list.nodes
      ensures |bs| == |list.nodes| && forall i :: 0 <= i < |bs| ==> bs[i] == list.nodes[i].val.checked
    {
      seq(|list.nodes|, i requires 0 <= i < |list.nodes| reads list, list.nodes => list.nodes[i].val.checked)
    }

    ghost function Positions(): seq<int>
      reads list, list.nodes
    {
      CutSorting.Positions(Cuts())
    }

    constructor ()
      ensures Valid() && Cuts() == [] && fresh(list)
    {
      list := new ListBase<Mark>();
    }

    // Two marks trade position and comment; what has been checked stays where it is.
    method SwapContents(m1: ListObject<Mark>, m2: ListObject<Mark>, ghost i: nat, ghost j: nat)
      requires Valid() && i < j < |list.nodes| && list.nodes[i] == m1 && list.nodes[j] == m2
      modifies m1`val, m2`val
      ensures Valid() && Cuts() == Swap(old(Cuts()), i, j) && Checked() == old(Checked())
    {
      assert m1 != m2;
      var v1, v2 := m1.val, m2.val;
      m1.val := Mark(v2.position, v2.comment, v1.checked);
      m2.val := Mark(v1.position, v1.comment, v2.checked);
    }

    method Front() returns (m: ListObject?<Mark>)
      requires Valid()
      ensures m == if list.nodes == [] then null else list.nodes[0]
    {
      m := list.objects;
    }

    // The mark behind the one at place k.
    method Behind(m: ListObject<Mark>, ghost k: nat) returns (next: ListObject?<Mark>)
      requires Valid() && k < |list.nodes| && list.nodes[k] == m
      ensures next == if k + 1 < |list.nodes| then list.nodes[k + 1] else null
    {
      next := m.next;
    }

    method Compare(m1: ListObject<Mark>, m2: ListObject<Mark>, ghost i: nat, ghost j: nat)
      requires Valid() && i < j < |list.nodes| && list.nodes[i] == m1 && list.nodes[j] == m2
      modifies list.nodes
      ensures Valid() && list.nodes == old(list.nodes) && Checked() == old(Checked())
      ensures Pulling(Cuts(), i, j + 1) == Pulling(old(Cuts()), i, j)
    {
      hide Pulling, Swap, Distinct, Chained;
      PullingStep(Cuts(), i, j);
      if m2.val.position < m1.val.position {
        SwapContents(m1, m2, i, j);
      }
    }

    // The inner loop of Sort, for the mark at place i.
    method PullLeast(m1: ListObject<Mark>, ghost i: nat)
      requires Valid() && i < |list.nodes| && list.nodes[i] == m1
      modifies list.nodes
      ensures Valid() && list.nodes == old(list.nodes)
      ensures Cuts() == Pulling(old(Cuts()), i, i + 1) && Checked() == old(Checked())
    {
      hide *;
      var m2 := Behind(m1, i);
      ghost var j := i + 1;
      while m2 != null
        invariant Valid() && list.nodes == old(list.nodes) && i < j <= |list.nodes|
        invariant m2 == if j < |list.nodes| then list.nodes[j] else null
        invariant Pulling(Cuts(), i, j) == Pulling(old(Cuts()), i, i + 1) && Checked() == old(Checked())
        decreases |list.nodes| - j
      {
        Compare(m1, m2, i, j);
        m2 := Behind(m2, j);
        j := j + 1;
      }
      PullingStep(Cuts(), i, j);
    }

    method Sort()
      requires Valid()
      modifies list.nodes
      ensures Valid() && list.nodes == old(list.nodes)
      ensures Cuts() == Exchange(old(Cuts())) && Checked() == old(Checked())
    {
      hide *;
      ExchangingStart(Cuts());
      var m1 := Front();
      ghost var i := 0;
      while m1 != null
        invariant Valid() && list.nodes == old(list.nodes) && 0 <= i <= |list.nodes|
        invariant m1 == if i < |list.nodes| then list.nodes[i] else null
        invariant Exchanging(Cuts(), i) == Exchange(old(Cuts())) && Checked() == old(Checked())
        decreases |list.nodes| - i
      {
        ExchangingStep(Cuts(), i);
        PullLeast(m1, i);
        m1 := Behind(m1, i);
        i := i + 1;
      }
      ExchangingStep(Cuts(), i);
    }

    // The first mark at a position.
    method Get(p: int) returns (m: ListObject?<Mark>, ghost k: nat)
      requires Valid()
      ensures k <= |list.nodes| && m == if k < |list.nodes| then list.nodes[k] else null
      ensures k < |list.nodes| <==> p in Positions()
      ensures k < |list.nodes| ==> Cuts()[k].0 == p && forall i :: 0 <= i < k ==> Cuts()[i].0 != p
      ensures m == null <==> p !in Positions()
      ensures m != null ==> m.val.position == p
    {
      m, k := list.objects, 0;
      while m != null
        invariant 0 <= k <= |list.nodes| && m == if k < |list.nodes| then list.nodes[k] else null
        invariant forall i :: 0 <= i < k ==> Cuts()[i].0 != p
        decreases |list.nodes| - k
      {
        if m.val.position == p {
          assert Positions()[k] == p;
          return;
        }
        m := m.next;
        k := k + 1;
      }
    }

    // The first mark behind a position.
    method GetNext(p: int) returns (m: ListObject?<Mark>, ghost k: nat)
      requires Valid()
      ensures k <= |list.nodes| && m == if k < |list.nodes| then list.nodes[k] else null
      ensures forall i :: 0 <= i < k ==> Cuts()[i].0 <= p
      ensures k < |list.nodes| ==> Cuts()[k].0 > p
      ensures m != null ==> m.val.position > p
    {
      m, k := list.objects, 0;
      while m != null
        invariant 0 <= k <= |list.nodes| && m == if k < |list.nodes| then list.nodes[k] else null
        invariant forall i :: 0 <= i < k ==> Cuts()[i].0 <= p
        decreases |list.nodes| - k
      {
        if m.val.position > p { return; }
        m := m.next;
        k := k + 1;
      }
    }

    // The last mark in front of a position.
    method GetPrev(p: int) returns (m: ListObject?<Mark>, ghost k: int)
      requires Valid()
      ensures -1 <= k < |list.nodes| && m == if k >= 0 then list.nodes[k] else null
      ensures forall i :: k < i < |list.nodes| ==> Cuts()[i].0 >= p
      ensures k >= 0 ==> Cuts()[k].0 < p
      ensures m != null ==> m.val.position < p
    {
      m, k := list.lastObject, |list.nodes| - 1;
      while m != null
        invariant -1 <= k < |list.nodes| && m == if k >= 0 then list.nodes[k] else null
        invariant forall i :: k < i < |list.nodes| ==> Cuts()[i].0 >= p
        decreases k
      {
        if m.val.position < p { return; }
        m := m.prev;
        k := k - 1;
      }
    }

    // Every object of the list was in it before or is new.
    twostate predicate OldOrFresh()
      reads list, list.nodes
    {
      forall i :: 0 <= i < |list.nodes| ==> list.nodes[i] in old(list.nodes) || fresh(list.nodes[i])
    }

    // Adds a mark unless there is one. The object that is returned is the last of the list: after the
    // contents have been sorted it holds the last mark, whichever that is.
    method Add(p: int) returns (m: ListObject<Mark>)
      requires Valid()
      modifies list, list.nodes
      ensures Valid() && OldOrFresh()
      ensures p in old(Positions()) ==>
        list.nodes == old(list.nodes) && Cuts() == old(Cuts()) && Checked() == old(Checked())
      ensures p in old(Positions()) ==> m in list.nodes && m.val.position == p
      ensures p !in old(Positions()) ==> |list.nodes| == |old(list.nodes)| + 1 && m == list.nodes[|list.nodes| - 1]
      ensures p !in old(Positions()) ==> Cuts() == Exchange(old(Cuts()) + [(p, NoComment)])
      ensures p !in old(Positions()) ==> Checked() == old(Checked()) + [false]
      ensures Increasing(old(Positions())) ==>
        (m.val.position == p <==> p in old(Positions()) || forall i :: 0 <= i < |old(Cuts())| ==> old(Cuts())[i].0 < p)
    {
      hide Exchange, Cuts, Checked, CutSorting.Positions, Increasing, Distinct, Chained;
      ghost var cuts := Cuts();
      var found, k := Get(p);
      if found != null { return found; }
      m := Append(Mark(p, NoComment, false));
      Sort();
      if Increasing(CutSorting.Positions(cuts)) { LastCut(cuts, p); }
    }

    method Append(mark: Mark) returns (m: ListObject<Mark>)
      requires Valid()
      modifies list, list.nodes
      ensures Valid() && fresh(m) && list.nodes == old(list.nodes) + [m]
      ensures Cuts() == old(Cuts()) + [(mark.position, mark.comment)] && Checked() == old(Checked()) + [mark.checked]
    {
      m := new ListObject<Mark>(mark);
      list.Add(m);
      assert list.nodes[|list.nodes| - 1] == m;
    }

    method Del(m: ListObject<Mark>, ghost k: nat)
      requires Valid() && k < |list.nodes| && list.nodes[k] == m
      modifies list, list.nodes
      ensures Valid() && list.nodes == RemoveAt(old(list.nodes), k)
      ensures Cuts() == RemoveAt(old(Cuts()), k) && Checked() == RemoveAt(old(Checked()), k)
    {
      hide Distinct, Chained;
      ghost var cuts, checked := Cuts(), Checked();
      list.Del(m, k);
      assert Cuts() == RemoveAt(cuts, k) && Checked() == RemoveAt(checked, k);
    }

    // Gives the mark at k a comment.
    method Annotate(m: ListObject<Mark>, ghost k: nat, comment: Comment)
      requires Valid() && k < |list.nodes| && list.nodes[k] == m
      requires forall i :: 0 <= i < k ==> Cuts()[i].0 != m.val.position
      modifies m`val
      ensures Valid() && Cuts() == SetComment(old(Cuts()), old(m.val.position), comment) && Checked() == old(Checked())
    {
      hide SetComment;
      ghost var cuts := Cuts();
      SetCommentAt(cuts, k, comment);
      m.val := m.val.(comment := comment);
      assert Cuts() == cuts[k := (cuts[k].0, comment)];
    }

    // Adds a mark where there is none, and gives it a comment if marks are to have one.
    method AddWithComment(p: int, comment: Comment, markComments: bool)
      requires Valid() && Increasing(Positions()) && p !in Positions()
      modifies list, list.nodes
      ensures Valid() && OldOrFresh()
      ensures Cuts() == InsertCut(old(Cuts()), (p, if markComments then comment else NoComment))
      ensures Checked() == old(Checked()) + [false]
    {
      hide Cuts, Checked, Exchange, InsertCut, SetComment, Increasing, CutSorting.Positions;
      ghost var cuts := Cuts();
      ExchangeInserts(cuts, (p, NoComment));
      InsertWithComment(cuts, p, comment);
      var m := Add(p);
      if markComments && comment != NoComment {
        var added, k := Get(p);
        if added != null {
          Annotate(added, k, comment);
        } else {
          InsertHas(CutSorting.Positions(cuts), p);
          InsertCutPositions(cuts, (p, NoComment));
          assert false;
        }
      }
    }

    // Deletes the mark at a position, or adds one there.
    method MarkToggle(p: int, comment: Comment, markComments: bool) returns (ghost k: nat)
      requires Valid() && Increasing(Positions())
      modifies list, list.nodes
      ensures Valid() && Positions() == Toggle(old(Positions()), p) && Increasing(Positions())
      ensures p !in old(Positions()) ==>
        Cuts() == InsertCut(old(Cuts()), (p, if markComments then comment else NoComment))
      ensures p in old(Positions()) ==>
        k < |old(Cuts())| && old(Cuts())[k].0 == p && Cuts() == RemoveAt(old(Cuts()), k)
    {
      hide Cuts, Checked, InsertCut, Toggle, Insert, Remove, Increasing, CutSorting.Positions;
      hide Distinct, Chained, RemoveAt;
      ghost var cuts, ps := Cuts(), Positions();
      ToggleIncreasing(ps, p);
      ToggleIs(ps, p);
      var m;
      m, k := Get(p);
      if m != null {
        Del(m, k);
        RemovedPositions(cuts, k);
      } else {
        AddWithComment(p, comment, markComments);
        InsertCutPositions(cuts, (p, if markComments then comment else NoComment));
      }
    }

    // Adds a mark to an increasing list of marks.
    method AddSorted(p: int)
      requires Valid() && Increasing(Positions())
      modifies list, list.nodes
      ensures Valid() && OldOrFresh() && Increasing(Positions())
      ensures Cuts() == if p in old(Positions()) then old(Cuts()) else InsertCut(old(Cuts()), (p, NoComment))
    {
      hide Cuts, Checked, InsertCut, Increasing, CutSorting.Positions, Exchange, Insert, Distinct, Chained;
      ghost var cuts, ps := Cuts(), Positions();
      if p !in ps {
        ExchangeInserts(cuts, (p, NoComment));
        InsertCutPositions(cuts, (p, NoComment));
        InsertIncreasing(ps, p);
      }
      var added := Add(p);
    }

    // Takes a mark away and adds one at another position. The comment is the text that tells where the mark
    // came from; if marks are to have comments, the mark at the new position gets it even if it is an old one.
    method MoveMark(m: ListObject<Mark>, p: int, comment: Comment, markComments: bool, ghost k: nat)
      requires Valid() && Increasing(Positions()) && k < |list.nodes| && list.nodes[k] == m
      modifies list, list.nodes
      ensures Valid() && Increasing(Positions())
      ensures var left := Remove(old(Positions()), old(m.val.position));
        Positions() == if p in left then left else Insert(left, p)
      ensures Cuts() == Moved(old(Cuts()), k, p, if markComments then comment else NoComment)
    {
      hide Cuts, Checked, InsertCut, Increasing, CutSorting.Positions, Distinct, Chained, SetComment, Remove, Insert;
      ghost var cuts := Cuts();
      RemovedIncreasing(cuts, k);
      RemovedPositions(cuts, k);
      MovedPositions(cuts, k, p, if markComments then comment else NoComment);
      Del(m, k);
      AddSorted(p);
      if markComments && comment != NoComment { CommentAt(p, comment); }
    }

    // Gives the mark at a position a comment, if there is one.
    method CommentAt(p: int, comment: Comment)
      requires Valid()
      modifies list.nodes
      ensures Valid() && list.nodes == old(list.nodes) && Checked() == old(Checked())
      ensures Cuts() == SetComment(old(Cuts()), p, comment)
    {
      hide Cuts, Checked, SetComment, Distinct, Chained, CutSorting.Positions;
      var m, k := Get(p);
      if m != null {
        Annotate(m, k, comment);
      } else {
        NoneToComment(Cuts(), p, comment);
      }
    }

    // The marks in pairs, from the first mark at frame 0 or later.
    method GetActiveFrames(total: int) returns (frames: int)
      requires Valid() && FromZero(Positions())
      ensures frames == PairSum(Positions(), total)
    {
      hide Cuts, CutSorting.Positions;
      ghost var ps := Positions();
      var m, j := GetNext(-1);
      if ps != [] { assert ps[0] == Cuts()[0].0; }
      frames := 0;
      if m == null { return; }
      var lastPos := m.val.position;
      assert ps[0..] == ps;
      m := m.next;
      while m != null
        invariant 0 <= j <= |ps| == |list.nodes| && (j == |ps| ==> m == null && lastPos == 0)
        invariant j < |ps| ==> lastPos == ps[j] && m == if j + 1 < |ps| then list.nodes[j + 1] else null
        invariant frames + PairSum(ps[j..], total) == PairSum(ps, total)
        decreases |ps| - j
      {
        assert m.val.position == Cuts()[j + 1].0 == ps[j + 1];
        assert ps[j..][0] == ps[j] && ps[j..][1] == ps[j + 1] && ps[j..][2..] == ps[j + 2..];
        frames := frames + (m.val.position - lastPos);
        lastPos := 0;
        m := m.next;
        if m != null {
          lastPos := m.val.position;
          assert lastPos == Cuts()[j + 2].0 == ps[j + 2];
          m := m.next;
        }
        j := j + 2;
      }
      if lastPos != 0 { frames := frames + (total - lastPos); }
    }

    // The mark behind the one at k.
    method Following(m: ListObject<Mark>, ghost k: nat) returns (next: ListObject?<Mark>)
      requires Valid() && Increasing(Positions()) && k < |list.nodes| && list.nodes[k] == m
      ensures next == if k + 1 < |list.nodes| then list.nodes[k + 1] else null
    {
      hide Cuts, CutSorting.Positions;
      ghost var ps, j := Positions(), 0;
      assert m.val.position == Cuts()[k].0 == ps[k];
      next, j := GetNext(m.val.position);
      assert forall i :: 0 <= i < |ps| ==> ps[i] == Cuts()[i].0;
      NextIndex(ps, k, j);
    }

    // The first mark.
    method First() returns (m: ListObject?<Mark>)
      requires Valid() && FromZero(Positions())
      ensures m == if list.nodes == [] then null else list.nodes[0]
    {
      ghost var k;
      m, k := GetNext(-1);
      if list.nodes != [] { assert Positions()[0] == Cuts()[0].0; }
    }

    method DelPair(m1: ListObject<Mark>, m2: ListObject<Mark>, ghost k: nat)
      requires Valid() && 0 < k < |list.nodes| && list.nodes[k - 1] == m1 && list.nodes[k] == m2
      modifies list, list.nodes
      ensures Valid() && Within(old(list.nodes), list.nodes) && |list.nodes| == |old(list.nodes)| - 2
      ensures Cuts() == WithoutCuts(old(Cuts()), k)
    {
      hide Cuts, CutSorting.Positions, Checked, Distinct, Chained, RemoveAt, WithoutCuts, Valid;
      ghost var nodes, cuts := list.nodes, Cuts();
      BothRemoved(cuts, nodes, k);
      Del(m1, k - 1);
      Del(m2, k - 1);
    }

    // While the gaps are cleaned: the marks up to k are done, and what is still to come will end where
    // a single pass over the original list ends.
    ghost predicate Cleaning(goal: seq<int>, before: seq<Cut>, min: real, k: int)
      reads list, list.nodes
    {
      && Valid() && FromZero(Positions()) && Kept(Cuts(), before)
      && Greedy(Positions(), min) == goal && k >= 0 && Scanned(Positions(), k, min)
    }

    // Deletes the marks around a short gap, and goes back to the first mark.
    method DropGap(mprev: ListObject<Mark>, m: ListObject<Mark>, min: real,
                   ghost k: nat, ghost goal: seq<int>, ghost before: seq<Cut>) returns (first: ListObject?<Mark>)
      requires Cleaning(goal, before, min, k) && 0 < k < |list.nodes|
      requires list.nodes[k - 1] == mprev && list.nodes[k] == m && (Positions()[k] - Positions()[k - 1]) as real < min
      modifies list, list.nodes
      ensures Cleaning(goal, before, min, 0) && first == if list.nodes == [] then null else list.nodes[0]
      ensures Within(old(list.nodes), list.nodes) && |list.nodes| == |old(list.nodes)| - 2
    {
      hide Cuts, CutSorting.Positions, Greedy, Scanned, Without, Increasing, Kept, Distinct, Chained;
      ScannedCut(Positions(), k, min);
      WithoutIsKept(Cuts(), k, before);
      DelPair(mprev, m, k);
      ScannedNone(Positions(), min);
      first := First();
    }

    // Goes on to the next mark.
    method Advance(m: ListObject<Mark>, min: real, ghost k: nat, ghost goal: seq<int>, ghost before: seq<Cut>)
      returns (next: ListObject?<Mark>)
      requires Cleaning(goal, before, min, k) && k < |list.nodes| && list.nodes[k] == m
      requires k > 0 ==> (Positions()[k] - Positions()[k - 1]) as real >= min || Positions()[k] <= Positions()[k - 1]
      ensures Cleaning(goal, before, min, k + 1)
      ensures next == if k + 1 < |list.nodes| then list.nodes[k + 1] else null
    {
      hide Cuts, CutSorting.Positions, Greedy, Scanned, Increasing, Kept, Distinct, Chained;
      if k > 0 { InOrder(Positions(), k - 1, k); }
      ScannedOne(Positions(), k, min);
      next := Following(m, k);
    }

    // Deletes the two marks around the first gap shorter than min, and starts again.
    method DropGaps(min: real)
      requires Valid() && FromZero(Positions())
      modifies list, list.nodes
      ensures Valid() && Positions() == Greedy(old(Positions()), min) && Kept(Cuts(), old(Cuts()))
    {
      hide Cleaning, Cuts, CutSorting.Positions, Greedy, Valid;
      ghost var goal, before, k := Greedy(Positions(), min), Cuts(), 0;
      var lastPos := 0;
      var mprev: ListObject?<Mark> := null;
      var m := First();
      CleaningStarts(min);
      while m != null
        invariant Cleaning(goal, before, min, k) && Within(old(list.nodes), list.nodes) && At(m, mprev, lastPos, k)
        decreases |list.nodes|, |list.nodes| - k, if k == 0 && m != null && lastPos != m.val.position then 1 else 0
      {
        assert m.val.position == Cuts()[k].0 == Positions()[k];
        var diff := m.val.position - lastPos;
        lastPos := m.val.position;
        if diff > 0 && diff as real < min {
          if mprev != null {
            m := DropGap(mprev, m, min, k, goal, before);
            mprev, lastPos, k := null, 0, 0;
          }
        } else {
          mprev := m;
          m := Advance(m, min, k, goal, before);
          k := k + 1;
        }
      }
      CleaningEnds(goal, before, min);
    }

    // Seventeen seconds between two sections are too short, ...
    method CleanInactiveMarks(framesPerSec: real)
      requires Valid() && FromZero(Positions())
      modifies list, list.nodes
      ensures Valid() && Positions() == Greedy(old(Positions()), 17.0 * framesPerSec) && Kept(Cuts(), old(Cuts()))
    {
      hide *;
      DropGaps(17.0 * framesPerSec);
    }

    // ... and so is a section of less than a minute.
    method CleanActiveMarks(framesPerSec: real)
      requires Valid() && FromZero(Positions())
      modifies list, list.nodes
      ensures Valid() && Positions() == CleanActive(old(Positions()), 60.0 * framesPerSec) && Kept(Cuts(), old(Cuts()))
    {
      hide *;
      DropSections(60.0 * framesPerSec);
    }

    lemma CleaningStarts(min: real)
      requires Valid() && FromZero(Positions())
      ensures Cleaning(Greedy(Positions(), min), Cuts(), min, 0)
    {
      ScannedNone(Positions(), min);
      KeptAll(Cuts());
    }

    lemma CleaningEnds(goal: seq<int>, before: seq<Cut>, min: real)
      requires Cleaning(goal, before, min, |list.nodes|)
      ensures Valid() && Positions() == goal && Kept(Cuts(), before)
    {
      ScannedAll(Positions(), min);
    }

    // The cursor of the cleaning loops: the mark at k, the one before it, and that one's position. At
    // the start of the list the position is 0, or already that of the first mark.
    ghost predicate At(m: ListObject?<Mark>, mprev: ListObject?<Mark>, lastPos: int, k: int)
      reads list, list.nodes
    {
      && 0 <= k <= |list.nodes| && m == (if k < |list.nodes| then list.nodes[k] else null)
      && mprev == (if k > 0 then list.nodes[k - 1] else null)
      && if k > 0 then lastPos == Positions()[k - 1] else m != null ==> lastPos == 0 || lastPos == Positions()[0]
    }

    // While the active sections are cleaned.
    ghost predicate Sectioning(goal: seq<int>, before: seq<Cut>, min: real, phase: int, k: int)
      reads list, list.nodes
    {
      && Valid() && FromZero(Positions()) && Kept(Cuts(), before)
      && Sectioned(goal, Positions(), min, phase, k)
    }

    // Deletes the marks around a short section, and goes back to the first mark.
    method DropSection(mprev: ListObject<Mark>, m: ListObject<Mark>, min: real,
                       ghost phase: int, ghost k: int, ghost goal: seq<int>, ghost before: seq<Cut>)
      returns (first: ListObject?<Mark>)
      requires Sectioning(goal, before, min, phase, k) && 0 < k < |list.nodes|
      requires list.nodes[k - 1] == mprev && list.nodes[k] == m && (Positions()[k] - Positions()[k - 1]) as real < min
      modifies list, list.nodes
      ensures Sectioning(goal, before, min, 1, 0) && first == if list.nodes == [] then null else list.nodes[0]
      ensures Within(old(list.nodes), list.nodes) && |list.nodes| == |old(list.nodes)| - 2
    {
      hide Cuts, CutSorting.Positions, Sectioned, Without, Increasing, Kept, Distinct, Chained;
      SectionCut(goal, Positions(), min, phase, k);
      WithoutIsKept(Cuts(), k, before);
      WithoutFromZero(Positions(), k);
      DelPair(mprev, m, k);
      first := First();
    }

    // Goes on to the next section: the mark behind the one at k, and the one behind that.
    method NextSection(m: ListObject<Mark>, min: real,
                       ghost phase: int, ghost k: int, ghost goal: seq<int>, ghost before: seq<Cut>)
      returns (first: ListObject?<Mark>, second: ListObject?<Mark>)
      requires Sectioning(goal, before, min, phase, k) && 0 <= k < |list.nodes| && list.nodes[k] == m
      requires k > 0 ==> (Positions()[k] - Positions()[k - 1]) as real >= min || Positions()[k] <= Positions()[k - 1]
      ensures Sectioning(goal, before, min, phase, k + 2)
      ensures first == if k + 1 < |list.nodes| then list.nodes[k + 1] else null
      ensures second == if k + 2 < |list.nodes| then list.nodes[k + 2] else null
    {
      hide Cuts, CutSorting.Positions, Sectioned, Increasing, Kept, Distinct, Chained;
      if k > 0 { InOrder(Positions(), k - 1, k); }
      SectionNext(goal, Positions(), min, phase, k);
      first := Following(m, k);
      second := null;
      if first != null { second := Following(first, k + 1); }
    }

    // Deletes the marks around the first section shorter than min, and starts again; from then on the
    // gaps between the sections are taken for the sections.
    method DropSections(min: real)
      requires Valid() && FromZero(Positions())
      modifies list, list.nodes
      ensures Valid() && Positions() == CleanActive(old(Positions()), min) && Kept(Cuts(), old(Cuts()))
    {
      hide Sectioning, Cuts, CutSorting.Positions, CleanActive, Valid;
      ghost var goal, before, phase, k := CleanActive(Positions(), min), Cuts(), 0, 1;
      var m := First();
      SectioningStarts(min);
      if m == null {
        SectioningEnds(goal, before, min, phase, k);
        return;
      }
      var mprev: ListObject?<Mark>, lastPos := m, m.val.position;
      assert lastPos == Cuts()[0].0 == Positions()[0];
      m := Second(m);
      while m != null
        invariant Sectioning(goal, before, min, phase, k) && Within(old(list.nodes), list.nodes) && k >= 0
        invariant m == if k < |list.nodes| then list.nodes[k] else null
        invariant m != null ==> mprev == if k > 0 then list.nodes[k - 1] else null
        invariant m != null ==>
          if k > 0 then lastPos == Positions()[k - 1] else lastPos == 0 || lastPos == Positions()[0]
        decreases |list.nodes|, |list.nodes| - k, if k == 0 && m != null && lastPos != m.val.position then 1 else 0
      {
        assert m.val.position == Cuts()[k].0 == Positions()[k];
        var diff := m.val.position - lastPos;
        lastPos := m.val.position;
        if diff > 0 && diff as real < min {
          if mprev != null {
            m := DropSection(mprev, m, min, phase, k, goal, before);
            mprev, lastPos, phase, k := null, 0, 1, 0;
          }
        } else {
          mprev, m := NextSection(m, min, phase, k, goal, before);
          if mprev != null {
            lastPos := mprev.val.position;
            assert lastPos == Cuts()[k + 1].0 == Positions()[k + 1];
          }
          k := k + 2;
        }
      }
      SectioningEnds(goal, before, min, phase, k);
    }

    method Second(m: ListObject<Mark>) returns (next: ListObject?<Mark>)
      requires Valid() && Increasing(Positions()) && list.nodes != [] && list.nodes[0] == m
      ensures next == if 1 < |list.nodes| then list.nodes[1] else null
    {
      next := Following(m, 0);
    }

    lemma SectioningStarts(min: real)
      requires Valid() && FromZero(Positions())
      ensures Sectioning(CleanActive(Positions(), min), Cuts(), min, 0, 1)
    {
      KeptAll(Cuts());
    }

    lemma SectioningEnds(goal: seq<int>, before: seq<Cut>, min: real, phase: int, k: int)
      requires Sectioning(goal, before, min, phase, k) && k >= |list.nodes|
      ensures Valid() && Positions() == goal && Kept(Cuts(), before)
    {
      SectionEnd(goal, Positions(), min, phase, k);
    }
  }

  lemma BothRemoved(cuts: seq<Cut>, nodes: seq<ListObject<Mark>>, k: nat)
    requires 0 < k < |cuts| == |nodes|
    ensures RemoveAt(RemoveAt(cuts, k - 1), k - 1) == WithoutCuts(cuts, k)
    ensures |RemoveAt(nodes, k - 1)| == |nodes| - 1 && RemoveAt(nodes, k - 1)[k - 1] == nodes[k]
    ensures Within(nodes, RemoveAt(nodes, k - 1))
    ensures var left := RemoveAt(RemoveAt(nodes, k - 1), k - 1); |left| == |nodes| - 2 && Within(nodes, left)
  {
    assert RemoveAt(RemoveAt(nodes, k - 1), k - 1) == nodes[..k - 1] + nodes[k + 1..];
  }

  lemma WithoutFromZero(ps: seq<int>, k: nat)
    requires FromZero(ps) && 0 < k < |ps|
    ensures FromZero(Without(ps, k))
  {
    hide Increasing;
    DropIncreasing(ps, k - 1);
    DropIncreasing(RemoveAt(ps, k - 1), k - 1);
    assert RemoveAt(RemoveAt(ps, k - 1), k - 1) == Without(ps, k);
    if k + 1 < |ps| { InOrder(ps, 0, k + 1); }
  }

  lemma DropIncreasing(ps: seq<int>, k: nat)
    requires Increasing(ps) && k < |ps|
    ensures Increasing(RemoveAt(ps, k))
  {
    hide Increasing, Remove;
    RemoveAtPosition(ps, k);
    RemoveIncreasing(ps, ps[k]);
  }

  lemma RemovedIncreasing(cs: seq<Cut>, k: nat)
    requires k < |cs| && Increasing(CutSorting.Positions(cs))
    ensures Increasing(CutSorting.Positions(RemoveAt(cs, k)))
  {
    hide CutSorting.Positions, Remove, Increasing;
    RemovedPositions(cs, k);
    assert CutSorting.Positions(cs)[k] == cs[k].0;
    RemoveIncreasing(CutSorting.Positions(cs), cs[k].0);
  }

  // The cuts when the one at k has been moved to p.
  function Moved(cuts: seq<Cut>, k: nat, p: int, comment: Comment): seq<Cut>
    requires k < |cuts|
  {
    var left := RemoveAt(cuts, k);
    var added := if p in CutSorting.Positions(left) then left else InsertCut(left, (p, NoComment));
    if comment == NoComment then added else SetComment(added, p, comment)
  }

  // Its positions, and the comment at the new one.
  lemma MovedPositions(cuts: seq<Cut>, k: nat, p: int, comment: Comment)
    requires k < |cuts| && Increasing(CutSorting.Positions(cuts))
    ensures var left := Remove(CutSorting.Positions(cuts), cuts[k].0);
      CutSorting.Positions(Moved(cuts, k, p, comment)) == if p in left then left else Insert(left, p)
    ensures Increasing(CutSorting.Positions(Moved(cuts, k, p, comment)))
    ensures comment != NoComment ==> (p, comment) in Moved(cuts, k, p, comment)
  {
    var left := RemoveAt(cuts, k);
    var added := if p in CutSorting.Positions(left) then left else InsertCut(left, (p, NoComment));
    hide *;
    MovedIs(cuts, k, p, comment);
    RemovedPositions(cuts, k);
    RemovedIncreasing(cuts, k);
    InsertCutPositions(left, (p, NoComment));
    SetCommentPositions(added, p, comment);
    if p !in CutSorting.Positions(left) { InsertIncreasing(CutSorting.Positions(left), p); }
  }

  // No other cut is changed.
  lemma MovedKeeps(cuts: seq<Cut>, k: nat, p: int, comment: Comment, i: nat)
    requires k < |cuts| && i < |cuts| && i != k && cuts[i].0 != p
    ensures cuts[i] in Moved(cuts, k, p, comment)
  {
    hide *;
    var left := RemoveAt(cuts, k);
    MovedIs(cuts, k, p, comment);
    RemoveAtKeeps(cuts, k, i);
    InsertCutKeeps(left, (p, NoComment), cuts[i]);
    SetCommentKeeps(left, p, comment, cuts[i]);
    SetCommentKeeps(InsertCut(left, (p, NoComment)), p, comment, cuts[i]);
  }

  lemma RemoveAtKeeps(cuts: seq<Cut>, k: nat, i: nat)
    requires k < |cuts| && i < |cuts| && i != k
    ensures cuts[i] in RemoveAt(cuts, k)
  {
    var left := RemoveAt(cuts, k);
    assert cuts[i] == left[if i < k then i else i - 1];
  }

  lemma {:induction false} InsertCutKeeps(cuts: seq<Cut>, more: Cut, c: Cut)
    requires c in cuts
    ensures c in InsertCut(cuts, more)
  {
    if !(cuts == [] || more.0 < cuts[0].0) && c != cuts[0] { InsertCutKeeps(cuts[1..], more, c); }
  }

  lemma SetCommentKeeps(cuts: seq<Cut>, p: int, comment: Comment, c: Cut)
    requires c.0 != p
    ensures c in cuts ==> c in SetComment(cuts, p, comment)
  {
    SetCommentPositions(cuts, p, comment);
    if c in cuts {
      var i :| 0 <= i < |cuts| && cuts[i] == c;
      assert SetComment(cuts, p, comment)[i] == c;
    }
  }

  lemma MovedIs(cuts: seq<Cut>, k: nat, p: int, comment: Comment)
    requires k < |cuts|
    ensures var left := RemoveAt(cuts, k);
      var added := if p in CutSorting.Positions(left) then left else InsertCut(left, (p, NoComment));
      Moved(cuts, k, p, comment) == if comment == NoComment then added else SetComment(added, p, comment)
  {
  }

  lemma {:induction false} SetCommentPositions(cuts: seq<Cut>, p: int, comment: Comment)
    ensures CutSorting.Positions(SetComment(cuts, p, comment)) == CutSorting.Positions(cuts)
    ensures p in CutSorting.Positions(cuts) ==> (p, comment) in SetComment(cuts, p, comment)
    ensures |SetComment(cuts, p, comment)| == |cuts|
    ensures forall i :: 0 <= i < |cuts| && cuts[i].0 != p ==> SetComment(cuts, p, comment)[i] == cuts[i]
  {
    if cuts != [] {
      assert CutSorting.Positions(cuts) == [cuts[0].0] + CutSorting.Positions(cuts[1..]);
      if cuts[0].0 == p {
        assert ([(p, comment)] + cuts[1..])[1..] == cuts[1..];
        assert ([(p, comment)] + cuts[1..])[0] == (p, comment);
      } else {
        SetCommentPositions(cuts[1..], p, comment);
        assert ([cuts[0]] + SetComment(cuts[1..], p, comment))[1..] == SetComment(cuts[1..], p, comment);
      }
    }
  }

  lemma {:induction false} NoneToComment(cuts: seq<Cut>, p: int, comment: Comment)
    requires p !in CutSorting.Positions(cuts)
    ensures SetComment(cuts, p, comment) == cuts
  {
    if cuts != [] {
      assert CutSorting.Positions(cuts) == [cuts[0].0] + CutSorting.Positions(cuts[1..]);
      NoneToComment(cuts[1..], p, comment);
    }
  }

  // Which cut comes last when one has been added and sorted in.
  lemma LastCut(cuts: seq<Cut>, p: int)
    requires Increasing(CutSorting.Positions(cuts)) && p !in CutSorting.Positions(cuts)
    ensures |Exchange(cuts + [(p, NoComment)])| == |cuts| + 1
    ensures Exchange(cuts + [(p, NoComment)])[|cuts|].0 == p <==> forall i :: 0 <= i < |cuts| ==> cuts[i].0 < p
  {
    hide *;
    var ps := CutSorting.Positions(cuts);
    ExchangeInserts(cuts, (p, NoComment));
    InsertCutPositions(cuts, (p, NoComment));
    InsertLast(ps, p);
    assert forall i :: 0 <= i < |cuts| ==> ps[i] == cuts[i].0;
  }

  lemma ToggleIncreasing(ps: seq<int>, p: int)
    requires Increasing(ps)
    ensures Increasing(Toggle(ps, p))
  {
    ToggleFlips(ps, p);
  }

  lemma ToggleIs(ps: seq<int>, p: int)
    ensures Toggle(ps, p) == if p in ps then Remove(ps, p) else Insert(ps, p)
    ensures p !in ps ==> p in Insert(ps, p)
  {
    if p !in ps { InsertHas(ps, p); }
  }

  lemma {:induction false} InsertHas(ps: seq<int>, p: int)
    ensures p in Insert(ps, p)
  {
    if ps != [] && p >= ps[0] { InsertHas(ps[1..], p); }
  }

  // Deleting the mark at k removes its position.
  lemma {:induction false} RemovedPositions(cs: seq<Cut>, k: nat)
    requires k < |cs| && Increasing(CutSorting.Positions(cs))
    ensures CutSorting.Positions(RemoveAt(cs, k)) == Remove(CutSorting.Positions(cs), cs[k].0)
  {
    var ps := CutSorting.Positions(cs);
    assert ps[1..] == CutSorting.Positions(cs[1..]) && ps[0] == cs[0].0;
    if k > 0 {
      assert cs[k] == cs[1..][k - 1] && RemoveAt(cs, k) == [cs[0]] + RemoveAt(cs[1..], k - 1);
      HeadIsLeast(ps, cs[k].0) by { assert ps[1..][k - 1] == cs[k].0; }
      RemovedPositions(cs[1..], k - 1);
    } else {
      assert RemoveAt(cs, k) == cs[1..];
    }
  }
}
