/** The positions of cut marks as a sorted list of frame numbers, and what they mean: a frame is
    active when an odd number of marks lies at or before it. */
module CutTimes {

  predicate Increasing(ps: seq<int>) {
    |ps| >= 2 ==> ps[0] < ps[1] && Increasing(ps[1..])
  }

  // Increasing, and no position before the first frame.
  predicate FromZero(ps: seq<int>) {
    Increasing(ps) && (ps != [] ==> ps[0] >= 0)
  }

  function Insert(ps: seq<int>, p: int): seq<int> {
    if ps == [] || p < ps[0] then [p] + ps else [ps[0]] + Insert(ps[1..], p)
  }

  function Remove(ps: seq<int>, p: int): seq<int> {
    if ps == [] then [] else if ps[0] == p then ps[1..] else [ps[0]] + Remove(ps[1..], p)
  }

  function Toggle(ps: seq<int>, p: int): seq<int> {
    if p in ps then Remove(ps, p) else Insert(ps, p)
  }

  function ToggleAll(ps: seq<int>, toggles: seq<int>): seq<int> {
    if toggles == [] then ps else Toggle(ToggleAll(ps, toggles[..|toggles| - 1]), toggles[|toggles| - 1])
  }

  function AtMost(ps: seq<int>, f: int): nat {
    if ps == [] then 0 else (if ps[0] <= f then 1 else 0) + AtMost(ps[1..], f)
  }

  predicate Active(ps: seq<int>, f: int) { AtMost(ps, f) % 2 == 1 }

  lemma {:induction false} InsertIncreasing(ps: seq<int>, p: int)
    requires Increasing(ps) && p !in ps
    ensures Increasing(Insert(ps, p)) && p in Insert(ps, p)
  {
    if ps == [] || p < ps[0] {
      assert ([p] + ps)[1..] == ps;
    } else {
      InsertIncreasing(ps[1..], p);
      assert ([ps[0]] + Insert(ps[1..], p))[1..] == Insert(ps[1..], p);
    }
  }

  // A position that is put in is the last one exactly when it lies behind all the others.
  lemma {:induction false} InsertLast(ps: seq<int>, p: int)
    requires Increasing(ps) && p !in ps
    ensures |Insert(ps, p)| == |ps| + 1
    ensures Insert(ps, p)[|ps|] == p <==> forall i :: 0 <= i < |ps| ==> ps[i] < p
  {
    if ps != [] {
      if p < ps[0] {
        assert ([p] + ps)[|ps|] == ps[|ps| - 1];
      } else {
        InsertLast(ps[1..], p);
        assert Insert(ps, p)[|ps|] == Insert(ps[1..], p)[|ps| - 1];
        assert forall i :: 1 <= i < |ps| ==> ps[i] == ps[1..][i - 1];
      }
    }
  }

  lemma {:induction false} HeadIsLeast(ps: seq<int>, x: int)
    requires Increasing(ps) && ps != [] && x in ps[1..]
    ensures ps[0] < x
  {
    if x != ps[1] {
      assert x in ps[1..][1..];
      HeadIsLeast(ps[1..], x);
    }
  }

  lemma {:induction false} RemoveIncreasing(ps: seq<int>, p: int)
    requires Increasing(ps) && p in ps
    ensures Increasing(Remove(ps, p)) && p !in Remove(ps, p)
  {
    if ps[0] == p {
      if p in ps[1..] { HeadIsLeast(ps, p); }
    } else {
      RemoveIncreasing(ps[1..], p);
      assert ([ps[0]] + Remove(ps[1..], p))[1..] == Remove(ps[1..], p);
    }
  }

  lemma {:induction false} RemoveInserted(ps: seq<int>, p: int)
    requires p !in ps
    ensures Remove(Insert(ps, p), p) == ps
  {
    if ps == [] || p < ps[0] {
      assert ([p] + ps)[1..] == ps;
    } else {
      RemoveInserted(ps[1..], p);
      assert ([ps[0]] + Insert(ps[1..], p))[1..] == Insert(ps[1..], p);
    }
  }

  lemma {:induction false} InsertRemoved(ps: seq<int>, p: int)
    requires Increasing(ps) && p in ps
    ensures Insert(Remove(ps, p), p) == ps
  {
    if ps[0] != p {
      HeadIsLeast(ps, p);
      InsertRemoved(ps[1..], p);
      assert ([ps[0]] + Remove(ps[1..], p))[1..] == Remove(ps[1..], p);
    }
  }

  lemma {:induction false} InsertAtMost(ps: seq<int>, p: int, f: int)
    ensures AtMost(Insert(ps, p), f) == AtMost(ps, f) + if p <= f then 1 else 0
  {
    if ps == [] || p < ps[0] {
      assert ([p] + ps)[1..] == ps;
    } else {
      InsertAtMost(ps[1..], p, f);
      assert ([ps[0]] + Insert(ps[1..], p))[1..] == Insert(ps[1..], p);
    }
  }

  lemma {:induction false} RemoveAtMost(ps: seq<int>, p: int, f: int)
    requires p in ps
    ensures AtMost(ps, f) == AtMost(Remove(ps, p), f) + if p <= f then 1 else 0
  {
    if ps[0] != p {
      RemoveAtMost(ps[1..], p, f);
      assert ([ps[0]] + Remove(ps[1..], p))[1..] == Remove(ps[1..], p);
    }
  }

  // A toggle keeps the list sorted and free of duplicates, and flips exactly the frames from its
  // position on.
  lemma ToggleFlips(ps: seq<int>, p: int)
    requires Increasing(ps)
    ensures Increasing(Toggle(ps, p)) && (p in Toggle(ps, p) <==> p !in ps)
    ensures forall f :: Active(Toggle(ps, p), f) <==> (Active(ps, f) != (p <= f))
  {
    if p in ps { RemoveIncreasing(ps, p); } else { InsertIncreasing(ps, p); }
    forall f ensures Active(Toggle(ps, p), f) <==> (Active(ps, f) != (p <= f)) {
      if p in ps { RemoveAtMost(ps, p, f); } else { InsertAtMost(ps, p, f); }
    }
  }

  // Toggling the same position again takes the first toggle back.
  lemma ToggleTwice(ps: seq<int>, p: int)
    requires Increasing(ps)
    ensures Toggle(Toggle(ps, p), p) == ps
  {
    ToggleFlips(ps, p);
    if p in ps { InsertRemoved(ps, p); } else { RemoveInserted(ps, p); }
  }

  // After any run of toggles on an empty list, a frame is active iff an odd number of them lay at or
  // before it.
  lemma {:induction false} ToggleRun(toggles: seq<int>)
    ensures Increasing(ToggleAll([], toggles))
    ensures forall f :: Active(ToggleAll([], toggles), f) <==> AtMost(toggles, f) % 2 == 1
  {
    if toggles != [] {
      var front, p := toggles[..|toggles| - 1], toggles[|toggles| - 1];
      ToggleRun(front);
      ToggleFlips(ToggleAll([], front), p);
      forall f ensures AtMost(toggles, f) == AtMost(front, f) + if p <= f then 1 else 0 {
        AtMostLast(front, p, f);
        assert toggles == front + [p];
      }
    }
  }

  lemma {:induction false} AtMostLast(ps: seq<int>, p: int, f: int)
    ensures AtMost(ps + [p], f) == AtMost(ps, f) + if p <= f then 1 else 0
  {
    if ps != [] {
      AtMostLast(ps[1..], p, f);
      assert (ps + [p])[1..] == ps[1..] + [p];
    }
  }

  // ----- How many frames are active -----

  function ActiveCount(ps: seq<int>, total: nat): nat {
    if total == 0 then 0 else ActiveCount(ps, total - 1) + if Active(ps, total - 1) then 1 else 0
  }

  // The sum the program computes: the marks in pairs, and a last odd mark up to the end; a mark at 0
  // counts as no mark there.
  function PairSum(ps: seq<int>, total: int): int {
    if ps == [] then 0
    else if |ps| == 1 then (if ps[0] == 0 then 0 else total - ps[0])
    else ps[1] - ps[0] + PairSum(ps[2..], total)
  }

  function Last(ps: seq<int>): int
    requires ps != []
  {
    ps[|ps| - 1]
  }

  // How far a mark lies beyond the end.
  function Excess(p: int, total: int): int { if p > total then p - total else 0 }

  // The same sum with every mark beyond the end moved to the end.
  function ClippedSum(ps: seq<int>, total: int): int {
    if ps == [] then 0
    else if |ps| == 1 then total - (ps[0] - Excess(ps[0], total))
    else (ps[1] - Excess(ps[1], total)) - (ps[0] - Excess(ps[0], total)) + ClippedSum(ps[2..], total)
  }

  // The first two marks and the rest.
  lemma FirstTwo(ps: seq<int>, f: int)
    requires Increasing(ps) && |ps| >= 2
    ensures ps[0] < ps[1] && Increasing(ps[1..]) && Increasing(ps[2..]) && ps[1..][1..] == ps[2..]
    ensures |ps| >= 3 ==> ps[1] < ps[2..][0]
    ensures AtMost(ps, f) == (if ps[0] <= f then 1 else 0) + AtMost(ps[1..], f)
    ensures AtMost(ps[1..], f) == (if ps[1] <= f then 1 else 0) + AtMost(ps[2..], f)
  {
    assert ps[1..][1..] == ps[2..];
    if |ps| >= 3 { assert ps[1..][1] == ps[2..][0]; }
  }

  lemma {:induction false} NoneBefore(ps: seq<int>, f: int)
    requires Increasing(ps) && (ps != [] ==> f < ps[0])
    ensures AtMost(ps, f) == 0
  {
    if ps != [] { NoneBefore(ps[1..], f); }
  }

  lemma {:induction false} ClippedStep(ps: seq<int>, f: int)
    requires FromZero(ps) && f >= 0
    ensures ClippedSum(ps, f + 1) == ClippedSum(ps, f) + if Active(ps, f) then 1 else 0
  {
    if |ps| >= 2 {
      FirstTwo(ps, f);
      ClippedStep(ps[2..], f);
      if f < ps[1] { NoneBefore(ps[2..], f); }
    } else if |ps| == 1 {
      assert AtMost(ps[1..], f) == 0;
    }
  }

  lemma {:induction false} ClippedNone(ps: seq<int>)
    requires FromZero(ps)
    ensures ClippedSum(ps, 0) == 0
  {
    if |ps| >= 2 {
      FirstTwo(ps, 0);
      ClippedNone(ps[2..]);
    }
  }

  lemma {:induction false} ClippedIsCount(ps: seq<int>, total: nat)
    requires FromZero(ps)
    ensures ClippedSum(ps, total) == ActiveCount(ps, total)
  {
    if total == 0 {
      ClippedNone(ps);
    } else {
      ClippedIsCount(ps, total - 1);
      ClippedStep(ps, total - 1);
    }
  }

  // How much the two sums differ: nothing when all marks lie within the recording; otherwise always
  // something, upwards for an even number of marks, downwards for an odd one.
  lemma {:induction false} SumDifference(ps: seq<int>, total: nat)
    requires FromZero(ps) && ps != [] && ps != [0]
    ensures var d := PairSum(ps, total) - ClippedSum(ps, total);
      if Last(ps) <= total then d == 0
      else if |ps| % 2 == 0 then d > 0 else d <= -Excess(ps[0], total) && d < 0
  {
    if |ps| >= 2 {
      var rest := ps[2..];
      FirstTwo(ps, 0);
      if rest != [] {
        SumDifference(rest, total);
        assert Last(rest) == Last(ps);
        if |rest| == 1 { assert rest == [rest[0]]; }
      }
      if Last(ps) <= total { AllUpToLast(ps, total); }
    }
  }

  lemma {:induction false} AllUpToLast(ps: seq<int>, bound: int)
    requires Increasing(ps) && ps != [] && Last(ps) <= bound
    ensures forall i :: 0 <= i < |ps| ==> ps[i] <= bound
  {
    if |ps| >= 2 {
      AllUpToLast(ps[1..], bound);
      assert forall i :: 1 <= i < |ps| ==> ps[i] == ps[1..][i - 1];
    }
  }

  // The sum is the number of active frames exactly when no mark lies beyond the end of the recording
  // and the list is not a single mark at frame 0 of a recording that has frames.
  lemma PairSumIff(ps: seq<int>, total: nat)
    requires FromZero(ps)
    ensures PairSum(ps, total) == ActiveCount(ps, total)
       <==> (ps != [] ==> Last(ps) <= total) && !(ps == [0] && total > 0)
  {
    ClippedIsCount(ps, total);
    if ps != [] && ps != [0] { SumDifference(ps, total); }
  }

  // The two ways to fail: a single mark at 0 counts nothing, and a mark behind the end counts too much.
  lemma PairSumExamples()
    ensures PairSum([0], 10) == 0 && ActiveCount([0], 10) == 10
    ensures PairSum([5, 20], 10) == 15 && ActiveCount([5, 20], 10) == 5
  {
    ClippedIsCount([0], 10);
    ClippedIsCount([5, 20], 10);
    assert [5, 20][2..] == [];
  }

  // ----- Short gaps -----

  // One pass from left to right that drops two neighbouring marks if they are closer than min.
  function Greedy(ps: seq<int>, min: real): seq<int> {
    if |ps| <= 1 then ps
    else if (ps[1] - ps[0]) as real < min then Greedy(ps[2..], min)
    else [ps[0]] + Greedy(ps[1..], min)
  }

  // The pairs it drops.
  function Dropped(ps: seq<int>, min: real): seq<(int, int)> {
    if |ps| <= 1 then []
    else if (ps[1] - ps[0]) as real < min then [(ps[0], ps[1])] + Dropped(ps[2..], min)
    else Dropped(ps[1..], min)
  }

  predicate Apart(ps: seq<int>, min: real) {
    |ps| >= 2 ==> (ps[1] - ps[0]) as real >= min && Apart(ps[1..], min)
  }

  predicate InGap(gaps: seq<(int, int)>, f: int) {
    gaps != [] && ((gaps[0].0 <= f < gaps[0].1) || InGap(gaps[1..], f))
  }

  lemma {:induction false} GreedyHead(ps: seq<int>, min: real)
    requires Increasing(ps)
    ensures Greedy(ps, min) != [] ==> ps != [] && Greedy(ps, min)[0] >= ps[0]
    ensures Apart(ps, min) ==> Greedy(ps, min) == ps
  {
    if |ps| >= 2 {
      FirstTwo(ps, 0);
      GreedyHead(ps[1..], min);
      GreedyHead(ps[2..], min);
    }
  }

  lemma ApartCons(p: int, ps: seq<int>, min: real)
    requires Increasing(ps) && Apart(ps, min) && (ps != [] ==> p < ps[0] && (ps[0] - p) as real >= min)
    ensures Increasing([p] + ps) && Apart([p] + ps, min)
  {
    assert ([p] + ps)[1..] == ps;
  }

  // What survives is increasing and at least min apart, and the number of marks keeps its parity.
  lemma {:induction false} GreedyApart(ps: seq<int>, min: real)
    requires Increasing(ps)
    ensures Increasing(Greedy(ps, min)) && Apart(Greedy(ps, min), min)
    ensures |Greedy(ps, min)| == |ps| - 2 * |Dropped(ps, min)|
  {
    if |ps| >= 2 {
      FirstTwo(ps, 0);
      if (ps[1] - ps[0]) as real < min {
        GreedyApart(ps[2..], min);
      } else {
        GreedyApart(ps[1..], min);
        GreedyHead(ps[1..], min);
        ApartCons(ps[0], Greedy(ps[1..], min), min);
      }
    }
  }

  // A frame changes its state exactly when it lies in a dropped gap.
  lemma {:induction false} GreedyFlips(ps: seq<int>, min: real, f: int)
    requires Increasing(ps)
    ensures Active(Greedy(ps, min), f) <==> (Active(ps, f) != InGap(Dropped(ps, min), f))
  {
    if |ps| >= 2 {
      FirstTwo(ps, f);
      if (ps[1] - ps[0]) as real < min {
        var rest := ps[2..];
        GreedyFlips(rest, min, f);
        assert ([(ps[0], ps[1])] + Dropped(rest, min))[1..] == Dropped(rest, min);
        if f < ps[1] { NoneBefore(rest, f); GreedyNone(rest, min, f); }
      } else {
        GreedyFlips(ps[1..], min, f);
        assert ([ps[0]] + Greedy(ps[1..], min))[1..] == Greedy(ps[1..], min);
        if f < ps[0] { NoneBefore(ps[1..], f); GreedyNone(ps[1..], min, f); }
      }
    }
  }

  // Every dropped gap is short.
  lemma {:induction false} DroppedShort(ps: seq<int>, min: real, i: nat)
    requires Increasing(ps) && i < |Dropped(ps, min)|
    ensures var g := Dropped(ps, min)[i]; 0 < g.1 - g.0 && (g.1 - g.0) as real < min
  {
    FirstTwo(ps, 0);
    if (ps[1] - ps[0]) as real >= min {
      DroppedShort(ps[1..], min, i);
    } else if i > 0 {
      DroppedShort(ps[2..], min, i - 1);
    }
  }

  // Before the first mark nothing changes.
  lemma {:induction false} GreedyNone(ps: seq<int>, min: real, f: int)
    requires Increasing(ps) && (ps != [] ==> f < ps[0])
    ensures !InGap(Dropped(ps, min), f)
  {
    if |ps| >= 2 {
      FirstTwo(ps, f);
      if (ps[1] - ps[0]) as real < min {
        GreedyNone(ps[2..], min, f);
        assert ([(ps[0], ps[1])] + Dropped(ps[2..], min))[1..] == Dropped(ps[2..], min);
      } else {
        GreedyNone(ps[1..], min, f);
      }
    }
  }

  lemma GreedyKeeps(p: int, s: seq<int>, min: real)
    requires s != [] ==> (s[0] - p) as real >= min
    ensures Greedy([p] + s, min) == [p] + Greedy(s, min)
  {
    assert ([p] + s)[1..] == s;
  }

  // Dropping the first short gap of a list and starting again comes to the same.
  lemma {:induction false} GreedyRestart(a: seq<int>, x: int, y: int, b: seq<int>, min: real)
    requires Increasing(a + [x, y] + b) && Apart(a + [x], min) && (y - x) as real < min
    ensures Greedy(a + [x, y] + b, min) == Greedy(a + b, min) && Increasing(a + b)
    ensures a != [] && b != [] ==> b[0] > a[|a| - 1] && (b[0] - a[|a| - 1]) as real >= min
  {
    if a == [] {
      var s := a + [x, y] + b;
      FirstTwo(s, 0);
      assert s[2..] == b && a + b == b;
    } else {
      hide *;
      var p, t := a[0], a[1..];
      RestartHead(a, x, y, b, min);
      GreedyRestart(t, x, y, b, min);
      GreedyKeeps(p, t + [x, y] + b, min);
      GreedyKeeps(p, t + b, min);
      IncreasingCons(p, t + b);
    }
  }

  // The first mark of such a list, and the rest of it.
  lemma RestartHead(a: seq<int>, x: int, y: int, b: seq<int>, min: real)
    requires a != [] && Increasing(a + [x, y] + b) && Apart(a + [x], min)
    ensures var p, t := a[0], a[1..];
      && a + [x, y] + b == [p] + (t + [x, y] + b) && a + b == [p] + (t + b)
      && Increasing(t + [x, y] + b) && Apart(t + [x], min)
      && p < (t + [x])[0] && ((t + [x])[0] - p) as real >= min && (t + [x, y] + b)[0] == (t + [x])[0]
      && (b != [] ==> x < b[0])
      && (t + b != [] ==> p < (t + b)[0] && ((t + b)[0] - p) as real >= min)
  {
    var s, t := a + [x, y] + b, a[1..];
    assert s == [a[0]] + (t + [x, y] + b) && s[1..] == t + [x, y] + b && (a + [x])[1..] == t + [x];
    FirstTwo(s, 0);
    assert s[1] == (a + [x])[1];
    if b != [] {
      InOrder(s, |a|, |a| + 2);
      assert s[|a|] == x && s[|a| + 2] == b[0];
    }
    hide Increasing;
    assert a + b == [a[0]] + (t + b);
  }

  lemma IncreasingCons(p: int, s: seq<int>)
    requires Increasing(s) && (s != [] ==> p < s[0])
    ensures Increasing([p] + s)
  {
    assert ([p] + s)[1..] == s;
  }

  // The list without the marks at k - 1 and k.
  function Without(ps: seq<int>, k: nat): seq<int>
    requires 0 < k < |ps|
  {
    ps[..k - 1] + ps[k + 1..]
  }

  lemma {:induction false} WithoutIncreasing(ps: seq<int>, k: nat)
    requires Increasing(ps) && 0 < k < |ps|
    ensures Increasing(Without(ps, k))
  {
    FirstTwo(ps, 0);
    if k == 1 {
      assert Without(ps, k) == ps[2..];
    } else {
      var t := Without(ps[1..], k - 1);
      WithoutIncreasing(ps[1..], k - 1);
      assert Without(ps, k) == [ps[0]] + t && Without(ps, k)[1..] == t;
      if t != [] {
        var j := if k == 2 then 3 else 1;
        InOrder(ps, 0, j);
        assert t[0] == ps[1..][j - 1];
      }
    }
  }

  // Up to k no two neighbours are closer than min.
  predicate Scanned(ps: seq<int>, k: nat, min: real) {
    k <= |ps| && Apart(ps[..k], min)
  }

  lemma {:induction false} ApartSnoc(ps: seq<int>, p: int, min: real)
    requires Apart(ps, min) && (ps != [] ==> (p - Last(ps)) as real >= min)
    ensures Apart(ps + [p], min)
  {
    if ps != [] {
      ApartSnoc(ps[1..], p, min);
      assert (ps + [p])[1..] == ps[1..] + [p];
    }
  }

  lemma ScannedNone(ps: seq<int>, min: real)
    ensures Scanned(ps, 0, min)
  {
  }

  lemma ScannedOne(ps: seq<int>, k: nat, min: real)
    requires Scanned(ps, k, min) && k < |ps| && (k > 0 ==> (ps[k] - ps[k - 1]) as real >= min)
    ensures Scanned(ps, k + 1, min)
  {
    assert ps[..k + 1] == ps[..k] + [ps[k]];
    ApartSnoc(ps[..k], ps[k], min);
  }

  lemma ScannedAll(ps: seq<int>, min: real)
    requires Scanned(ps, |ps|, min) && Increasing(ps)
    ensures Greedy(ps, min) == ps
  {
    assert ps[..|ps|] == ps;
    GreedyHead(ps, min);
  }

  lemma ScannedCut(ps: seq<int>, k: nat, min: real)
    requires FromZero(ps) && 0 < k < |ps| && Scanned(ps, k, min) && (ps[k] - ps[k - 1]) as real < min
    ensures FromZero(Without(ps, k)) && Greedy(Without(ps, k), min) == Greedy(ps, min)
  {
    var a, b := ps[..k - 1], ps[k + 1..];
    assert ps == a + [ps[k - 1], ps[k]] + b && ps[..k] == a + [ps[k - 1]];
    GreedyRestart(a, ps[k - 1], ps[k], b, min);
    if b != [] { InOrder(ps, 0, k + 1); }
  }

  // The first position above ps[k] is the next one.
  lemma NextIndex(ps: seq<int>, k: nat, j: nat)
    requires Increasing(ps) && k < |ps| && j <= |ps|
    requires forall i :: 0 <= i < j ==> ps[i] <= ps[k]
    requires j < |ps| ==> ps[j] > ps[k]
    ensures j == k + 1
  {
    assert j > k by {
      if j < k { InOrder(ps, j, k); }
    }
    if k + 1 < |ps| { InOrder(ps, k, k + 1); }
  }

  lemma {:induction false} InOrder(ps: seq<int>, i: nat, j: nat)
    requires Increasing(ps) && i < j < |ps|
    ensures ps[i] < ps[j]
  {
    if i > 0 {
      InOrder(ps[1..], i - 1, j - 1);
    } else {
      HeadIsLeast(ps, ps[j]) by { assert ps[1..][j - 1] == ps[j]; }
    }
  }

  // ----- Short active sections -----

  // The pairs of neighbouring marks from the first mark on, without the short ones.
  function KeepLong(ps: seq<int>, min: real): seq<int> {
    if |ps| <= 1 then ps
    else if (ps[1] - ps[0]) as real < min then KeepLong(ps[2..], min)
    else ps[..2] + KeepLong(ps[2..], min)
  }

  // The first short pair, or the end of the list.
  function FirstShort(ps: seq<int>, min: real): (k: nat)
    ensures k <= |ps|
    ensures k < |ps| ==> k + 1 < |ps| && (ps[k + 1] - ps[k]) as real < min
  {
    if |ps| <= 1 then |ps|
    else if (ps[1] - ps[0]) as real < min then 0
    else 2 + FirstShort(ps[2..], min)
  }

  // From the first deletion on, the marks are paired from the second one on.
  function Repaired(ps: seq<int>, min: real): seq<int> {
    if ps == [] then [] else [ps[0]] + KeepLong(ps[1..], min)
  }

  function CleanActive(ps: seq<int>, min: real): seq<int> {
    var k := FirstShort(ps, min);
    if k == |ps| then ps else Repaired(Without(ps, k + 1), min)
  }

  // Every section that starts at an even place of the list is at least min long.
  predicate LongSections(ps: seq<int>, min: real) {
    |ps| >= 2 ==> (ps[1] - ps[0]) as real >= min && LongSections(ps[2..], min)
  }

  lemma {:induction false} KeepLongSections(ps: seq<int>, min: real)
    ensures LongSections(KeepLong(ps, min), min) && |KeepLong(ps, min)| % 2 == |ps| % 2
    ensures forall x :: x in KeepLong(ps, min) ==> x in ps
  {
    if |ps| >= 2 {
      KeepLongSections(ps[2..], min);
      var t := KeepLong(ps[2..], min);
      assert (ps[..2] + t)[2..] == t;
    }
  }

  lemma {:induction false} FirstShortIsLast(ps: seq<int>, min: real)
    ensures FirstShort(ps, min) == |ps| <==> LongSections(ps, min)
  {
    if |ps| >= 2 { FirstShortIsLast(ps[2..], min); }
  }

  // Nothing is deleted exactly when every active section is long.
  lemma NoShortSections(ps: seq<int>, min: real)
    ensures CleanActive(ps, min) == ps <==> LongSections(ps, min)
  {
    FirstShortIsLast(ps, min);
    var k := FirstShort(ps, min);
    if k < |ps| { RepairedSize(Without(ps, k + 1), min); }
  }

  lemma RepairedSize(ps: seq<int>, min: real)
    ensures |Repaired(ps, min)| == |ps| - if ps == [] then 0 else 2 * |ShortPairs(ps[1..], min)|
    ensures ps == [] ==> Repaired(ps, min) == []
  {
    if ps != [] { KeepLongSize(ps[1..], min); }
  }

  lemma {:induction false} KeepLongSize(ps: seq<int>, min: real)
    ensures |KeepLong(ps, min)| == |ps| - 2 * |ShortPairs(ps, min)|
  {
    if |ps| >= 2 { KeepLongSize(ps[2..], min); }
  }

  // Without a short active section nothing is deleted. With one, what is left has no short section in
  // the other phase, that is between the end of an active section and the start of the next.
  lemma CleanActivePhase(ps: seq<int>, min: real)
    ensures LongSections(ps, min) ==> CleanActive(ps, min) == ps
    ensures !LongSections(ps, min) && CleanActive(ps, min) != [] ==> LongSections(CleanActive(ps, min)[1..], min)
    ensures |CleanActive(ps, min)| % 2 == |ps| % 2
    ensures forall x :: x in CleanActive(ps, min) ==> x in ps
  {
    FirstShortIsLast(ps, min);
    hide FirstShort, LongSections, Without, KeepLong, Repaired;
    var k := FirstShort(ps, min);
    if k < |ps| {
      var t := Without(ps, k + 1);
      RepairedPhase(t, min);
      DeletedIs(ps, min);
      forall x | x in t ensures x in ps { WithoutFrom(ps, k + 1, x); }
    }
  }

  lemma RepairedPhase(t: seq<int>, min: real)
    ensures Repaired(t, min) != [] ==> LongSections(Repaired(t, min)[1..], min)
    ensures |Repaired(t, min)| % 2 == |t| % 2
    ensures forall x :: x in Repaired(t, min) ==> x in t
  {
    if t != [] {
      KeepLongSections(t[1..], min);
      assert Repaired(t, min)[1..] == KeepLong(t[1..], min);
    }
  }

  // Whether the section that begins at start, and every later one, is long once the short pairs of
  // rest are gone: the section ends at the first mark of rest that is not in such a pair.
  predicate RunsLong(start: int, rest: seq<int>, min: real)
    decreases rest
  {
    if rest == [] then true
    else if |rest| == 1 then (rest[0] - start) as real >= min
    else if (rest[1] - rest[0]) as real < min then RunsLong(start, rest[2..], min)
    else (rest[0] - start) as real >= min && RunsLong(rest[1], rest[2..], min)
  }

  lemma {:induction false} RunsLongIff(start: int, rest: seq<int>, min: real)
    ensures LongSections([start] + KeepLong(rest, min), min) <==> RunsLong(start, rest, min)
    decreases rest
  {
    if |rest| == 1 {
      assert ([start] + rest)[2..] == [];
    } else if |rest| >= 2 {
      var t := KeepLong(rest[2..], min);
      if (rest[1] - rest[0]) as real < min {
        RunsLongIff(start, rest[2..], min);
      } else {
        RunsLongIff(rest[1], rest[2..], min);
        assert ([start] + (rest[..2] + t))[2..] == [rest[1]] + t;
      }
    }
  }

  // Every active section that is left is long exactly when there was no short one, or when without the
  // first short one the marks run long.
  lemma CleanActiveLongIff(ps: seq<int>, min: real)
    ensures var k := FirstShort(ps, min);
      LongSections(CleanActive(ps, min), min)
      <==> k == |ps| || (var t := Without(ps, k + 1); t == [] || RunsLong(t[0], t[1..], min))
  {
    FirstShortIsLast(ps, min);
    var k := FirstShort(ps, min);
    if k < |ps| {
      var t := Without(ps, k + 1);
      if t != [] { RunsLongIff(t[0], t[1..], min); }
    }
  }

  // The pairs that KeepLong drops, and those that the clean-up deletes.
  function ShortPairs(ps: seq<int>, min: real): seq<(int, int)> {
    if |ps| <= 1 then []
    else if (ps[1] - ps[0]) as real < min then [(ps[0], ps[1])] + ShortPairs(ps[2..], min)
    else ShortPairs(ps[2..], min)
  }

  function Deleted(ps: seq<int>, min: real): seq<(int, int)> {
    var k := FirstShort(ps, min);
    if k == |ps| then []
    else
      var t := Without(ps, k + 1);
      [(ps[k], ps[k + 1])] + if t == [] then [] else ShortPairs(t[1..], min)
  }

  // How many of the pairs have a frame between them; one pair may lie inside another.
  function Covers(gaps: seq<(int, int)>, f: int): nat {
    if gaps == [] then 0 else (if gaps[0].0 <= f < gaps[0].1 then 1 else 0) + Covers(gaps[1..], f)
  }

  lemma {:induction false} AtMostJoined(a: seq<int>, b: seq<int>, f: int)
    ensures AtMost(a + b, f) == AtMost(a, f) + AtMost(b, f)
  {
    if a == [] {
      assert a + b == b;
    } else {
      assert (a + b)[1..] == a[1..] + b;
      AtMostJoined(a[1..], b, f);
    }
  }

  lemma AtMostPair(x: int, y: int, f: int)
    ensures AtMost([x, y], f) == (if x <= f then 1 else 0) + if y <= f then 1 else 0
  {
    assert [x, y][1..] == [y] && AtMost([y][1..], f) == 0;
    assert AtMost([y], f) == if y <= f then 1 else 0;
  }

  lemma {:induction false} KeepLongFlips(ps: seq<int>, min: real, f: int)
    requires Increasing(ps)
    ensures AtMost(KeepLong(ps, min), f) % 2 == (AtMost(ps, f) + Covers(ShortPairs(ps, min), f)) % 2
  {
    if |ps| >= 2 {
      var rest, x, y := ps[2..], ps[0], ps[1];
      FirstTwo(ps, f);
      KeepLongFlips(rest, min, f);
      var kept, gaps := KeepLong(rest, min), ShortPairs(rest, min);
      CoversOne(x, y, gaps, f);
      AtMostJoined(ps[..2], kept, f);
      AtMostPair(x, y, f);
      assert ps[..2] == [x, y];
      var n := AtMost(rest, f);
      var pair := (if x <= f then 1 else 0) + if y <= f then 1 else 0;
      hide AtMost, Increasing, Covers;
      SameParity(pair, n, AtMost(kept, f), Covers(gaps, f));
      if (y - x) as real < min {
        assert KeepLong(ps, min) == kept && ShortPairs(ps, min) == [(x, y)] + gaps;
      } else {
        assert KeepLong(ps, min) == ps[..2] + kept && ShortPairs(ps, min) == gaps;
      }
    }
  }

  // A whole pair at or before a frame does not change the parity, half of one does.
  lemma SameParity(pair: nat, n: nat, r: nat, c: nat)
    requires r % 2 == (n + c) % 2 && pair <= 2
    ensures (pair + r) % 2 == (pair + n + c) % 2
    ensures pair == 1 ==> r % 2 == (pair + n + (1 + c)) % 2
    ensures pair != 1 ==> r % 2 == (pair + n + c) % 2
  {
  }

  // A frame changes its state exactly when it lies inside an odd number of deleted pairs.
  lemma CleanActiveFlips(ps: seq<int>, min: real, f: int)
    requires Increasing(ps)
    ensures Active(CleanActive(ps, min), f) <==> (Active(ps, f) != (Covers(Deleted(ps, min), f) % 2 == 1))
    ensures |CleanActive(ps, min)| == |ps| - 2 * |Deleted(ps, min)|
  {
    var k := FirstShort(ps, min);
    hide *;
    NoGaps(f);
    DeletedIs(ps, min);
    if k < |ps| {
      var t := Without(ps, k + 1);
      PairTaken(ps, k, f);
      var gaps := if t == [] then [] else ShortPairs(t[1..], min);
      if t != [] { RepairedFlips(t, min, f); }
      RepairedSize(t, min);
      CoversOne(ps[k], ps[k + 1], gaps, f);
      Parities(AtMost(ps, f), AtMost(t, f), AtMost(CleanActive(ps, min), f), Covers(gaps, f), ps[k], ps[k + 1], f);
    }
    ActiveIs(ps, f);
    ActiveIs(CleanActive(ps, min), f);
  }

  lemma ActiveIs(ps: seq<int>, f: int)
    ensures Active(ps, f) <==> AtMost(ps, f) % 2 == 1
  {
  }

  // What the clean-up leaves and what it deletes.
  lemma DeletedIs(ps: seq<int>, min: real)
    ensures var k := FirstShort(ps, min);
      if k == |ps| then CleanActive(ps, min) == ps && Deleted(ps, min) == []
      else
        var t := Without(ps, k + 1);
        && |t| == |ps| - 2
        && CleanActive(ps, min) == Repaired(t, min)
        && Deleted(ps, min) == [(ps[k], ps[k + 1])] + if t == [] then [] else ShortPairs(t[1..], min)
  {
    hide FirstShort, ShortPairs, Repaired;
  }

  lemma Parities(n: nat, m: nat, r: nat, c: nat, x: int, y: int, f: int)
    requires n == m + (if x <= f then 1 else 0) + (if y <= f then 1 else 0) && x < y && r % 2 == (m + c) % 2
    ensures r % 2 == 1 <==> ((n % 2 == 1) != (((if x <= f < y then 1 else 0) + c) % 2 == 1))
  {
  }

  lemma NoGaps(f: int)
    ensures Covers([], f) == 0 && AtMost([], f) == 0
  {
  }

  lemma PairTaken(ps: seq<int>, k: nat, f: int)
    requires Increasing(ps) && k + 1 < |ps|
    ensures Increasing(Without(ps, k + 1)) && ps[k] < ps[k + 1]
    ensures AtMost(ps, f)
         == AtMost(Without(ps, k + 1), f) + (if ps[k] <= f then 1 else 0) + if ps[k + 1] <= f then 1 else 0
  {
    var x, y, a, b := ps[k], ps[k + 1], ps[..k], ps[k + 2..];
    assert ps == a + ([x, y] + b);
    hide AtMost, Increasing;
    WithoutIncreasing(ps, k + 1);
    InOrder(ps, k, k + 1);
    AtMostJoined(a, [x, y] + b, f);
    AtMostJoined([x, y], b, f);
    AtMostPair(x, y, f);
    AtMostJoined(a, b, f);
  }

  lemma CoversOne(x: int, y: int, gaps: seq<(int, int)>, f: int)
    ensures Covers([(x, y)] + gaps, f) == (if x <= f < y then 1 else 0) + Covers(gaps, f)
  {
    assert ([(x, y)] + gaps)[1..] == gaps;
  }

  lemma RepairedFlips(t: seq<int>, min: real, f: int)
    requires t != [] && Increasing(t)
    ensures AtMost(Repaired(t, min), f) % 2 == (AtMost(t, f) + Covers(ShortPairs(t[1..], min), f)) % 2
  {
    var kept, n := KeepLong(t[1..], min), AtMost(t[1..], f);
    KeepLongFlips(t[1..], min, f);
    AtMostJoined([t[0]], kept, f);
    AtMostJoined([t[0]], t[1..], f);
    hide AtMost, Increasing, Covers, KeepLong, ShortPairs;
    assert t == [t[0]] + t[1..] && Repaired(t, min) == [t[0]] + kept;
    AtMostOne(t[0], f);
    SameParity(AtMost([t[0]], f), n, AtMost(kept, f), Covers(ShortPairs(t[1..], min), f));
  }

  lemma AtMostOne(x: int, f: int)
    ensures AtMost([x], f) <= 1
  {
  }

  // Every deleted pair is a short one of the marks.
  lemma DeletedShort(ps: seq<int>, min: real, i: nat)
    requires Increasing(ps) && i < |Deleted(ps, min)|
    ensures var g := Deleted(ps, min)[i]; g.0 in ps && g.1 in ps && 0 < g.1 - g.0 && (g.1 - g.0) as real < min
  {
    hide *;
    var k := FirstShort(ps, min);
    DeletedIs(ps, min);
    var t := Without(ps, k + 1);
    PairTaken(ps, k, 0);
    FirstShortIsShort(ps, min);
    if i > 0 {
      RestIncreasing(t);
      ShortPairsShort(t[1..], min, i - 1);
      var g := ShortPairs(t[1..], min)[i - 1];
      WithoutFrom(ps, k + 1, g.0);
      WithoutFrom(ps, k + 1, g.1);
    }
  }

  lemma FirstShortIsShort(ps: seq<int>, min: real)
    ensures var k := FirstShort(ps, min); k < |ps| ==> k + 1 < |ps| && (ps[k + 1] - ps[k]) as real < min
  {
  }

  lemma WithoutFrom(ps: seq<int>, k: nat, x: int)
    requires 0 < k < |ps| && x in Without(ps, k)
    ensures x in ps
  {
  }

  lemma RestIncreasing(ps: seq<int>)
    requires Increasing(ps) && ps != []
    ensures Increasing(ps[1..])
  {
  }

  lemma {:induction false} ShortPairsShort(ps: seq<int>, min: real, i: nat)
    requires Increasing(ps) && i < |ShortPairs(ps, min)|
    ensures var g := ShortPairs(ps, min)[i]; g.0 in ps && g.1 in ps && 0 < g.1 - g.0 && (g.1 - g.0) as real < min
  {
    FirstTwo(ps, 0);
    if (ps[1] - ps[0]) as real >= min {
      ShortPairsShort(ps[2..], min, i);
    } else if i > 0 {
      ShortPairsShort(ps[2..], min, i - 1);
    }
  }

  // An even number of marks, all pairs long.
  predicate EvenLong(ps: seq<int>, min: real) {
    ps == [] || (|ps| >= 2 && (ps[1] - ps[0]) as real >= min && EvenLong(ps[2..], min))
  }

  lemma {:induction false} EvenLongFront(a: seq<int>, b: seq<int>, min: real)
    requires EvenLong(a, min)
    ensures KeepLong(a + b, min) == a + KeepLong(b, min)
  {
    if a == [] {
      assert a + b == b;
    } else {
      var t := a[2..];
      assert (a + b)[2..] == t + b && (a + b)[..2] == a[..2] && a == a[..2] + t;
      EvenLongFront(t, b, min);
    }
  }

  lemma {:induction false} EvenLongFirst(a: seq<int>, b: seq<int>, min: real)
    requires EvenLong(a, min)
    ensures FirstShort(a + b, min) == |a| + FirstShort(b, min) && |a| % 2 == 0
  {
    if a == [] {
      assert a + b == b;
    } else {
      assert (a + b)[2..] == a[2..] + b;
      EvenLongFirst(a[2..], b, min);
    }
  }

  lemma {:induction false} EvenLongMore(a: seq<int>, x: int, y: int, min: real)
    requires EvenLong(a, min) && (y - x) as real >= min
    ensures EvenLong(a + [x, y], min)
  {
    if a == [] {
      assert (a + [x, y])[2..] == [];
    } else {
      EvenLongMore(a[2..], x, y, min);
      assert (a + [x, y])[2..] == a[2..] + [x, y];
    }
  }

  // While the sections are cleaned: pairs are looked at from mark `phase` on, those in front of the one
  // that ends at k are long, and what is still to come will end in `goal`.
  predicate Sectioned(goal: seq<int>, ps: seq<int>, min: real, phase: int, k: int) {
    if phase == 0 then
      goal == CleanActive(ps, min) && 1 <= k <= |ps| + 1 && EvenLong(ps[0..k - 1], min)
    else
      phase == 1 && goal == Repaired(ps, min) && (k == 0 || (2 <= k <= |ps| + 1 && EvenLong(ps[1..k - 1], min)))
  }

  lemma SectionNext(goal: seq<int>, ps: seq<int>, min: real, phase: int, k: int)
    requires Sectioned(goal, ps, min, phase, k) && k < |ps| && (k > 0 ==> (ps[k] - ps[k - 1]) as real >= min)
    ensures Sectioned(goal, ps, min, phase, k + 2)
  {
    hide CleanActive, Repaired, EvenLong;
    if k > 0 {
      EvenLongMore(ps[phase..k - 1], ps[k - 1], ps[k], min);
      assert ps[phase..k + 1] == ps[phase..k - 1] + [ps[k - 1], ps[k]];
    } else {
      EvenLongNone(min);
      assert ps[1..1] == [];
    }
  }

  lemma EvenLongNone(min: real)
    ensures EvenLong([], min)
  {
  }

  // A short pair behind long ones.
  lemma CutLong(a: seq<int>, x: int, y: int, b: seq<int>, min: real)
    requires EvenLong(a, min) && (y - x) as real < min
    ensures FirstShort(a + [x, y] + b, min) == |a|
    ensures KeepLong(a + [x, y] + b, min) == KeepLong(a + b, min)
  {
    var tail := [x, y] + b;
    assert a + [x, y] + b == a + tail && tail[2..] == b;
    EvenLongFirst(a, tail, min);
    EvenLongFront(a, tail, min);
    EvenLongFront(a, b, min);
  }

  // At most one mark behind long pairs.
  lemma EndLong(a: seq<int>, tail: seq<int>, min: real)
    requires EvenLong(a, min) && |tail| <= 1
    ensures FirstShort(a + tail, min) == |a + tail| && KeepLong(a + tail, min) == a + tail
  {
    EvenLongFirst(a, tail, min);
    EvenLongFront(a, tail, min);
  }

  lemma SectionCut(goal: seq<int>, ps: seq<int>, min: real, phase: int, k: int)
    requires Sectioned(goal, ps, min, phase, k) && 0 < k < |ps| && (ps[k] - ps[k - 1]) as real < min
    ensures Sectioned(goal, Without(ps, k), min, 1, 0)
  {
    hide EvenLong, KeepLong, FirstShort;
    var a, b := ps[phase..k - 1], ps[k + 1..];
    CutLong(a, ps[k - 1], ps[k], b, min);
    if phase == 0 {
      assert ps == a + [ps[k - 1], ps[k]] + b && |a| == k - 1;
      assert Without(ps, k) == a + b;
    } else {
      assert ps[1..] == a + [ps[k - 1], ps[k]] + b;
      assert Without(ps, k)[1..] == a + b && Without(ps, k)[0] == ps[0];
    }
  }

  lemma SectionEnd(goal: seq<int>, ps: seq<int>, min: real, phase: int, k: int)
    requires Sectioned(goal, ps, min, phase, k) && k >= |ps|
    ensures ps == goal
  {
    hide EvenLong, KeepLong, FirstShort;
    if k > 0 {
      EndLong(ps[phase..k - 1], ps[k - 1..], min);
      assert ps[phase..] == ps[phase..k - 1] + ps[k - 1..];
      assert ps == ps[..phase] + ps[phase..];
    }
  }

  // For example, at 25 frames a second the second of two active sections of four seconds survives.
  lemma ShortSectionSurvives()
    ensures CleanActive([0, 100, 5000, 5100], 1500.0) == [5000, 5100]
    ensures !LongSections([5000, 5100], 1500.0)
  {
    var ps := [0, 100, 5000, 5100];
    assert FirstShort(ps, 1500.0) == 0;
    assert ps[..0] + ps[2..] == [5000, 5100] && [5000, 5100][1..] == [5100];
    assert KeepLong([5100], 1500.0) == [5100];
  }
}
