/** Sorting the contents of marks by exchange: what the nested loops over the list amount to. */
module CutSorting {
  import opened CutTimes

  datatype Comment = NoComment | Comment(text: string)

  // What Sort moves from mark to mark.
  type Cut = (int, Comment)

  function Positions(cs: seq<Cut>): (ps: seq<int>)
    ensures |ps| == |cs| && forall i :: 0 <= i < |cs| ==> ps[i] == cs[i].0
  {
    if cs == [] then [] else [cs[0].0] + Positions(cs[1..])
  }

  // One run of the inner loop: the first place ends up with the least position, everything that was
  // there on the way is left where the smaller one was found.
  function PullMin(cur: Cut, rest: seq<Cut>): (r: seq<Cut>)
    ensures |r| == 1 + |rest|
    decreases |rest|
  {
    if rest == [] then [cur]
    else
      var (first, left) := if rest[0].0 < cur.0 then (rest[0], cur) else (cur, rest[0]);
      var r := PullMin(first, rest[1..]);
      [r[0], left] + r[1..]
  }

  function Exchange(cs: seq<Cut>): (r: seq<Cut>)
    ensures |r| == |cs|
    decreases |cs|
  {
    if cs == [] then [] else var r := PullMin(cs[0], cs[1..]); [r[0]] + Exchange(r[1..])
  }

  predicate Sorted(cs: seq<Cut>) {
    |cs| >= 2 ==> cs[0].0 <= cs[1].0 && Sorted(cs[1..])
  }

  function InsertCut(cs: seq<Cut>, c: Cut): seq<Cut> {
    if cs == [] || c.0 < cs[0].0 then [c] + cs else [cs[0]] + InsertCut(cs[1..], c)
  }

  lemma {:induction false} PullMinIsLeast(cur: Cut, rest: seq<Cut>)
    ensures var r := PullMin(cur, rest); r[0].0 <= cur.0 && forall i :: 0 <= i < |r| ==> r[0].0 <= r[i].0
    decreases |rest|
  {
    if rest != [] {
      PullMinIsLeast(if rest[0].0 < cur.0 then rest[0] else cur, rest[1..]);
    }
  }

  // How often a cut occurs.
  function Times(c: Cut, cs: seq<Cut>): nat {
    if cs == [] then 0 else (if cs[0] == c then 1 else 0) + Times(c, cs[1..])
  }

  lemma {:induction false} PullMinKeeps(cur: Cut, rest: seq<Cut>, c: Cut)
    ensures Times(c, PullMin(cur, rest)) == Times(c, [cur] + rest)
    decreases |rest|
  {
    assert ([cur] + rest)[1..] == rest;
    if rest != [] {
      var (first, left) := if rest[0].0 < cur.0 then (rest[0], cur) else (cur, rest[0]);
      PullMinKeeps(first, rest[1..], c);
      var r := PullMin(first, rest[1..]);
      assert ([r[0], left] + r[1..])[1..] == [left] + r[1..] && ([left] + r[1..])[1..] == r[1..];
      assert ([first] + rest[1..])[1..] == rest[1..];
    }
  }

  // The loops sort any list of marks, and no mark is lost or doubled.
  lemma {:induction false} ExchangeSorts(cs: seq<Cut>, c: Cut)
    ensures Sorted(Exchange(cs)) && Times(c, Exchange(cs)) == Times(c, cs)
    decreases |cs|
  {
    if cs != [] {
      var r := PullMin(cs[0], cs[1..]);
      var t := Exchange(r[1..]);
      PullMinIsLeast(cs[0], cs[1..]);
      PullMinKeeps(cs[0], cs[1..], c);
      ExchangeSorts(r[1..], c);
      assert cs == [cs[0]] + cs[1..] && ([r[0]] + t)[1..] == t;
      if t != [] { PullMinBound(r[1], r[1..][1..], r[0].0); }
    }
  }

  lemma {:induction false} PullMinBound(cur: Cut, rest: seq<Cut>, b: int)
    requires b <= cur.0 && forall i :: 0 <= i < |rest| ==> b <= rest[i].0
    ensures b <= PullMin(cur, rest)[0].0
    decreases |rest|
  {
    if rest != [] {
      PullMinBound(if rest[0].0 < cur.0 then rest[0] else cur, rest[1..], b);
    }
  }

  // Only positions below the new mark's are passed by it; the first mark above takes its place.
  lemma {:induction false} PullMinInOrder(cur: Cut, rest: seq<Cut>, c: Cut)
    requires forall i :: 0 <= i < |rest| ==> cur.0 < rest[i].0
    requires c.0 != cur.0
    ensures PullMin(cur, rest + [c]) == if c.0 < cur.0 then [c] + rest + [cur] else [cur] + rest + [c]
    decreases |rest|
  {
    if rest == [] {
      assert (rest + [c])[1..] == [];
    } else {
      PullMinInOrder(cur, rest[1..], c);
      assert (rest + [c])[1..] == rest[1..] + [c];
    }
  }

  lemma {:induction false} ExchangeCons(first: Cut, r: seq<Cut>, cs: seq<Cut>)
    requires cs != [] && PullMin(cs[0], cs[1..]) == [first] + r
    ensures Exchange(cs) == [first] + Exchange(r)
  {
    assert ([first] + r)[1..] == r;
  }

  // A new mark behind an increasing list is put where it belongs.
  lemma {:induction false} ExchangeInserts(cs: seq<Cut>, c: Cut)
    requires Increasing(Positions(cs)) && c.0 !in Positions(cs)
    ensures Exchange(cs + [c]) == InsertCut(cs, c)
    decreases |cs|
  {
    hide Exchange, PullMin;
    var s := cs + [c];
    if cs == [] {
      ExchangeOne(c);
      assert s == [c];
    } else {
      var rest := cs[1..];
      var ps := Positions(cs);
      assert ps[1..] == Positions(rest) && ps[0] == cs[0].0 && s[1..] == rest + [c];
      forall i | 0 <= i < |rest| ensures cs[0].0 < rest[i].0 {
        assert Positions(rest)[i] in ps[1..];
        HeadIsLeast(ps, rest[i].0);
      }
      PullMinInOrder(cs[0], rest, c);
      if |cs| >= 2 { FirstTwo(ps, 0); }
      if c.0 < cs[0].0 {
        assert [c] + rest + [cs[0]] == [c] + (rest + [cs[0]]);
        ExchangeCons(c, rest + [cs[0]], s);
        ExchangeInserts(rest, cs[0]);
        assert InsertCut(rest, cs[0]) == cs;
      } else {
        assert [cs[0]] + rest + [c] == [cs[0]] + (rest + [c]);
        ExchangeCons(cs[0], rest + [c], s);
        assert forall x :: x in ps[1..] ==> x in ps;
        ExchangeInserts(rest, c);
      }
    }
  }

  lemma ExchangeOne(c: Cut)
    ensures Exchange([c]) == [c]
  {
  }

  lemma {:induction false} InsertCutPositions(cs: seq<Cut>, c: Cut)
    ensures Positions(InsertCut(cs, c)) == Insert(Positions(cs), c.0)
  {
    if cs == [] || c.0 < cs[0].0 {
      assert Positions([c] + cs) == [c.0] + Positions(cs);
    } else {
      InsertCutPositions(cs[1..], c);
      assert Positions(cs)[1..] == Positions(cs[1..]);
      assert Positions(InsertCut(cs, c)) == [cs[0].0] + Positions(InsertCut(cs[1..], c));
    }
  }

  // ----- The two loops, step by step, over the whole list -----

  // What the inner loop will have made of the list when it has reached its end: it compares place i
  // with the places from j on.
  function Pulling(cs: seq<Cut>, i: nat, j: nat): seq<Cut>
    requires i < j <= |cs|
  {
    var r := PullMin(cs[i], cs[j..]);
    cs[..i] + [r[0]] + cs[i + 1..j] + r[1..]
  }

  // What the outer loop will have made of the list when it has reached its end.
  function Exchanging(cs: seq<Cut>, i: nat): seq<Cut>
    requires i <= |cs|
  {
    cs[..i] + Exchange(cs[i..])
  }

  function Swap(cs: seq<Cut>, i: nat, j: nat): seq<Cut>
    requires i < |cs| && j < |cs|
  {
    cs[i := cs[j]][j := cs[i]]
  }

  lemma PullingStep(cs: seq<Cut>, i: nat, j: nat)
    requires i < j <= |cs|
    ensures j == |cs| ==> Pulling(cs, i, j) == cs
    ensures j < |cs| && cs[j].0 < cs[i].0 ==> Pulling(cs, i, j) == Pulling(Swap(cs, i, j), i, j + 1)
    ensures j < |cs| && cs[j].0 >= cs[i].0 ==> Pulling(cs, i, j) == Pulling(cs, i, j + 1)
  {
    if j < |cs| {
      var t := if cs[j].0 < cs[i].0 then Swap(cs, i, j) else cs;
      assert cs[j..][1..] == cs[j + 1..] == t[j + 1..];
      OnePull(cs[..i], cs[i + 1..j], t[j], PullMin(t[i], cs[j + 1..]), PullMin(cs[i], cs[j..]));
      assert t[..i] == cs[..i] && t[i + 1..j + 1] == cs[i + 1..j] + [t[j]];
    }
  }

  lemma OnePull(a: seq<Cut>, b: seq<Cut>, left: Cut, r: seq<Cut>, r': seq<Cut>)
    requires |r| >= 1 && r' == [r[0], left] + r[1..]
    ensures a + [r'[0]] + b + r'[1..] == a + [r[0]] + (b + [left]) + r[1..]
  {
    assert r'[1..] == [left] + r[1..];
  }

  lemma ExchangingStep(cs: seq<Cut>, i: nat)
    requires i <= |cs|
    ensures i == |cs| ==> Exchanging(cs, i) == cs
    ensures i < |cs| ==> |Pulling(cs, i, i + 1)| == |cs|
    ensures i < |cs| ==> Exchanging(cs, i) == Exchanging(Pulling(cs, i, i + 1), i + 1)
  {
    if i < |cs| {
      var t := Pulling(cs, i, i + 1);
      var r := PullMin(cs[i], cs[i + 1..]);
      assert cs[i..][0] == cs[i] && cs[i..][1..] == cs[i + 1..];
      assert cs[i + 1..i + 1] == [] && t[..i + 1] == cs[..i] + [r[0]] && t[i + 1..] == r[1..];
      assert cs[..i] + ([r[0]] + Exchange(r[1..])) == (cs[..i] + [r[0]]) + Exchange(r[1..]);
    }
  }

  lemma ExchangingStart(cs: seq<Cut>)
    ensures Exchanging(cs, 0) == Exchange(cs)
  {
    assert cs[0..] == cs;
  }

  // Gives the first cut at a position a comment.
  function SetComment(cs: seq<Cut>, p: int, comment: Comment): seq<Cut> {
    if cs == [] then []
    else if cs[0].0 == p then [(p, comment)] + cs[1..]
    else [cs[0]] + SetComment(cs[1..], p, comment)
  }

  lemma {:induction false} SetCommentAt(cs: seq<Cut>, k: nat, comment: Comment)
    requires k < |cs| && forall i :: 0 <= i < k ==> cs[i].0 != cs[k].0
    ensures cs[k := (cs[k].0, comment)] == SetComment(cs, cs[k].0, comment)
  {
    if k > 0 {
      assert cs[1..][k - 1] == cs[k];
      SetCommentAt(cs[1..], k - 1, comment);
    }
  }

  lemma {:induction false} InsertWithComment(cs: seq<Cut>, p: int, comment: Comment)
    requires p !in Positions(cs)
    ensures SetComment(InsertCut(cs, (p, NoComment)), p, comment) == InsertCut(cs, (p, comment))
  {
    if cs != [] && p >= cs[0].0 {
      assert Positions(cs)[0] == cs[0].0 && Positions(cs) == [cs[0].0] + Positions(cs[1..]);
      InsertWithComment(cs[1..], p, comment);
    }
  }

  lemma {:induction false} RemoveAtPosition(ps: seq<int>, k: nat)
    requires Increasing(ps) && k < |ps|
    ensures ps[..k] + ps[k + 1..] == Remove(ps, ps[k])
  {
    if k > 0 {
      assert ps[k] == ps[1..][k - 1];
      HeadIsLeast(ps, ps[k]);
      RemoveAtPosition(ps[1..], k - 1);
    }
  }

  // No cut that was not there before.
  predicate Kept(cs: seq<Cut>, before: seq<Cut>) {
    forall i :: 0 <= i < |cs| ==> cs[i] in before
  }

  function WithoutCuts(cs: seq<Cut>, k: nat): seq<Cut>
    requires 0 < k < |cs|
  {
    cs[..k - 1] + cs[k + 1..]
  }

  lemma WithoutIsKept(cs: seq<Cut>, k: nat, before: seq<Cut>)
    requires 0 < k < |cs| && Kept(cs, before)
    ensures Kept(WithoutCuts(cs, k), before)
    ensures Positions(WithoutCuts(cs, k)) == Without(Positions(cs), k)
  {
    WithoutKept(cs, k, before);
    hide Kept, Positions, WithoutCuts, Without;
    var a, b := Positions(WithoutCuts(cs, k)), Without(Positions(cs), k);
    WithoutSize(cs, k);
    forall i | 0 <= i < |a|
      ensures a[i] == b[i]
    {
      WithoutAt(cs, k, i);
    }
    assert a == b;
  }

  lemma WithoutSize(cs: seq<Cut>, k: nat)
    requires 0 < k < |cs|
    ensures |WithoutCuts(cs, k)| == |Without(Positions(cs), k)| == |cs| - 2
  {
    hide Positions;
  }

  lemma WithoutAt(cs: seq<Cut>, k: nat, i: nat)
    requires 0 < k < |cs| && i < |cs| - 2
    ensures |WithoutCuts(cs, k)| == |Without(Positions(cs), k)| == |cs| - 2
    ensures WithoutCuts(cs, k)[i].0 == Without(Positions(cs), k)[i]
  {
    hide Positions;
  }

  lemma WithoutKept(cs: seq<Cut>, k: nat, before: seq<Cut>)
    requires 0 < k < |cs| && Kept(cs, before)
    ensures Kept(WithoutCuts(cs, k), before)
  {
    forall i | 0 <= i < |WithoutCuts(cs, k)|
      ensures WithoutCuts(cs, k)[i] in before
    {
      assert WithoutCuts(cs, k)[i] == cs[if i < k - 1 then i else i + 2];
    }
  }

  lemma KeptAll(cs: seq<Cut>)
    ensures Kept(cs, cs)
  {
  }
}
