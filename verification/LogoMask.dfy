/** Where the brightness of a picture corner rises and falls along its rows: the mask that the
    search for a logo narrows down from picture to picture. */
module LogoMask {
  import opened Bytes

  const RISES: byte := 1
  const FALLS: byte := 2
  const TOO_BRIGHT := 200
  const SHOWN: byte := 255

  // Pixels are numbered row by row. Those with two more pixels to their right have a mask entry.
  predicate Inner(i: nat, w: nat) { w > 0 && i % w + 2 < w }

  lemma RowStart(y: nat, w: nat, h: nat)
    requires y < h
    ensures 0 <= y * w && y * w + w <= w * h && (y + 1) * w == y * w + w
  {
    assert (y + 1) * w <= h * w;
  }

  lemma InRow(y: nat, w: nat, x: nat)
    requires x < w
    ensures Inner(y * w + x, w) <==> x + 2 < w
  {
    RowRemainder(y, w, x);
  }

  lemma {:induction false} RowRemainder(y: nat, w: nat, x: nat)
    requires x < w
    ensures (y * w + x) % w == x
  {
    if y > 0 {
      RowRemainder(y - 1, w, x);
      assert y * w + x == (y - 1) * w + x + w;
      RemainderStep((y - 1) * w + x, w);
    }
  }

  lemma RemainderStep(n: nat, w: nat)
    requires w > 0
    ensures (n + w) % w == n % w
  {
    var q, r := n / w, n % w;
    assert n + w == (q + 1) * w + r;
    SameQuotient(n + w, w, q + 1, r, (n + w) / w, (n + w) % w);
  }

  lemma SameQuotient(n: nat, w: nat, q: int, r: nat, q': int, r': nat)
    requires r < w && r' < w && n == q * w + r == q' * w + r'
    ensures r == r'
  {
    assert (q - q') * w == r' - r;
    if q > q' { Times(1, q - q', w); assert false; }
    if q < q' { Times(q - q', -1, w); assert false; }
  }

  lemma Times(a: int, b: int, w: nat)
    requires a <= b
    ensures a * w <= b * w
  {
  }

  // Direction of the change from a to b.
  function Diversion(a: byte, b: byte): byte { if b > a then RISES else if b < a then FALLS else 0 }

  // Whether a picture with brightness a and b speaks for an entry; pixels that are too bright do not count.
  predicate Agrees(entry: byte, a: byte, b: byte) {
    a as int >= TOO_BRIGHT || b as int >= TOO_BRIGHT || Diversion(a, b) == entry
  }

  function Updated(entry: byte, a: byte, b: byte): byte { if entry != 0 && Agrees(entry, a, b) then entry else 0 }

  // The mask of a picture. The two last columns keep their pixels.
  function DiversionAt(pic: seq<byte>, w: nat, i: nat): byte
    requires i < |pic|
  {
    if Inner(i, w) && i + 2 < |pic| then Diversion(pic[i], pic[i + 2]) else pic[i]
  }

  function Diversions(pic: seq<byte>, w: nat): (m: seq<byte>)
    ensures |m| == |pic|
    ensures forall i :: 0 <= i < |m| ==> m[i] == DiversionAt(pic, w, i)
  {
    seq(|pic|, i requires 0 <= i < |pic| => DiversionAt(pic, w, i))
  }

  ghost predicate IsMask(mask: seq<byte>, w: nat) {
    forall i :: 0 <= i < |mask| && Inner(i, w) ==> mask[i] as int <= 2
  }

  function UpdatedAt(mask: seq<byte>, pic: seq<byte>, w: nat, i: nat): byte
    requires i < |mask| == |pic|
  {
    if Inner(i, w) && i + 2 < |pic| then Updated(mask[i], pic[i], pic[i + 2]) else mask[i]
  }

  function Update(mask: seq<byte>, pic: seq<byte>, w: nat): (m: seq<byte>)
    requires |mask| == |pic|
    ensures |m| == |mask|
    ensures forall i :: 0 <= i < |m| ==> m[i] == UpdatedAt(mask, pic, w, i)
  {
    seq(|mask|, i requires 0 <= i < |mask| => UpdatedAt(mask, pic, w, i))
  }

  // A mask after a run of pictures.
  function UpdateAll(mask: seq<byte>, pics: seq<seq<byte>>, w: nat): (m: seq<byte>)
    requires forall p :: p in pics ==> |p| == |mask|
    ensures |m| == |mask|
  {
    if pics == [] then mask else Update(UpdateAll(mask, pics[..|pics| - 1], w), pics[|pics| - 1], w)
  }

  // An entry survives a run of pictures exactly when every one of them speaks for it.
  lemma {:induction false} SurvivesIff(mask: seq<byte>, pics: seq<seq<byte>>, w: nat, i: nat)
    requires forall p :: p in pics ==> |p| == |mask|
    requires Inner(i, w) && i + 2 < |mask| && mask[i] != 0
    ensures UpdateAll(mask, pics, w)[i] == if AllAgree(mask, pics, i) then mask[i] else 0
  {
    if pics != [] {
      var front, last := pics[..|pics| - 1], pics[|pics| - 1];
      SurvivesIff(mask, front, w, i);
      assert pics == front + [last];
      assert AllAgree(mask, pics, i) <==> AllAgree(mask, front, i) && Agrees(mask[i], last[i], last[i + 2]);
    }
  }

  predicate AllAgree(mask: seq<byte>, pics: seq<seq<byte>>, i: nat)
    requires (forall p :: p in pics ==> |p| == |mask|) && i + 2 < |mask|
  {
    forall p :: p in pics ==> Agrees(mask[i], p[i], p[i + 2])
  }

  lemma {:induction false} NeverBack(mask: seq<byte>, pics: seq<seq<byte>>, w: nat, i: nat)
    requires (forall p :: p in pics ==> |p| == |mask|) && i < |mask|
    ensures mask[i] == 0 || !(Inner(i, w) && i + 2 < |mask|) ==> UpdateAll(mask, pics, w)[i] == mask[i]
  {
    if pics != [] { NeverBack(mask, pics[..|pics| - 1], w, i); }
  }

  // Neither the order of the pictures nor how often one is seen matters.
  lemma OrderDoesNotMatter(mask: seq<byte>, pics: seq<seq<byte>>, others: seq<seq<byte>>, w: nat)
    requires (forall p :: p in pics ==> |p| == |mask|) && (forall p :: p in others ==> |p| == |mask|)
    requires (forall p :: p in pics ==> p in others) && (forall p :: p in others ==> p in pics)
    ensures UpdateAll(mask, pics, w) == UpdateAll(mask, others, w)
  {
    forall i | 0 <= i < |mask|
      ensures UpdateAll(mask, pics, w)[i] == UpdateAll(mask, others, w)[i]
    {
      NeverBack(mask, pics, w, i);
      NeverBack(mask, others, w, i);
      if mask[i] != 0 && Inner(i, w) && i + 2 < |mask| {
        SurvivesIff(mask, pics, w, i);
        SurvivesIff(mask, others, w, i);
      }
    }
  }

  // How many of the first n entries are left.
  function Left(mask: seq<byte>, w: nat, n: nat): nat
    requires n <= |mask|
  {
    if n == 0 then 0 else Left(mask, w, n - 1) + if Inner(n - 1, w) && mask[n - 1] != 0 then 1 else 0
  }

  // Entries only ever disappear.
  lemma {:induction false} LeftFalls(mask: seq<byte>, pic: seq<byte>, w: nat, n: nat)
    requires n <= |mask| == |pic|
    ensures Left(Update(mask, pic, w), w, n) <= Left(mask, w, n)
  {
    if n > 0 { LeftFalls(mask, pic, w, n - 1); }
  }

  lemma DiversionsAreMask(pic: seq<byte>, w: nat, h: nat)
    requires |pic| == w * h
    ensures IsMask(Diversions(pic, w), w)
  {
    forall i | 0 <= i < |pic| && Inner(i, w)
      ensures Diversions(pic, w)[i] as int <= 2
    {
      InnerHasNext(i, w, h);
    }
  }

  lemma InnerHasNext(i: nat, w: nat, h: nat)
    requires i < w * h && Inner(i, w)
    ensures i + 2 < w * h
  {
    var y := i / w;
    assert i == y * w + i % w;
    if y >= h { Times(h, y, w); assert false; }
    RowStart(y, w, h);
  }

  // What is shown: the picture with its mask.
  function ViewAt(mask: seq<byte>, pic: seq<byte>, w: nat, i: nat): byte
    requires i < |mask| == |pic|
  {
    if Inner(i, w) && mask[i] != 0 then SHOWN else pic[i]
  }

  function View(mask: seq<byte>, pic: seq<byte>, w: nat): (v: seq<byte>)
    requires |mask| == |pic|
    ensures |v| == |mask|
    ensures forall i :: 0 <= i < |v| ==> v[i] == ViewAt(mask, pic, w, i)
  {
    seq(|mask|, i requires 0 <= i < |mask| => ViewAt(mask, pic, w, i))
  }

  // Contents of an array that have turned from one sequence into another up to n.
  ghost predicate Turned(a: seq<byte>, was: seq<byte>, now: seq<byte>, n: nat) {
    && |a| == |was| == |now|
    && forall i :: 0 <= i < |a| ==> a[i] == if i < n then now[i] else was[i]
  }

  lemma TurnedOne(before: seq<byte>, a: seq<byte>, was: seq<byte>, now: seq<byte>, n: nat)
    requires Turned(before, was, now, n) && n < |a| == |before| && a[n] == now[n]
    requires forall i :: 0 <= i < |a| && i != n ==> a[i] == before[i]
    ensures Turned(a, was, now, n + 1)
  {
  }

  lemma TurnedSize(a: seq<byte>, was: seq<byte>, now: seq<byte>, n: nat)
    requires Turned(a, was, now, n)
    ensures |a| == |was| == |now|
  {
  }

  ghost predicate Narrows(now: seq<byte>, was: seq<byte>, pic: seq<byte>, w: nat) {
    |was| == |pic| && now == Update(was, pic, w)
  }

  lemma NarrowsAt(a: seq<byte>, now: seq<byte>, was: seq<byte>, pic: seq<byte>, w: nat, n: nat)
    requires Narrows(now, was, pic, w) && IsMask(was, w) && Turned(a, was, now, n) && Inner(n, w) && n + 2 < |a|
    ensures a[n] as int <= 2 && now[n] == Updated(a[n], pic[n], pic[n + 2])
  {
  }

  // What is known when the entries from start to i have been looked at and n of them are left.
  ghost predicate Updating(
    a: seq<byte>, was: seq<byte>, pic: seq<byte>, now: seq<byte>, w: nat, start: nat, i: nat, n: nat)
  {
    && IsMask(was, w) && Narrows(now, was, pic, w) && Turned(a, was, now, i)
    && start <= i <= |now| && n == Left(now, w, i) - Left(now, w, start)
  }

  lemma UpdatingStart(a: seq<byte>, was: seq<byte>, pic: seq<byte>, now: seq<byte>, w: nat, start: nat)
    requires IsMask(was, w) && Narrows(now, was, pic, w) && Turned(a, was, now, start) && start <= |a|
    ensures Updating(a, was, pic, now, w, start, start, 0)
  {
  }

  lemma UpdatingIs(
    a: seq<byte>, was: seq<byte>, pic: seq<byte>, now: seq<byte>, w: nat, start: nat, i: nat, n: nat)
    requires Updating(a, was, pic, now, w, start, i, n)
    ensures Turned(a, was, now, i) && start <= i <= |now| && n == Left(now, w, i) - Left(now, w, start)
  {
  }

  lemma NarrowsRest(now: seq<byte>, was: seq<byte>, pic: seq<byte>, w: nat)
    requires Narrows(now, was, pic, w)
    ensures forall i :: 0 <= i < |was| && i < |now| && !Inner(i, w) ==> now[i] == was[i]
  {
  }

  // The columns of a row behind which there is no second one are left alone.
  lemma TurnedRest(a: seq<byte>, was: seq<byte>, now: seq<byte>, w: nat, y: nat, x: nat)
    requires Turned(a, was, now, y * w + x) && x <= w <= x + 2
    requires forall i :: 0 <= i < |was| && i < |now| && !Inner(i, w) ==> now[i] == was[i]
    ensures Turned(a, was, now, y * w + w)
  {
    forall i | 0 <= i < |a|
      ensures a[i] == if i < y * w + w then now[i] else was[i]
    {
      if y * w + x <= i < y * w + w { InRow(y, w, i - y * w); }
    }
  }

  lemma {:induction false} LeftRest(mask: seq<byte>, w: nat, y: nat, x: nat, x': nat)
    requires y * w + w <= |mask| && x <= x' <= w <= x + 2
    ensures Left(mask, w, y * w + x) == Left(mask, w, y * w + x')
  {
    if x < x' {
      InRow(y, w, x' - 1);
      LeftRest(mask, w, y, x, x' - 1);
    }
  }

  // The mask of a picture, pixel by pixel: 1 where it gets brighter over two columns, 2 where it gets darker.
  lemma MaskOfPicture(pic: seq<byte>, w: nat, h: nat, x: nat, y: nat)
    requires |pic| == w * h && x < w && y < h
    ensures var i := y * w + x;
      && i < |pic| && (x + 2 < w ==> i + 2 < |pic|)
      && Diversions(pic, w)[i]
         == if x + 2 >= w then pic[i] else if pic[i + 2] > pic[i] then 1 else if pic[i + 2] < pic[i] then 2 else 0
  {
    RowStart(y, w, h);
    InRow(y, w, x);
  }

  // An entry stays in the mask exactly when in each of the pictures one of its pixels is at least 200 or the
  // brightness changes in the same direction.
  lemma StaysInMaskIff(mask: seq<byte>, pics: seq<seq<byte>>, w: nat, h: nat, x: nat, y: nat)
    requires |mask| == w * h && x + 2 < w && y < h && forall p :: p in pics ==> |p| == |mask|
    ensures var i := y * w + x;
      && i + 2 < |mask|
      && (mask[i] == 1 || mask[i] == 2 ==>
          UpdateAll(mask, pics, w)[i]
          == if forall p :: p in pics ==>
               p[i] >= 200 || p[i + 2] >= 200 || (if mask[i] == 1 then p[i + 2] > p[i] else p[i + 2] < p[i])
             then mask[i] else 0)
      && (mask[i] == 0 ==> UpdateAll(mask, pics, w)[i] == 0)
  {
    var i := y * w + x;
    RowStart(y, w, h);
    InRow(y, w, x);
    if mask[i] != 0 { SurvivesIff(mask, pics, w, i); } else { NeverBack(mask, pics, w, i); }
  }

  lemma OnePicture(mask: seq<byte>, pic: seq<byte>, w: nat)
    requires |pic| == |mask|
    ensures UpdateAll(mask, [pic], w) == Update(mask, pic, w)
  {
    assert [pic][..0] == [];
    assert UpdateAll(mask, [], w) == mask;
  }

  // The picture to show is white where the mask has an entry.
  lemma ShownPixel(mask: seq<byte>, pic: seq<byte>, w: nat, h: nat, x: nat, y: nat)
    requires |mask| == |pic| == w * h && x < w && y < h
    ensures var i := y * w + x;
      i < |pic| && View(mask, pic, w)[i] == if x + 2 < w && mask[i] != 0 then 255 else pic[i]
  {
    RowStart(y, w, h);
    InRow(y, w, x);
  }

  ghost function Entries(mask: seq<byte>, w: nat, n: nat): set<nat>
    requires n <= |mask| && w > 0
  {
    set i: nat | i < n && i % w + 2 < w && mask[i] != 0
  }

  // What is counted are the entries of the mask.
  lemma {:induction false} LeftIsCount(mask: seq<byte>, w: nat, n: nat)
    requires n <= |mask| && w > 0
    ensures Left(mask, w, n) == |Entries(mask, w, n)|
  {
    if n > 0 {
      LeftIsCount(mask, w, n - 1);
      var before := Entries(mask, w, n - 1);
      if (n - 1) % w + 2 < w && mask[n - 1] != 0 {
        assert Entries(mask, w, n) == before + {n - 1};
      } else {
        assert Entries(mask, w, n) == before;
      }
    }
  }

  class GetLogo {
    const sizeX: nat
    const sizeY: nat
    const filterData: array<byte>
    const testViewData: array<byte>

    ghost predicate Valid() {
      filterData.Length == testViewData.Length == sizeX * sizeY && filterData != testViewData
    }

    constructor (w: nat, h: nat, init: byte)
      ensures Valid() && sizeX == w && sizeY == h && fresh(filterData) && fresh(testViewData)
      ensures forall i :: 0 <= i < w * h ==> filterData[i] == testViewData[i] == init
    {
      sizeX, sizeY := w, h;
      filterData := new byte[w * h](i => init);
      testViewData := new byte[w * h](i => init);
    }

    // Turns the picture in the filter data into its mask.
    method SetDiversions()
      requires Valid()
      modifies filterData
      ensures filterData[..] == Diversions(old(filterData[..]), sizeX)
      ensures IsMask(filterData[..], sizeX)
    {
      ghost var was := filterData[..];
      ghost var now := Diversions(was, sizeX);
      for y := 0 to sizeY
        invariant Turned(filterData[..], was, now, y * sizeX)
      {
        RowStart(y, sizeX, sizeY);
        DiversionRow(y, was, now);
      }
      Whole(filterData[..], was, now, sizeX, sizeY);
      DiversionsAreMask(was, sizeX, sizeY);
    }

    method DiversionRow(y: nat, ghost was: seq<byte>, ghost now: seq<byte>)
      requires Valid() && y < sizeY && |was| == sizeX * sizeY && now == Diversions(was, sizeX)
      requires Turned(filterData[..], was, now, y * sizeX)
      modifies filterData
      ensures Turned(filterData[..], was, now, (y + 1) * sizeX)
    {
      var offset := y * sizeX;
      RowStart(y, sizeX, sizeY);
      var x := 0;
      hide Inner, Diversion;
      while x + 2 < sizeX
        invariant x == 0 || x + 2 <= sizeX
        invariant Turned(filterData[..], was, now, offset + x)
      {
        InRow(y, sizeX, x);
        ghost var before := filterData[..];
        var change := filterData[offset + x + 2] as int - filterData[offset + x] as int;
        Sign(filterData[offset + x], filterData[offset + x + 2], change);
        if change > 0 { filterData[offset + x] := RISES; }
        if change < 0 { filterData[offset + x] := FALLS; }
        if change == 0 { filterData[offset + x] := 0; }
        TurnedOne(before, filterData[..], was, now, offset + x);
        x := x + 1;
      }
      TurnedRest(filterData[..], was, now, sizeX, y, x);
    }

    // Narrows the mask down by one more picture; returns how many entries are left.
    method UpdateDiversions(src: array<byte>) returns (left: nat)
      requires Valid() && src.Length == filterData.Length && src != filterData && src != testViewData
      requires IsMask(filterData[..], sizeX)
      modifies filterData, testViewData
      ensures filterData[..] == Update(old(filterData[..]), src[..], sizeX)
      ensures IsMask(filterData[..], sizeX)
      ensures left == Left(filterData[..], sizeX, filterData.Length)
      ensures testViewData[..] == View(filterData[..], src[..], sizeX)
    {
      ghost var was, pic := filterData[..], src[..];
      ghost var now := Update(was, pic, sizeX);
      Copy(src, testViewData);
      left := 0;
      for y := 0 to sizeY
        invariant Turned(filterData[..], was, now, y * sizeX)
        invariant Turned(testViewData[..], pic, pic, 0)
        invariant y * sizeX <= |now| && left == Left(now, sizeX, y * sizeX)
      {
        RowStart(y, sizeX, sizeY);
        var n := UpdateRow(src, y, was, pic, now);
        left := left + n;
      }
      Whole(filterData[..], was, now, sizeX, sizeY);
      Show(pic);
    }

    method UpdateRow(src: array<byte>, y: nat, ghost was: seq<byte>, ghost pic: seq<byte>, ghost now: seq<byte>)
      returns (n: nat)
      requires Valid() && y < sizeY && |was| == sizeX * sizeY && src != filterData
      requires pic == src[..] && |pic| == |was| && IsMask(was, sizeX) && Narrows(now, was, pic, sizeX)
      requires Turned(filterData[..], was, now, y * sizeX)
      modifies filterData
      ensures Turned(filterData[..], was, now, (y + 1) * sizeX)
      ensures (y + 1) * sizeX <= |now| && y * sizeX <= |now|
      ensures n == Left(now, sizeX, (y + 1) * sizeX) - Left(now, sizeX, y * sizeX)
    {
      RowStart(y, sizeX, sizeY);
      ghost var x;
      n, x := UpdateColumns(src, y, y * sizeX, was, pic, now);
      hide Left, Turned, Inner, Narrows;
      UpdatingIs(filterData[..], was, pic, now, sizeX, y * sizeX, y * sizeX + x, n);
      NarrowsRest(now, was, pic, sizeX);
      TurnedRest(filterData[..], was, now, sizeX, y, x);
      LeftRest(now, sizeX, y, x, sizeX);
    }

    // The loop over the columns, as far as there are two more; offset is where the row begins.
    method UpdateColumns(src: array<byte>, ghost y: nat, offset: nat,
                         ghost was: seq<byte>, ghost pic: seq<byte>, ghost now: seq<byte>)
      returns (n: nat, ghost x: nat)
      requires filterData.Length == src.Length && src != filterData && pic == src[..]
      requires offset == y * sizeX && offset + sizeX <= filterData.Length
      requires IsMask(was, sizeX) && Narrows(now, was, pic, sizeX) && Turned(filterData[..], was, now, offset)
      modifies filterData
      ensures x <= sizeX <= x + 2 && Updating(filterData[..], was, pic, now, sizeX, offset, offset + x, n)
    {
      var col := 0;
      n := 0;
      UpdatingStart(filterData[..], was, pic, now, sizeX, offset);
      hide Updating, Inner;
      while col + 2 < sizeX
        invariant col == 0 || col + 2 <= sizeX
        invariant Updating(filterData[..], was, pic, now, sizeX, offset, offset + col, n)
      {
        InRow(y, sizeX, col);
        n := UpdateOne(src, offset + col, n, offset, was, pic, now);
        col := col + 1;
      }
      x := col;
    }

    method UpdateOne(src: array<byte>, i: nat, count: nat, ghost start: nat,
                     ghost was: seq<byte>, ghost pic: seq<byte>, ghost now: seq<byte>)
      returns (n: nat)
      requires i + 2 < filterData.Length == src.Length && src != filterData && Inner(i, sizeX) && pic == src[..]
      requires Updating(filterData[..], was, pic, now, sizeX, start, i, count)
      modifies filterData
      ensures Updating(filterData[..], was, pic, now, sizeX, start, i + 1, n)
    {
      hide Inner, Diversion, Updated, Left, Turned, Narrows, IsMask;
      ghost var before := filterData[..];
      NarrowsAt(before, now, was, pic, sizeX, i);
      TurnedSize(before, was, now, i);
      var counts := UpdatePixel(src, i);
      n := if counts then count + 1 else count;
      LeftStep(now, sizeX, i);
      TurnedOne(before, filterData[..], was, now, i);
    }

    // Returns whether the entry is left.
    method UpdatePixel(src: array<byte>, i: nat) returns (counts: bool)
      requires i + 2 < filterData.Length == src.Length && src != filterData && filterData[i] as int <= 2
      modifies filterData
      ensures filterData[i] == Updated(old(filterData[i]), src[i], src[i + 2])
      ensures forall k :: 0 <= k < filterData.Length && k != i ==> filterData[k] == old(filterData[k])
      ensures counts == (filterData[i] != 0)
    {
      var mask := filterData[i];
      var a, b := src[i], src[i + 2];
      counts := false;
      if (b as int) < TOO_BRIGHT && (a as int) < TOO_BRIGHT {
        if mask == RISES {
          if b as int - a as int <= 0 { filterData[i] := 0; } else { counts := true; }
        }
        if mask == FALLS {
          if b as int - a as int >= 0 { filterData[i] := 0; } else { counts := true; }
        }
      } else if mask as int > 0 {
        counts := true;
      }
    }

    method Copy(from: array<byte>, to: array<byte>)
      requires from.Length == to.Length && from != to
      modifies to
      ensures Turned(to[..], from[..], from[..], 0)
    {
      for i := 0 to from.Length
        invariant forall k :: 0 <= k < i ==> to[k] == from[k]
      {
        to[i] := from[i];
      }
    }

    method Show(ghost pic: seq<byte>)
      requires Valid() && Turned(testViewData[..], pic, pic, 0)
      modifies testViewData
      ensures testViewData[..] == View(filterData[..], pic, sizeX)
    {
      ghost var now := View(filterData[..], pic, sizeX);
      for y := 0 to sizeY
        invariant Turned(testViewData[..], pic, now, y * sizeX)
      {
        RowStart(y, sizeX, sizeY);
        ShowRow(y, pic, now);
      }
      Whole(testViewData[..], pic, now, sizeX, sizeY);
    }

    method ShowRow(y: nat, ghost pic: seq<byte>, ghost now: seq<byte>)
      requires Valid() && y < sizeY && |pic| == sizeX * sizeY && now == View(filterData[..], pic, sizeX)
      requires Turned(testViewData[..], pic, now, y * sizeX)
      modifies testViewData
      ensures Turned(testViewData[..], pic, now, (y + 1) * sizeX)
    {
      RowStart(y, sizeX, sizeY);
      var x := 0;
      hide Inner;
      while x + 2 < sizeX
        invariant x == 0 || x + 2 <= sizeX
        invariant Turned(testViewData[..], pic, now, y * sizeX + x)
      {
        InRow(y, sizeX, x);
        ghost var before := testViewData[..];
        if filterData[y * sizeX + x] != 0 { testViewData[y * sizeX + x] := SHOWN; }
        TurnedOne(before, testViewData[..], pic, now, y * sizeX + x);
        x := x + 1;
      }
      TurnedRest(testViewData[..], pic, now, sizeX, y, x);
    }
  }

  lemma Sign(a: byte, b: byte, change: int)
    requires change == b as int - a as int
    ensures Diversion(a, b) == if change > 0 then RISES else if change < 0 then FALLS else 0
  {
  }

  lemma LeftStep(mask: seq<byte>, w: nat, n: nat)
    requires n < |mask| && Inner(n, w)
    ensures Left(mask, w, n + 1) == Left(mask, w, n) + if mask[n] != 0 then 1 else 0
  {
  }

  lemma Whole(a: seq<byte>, was: seq<byte>, now: seq<byte>, w: nat, h: nat)
    requires Turned(a, was, now, h * w) && |a| == w * h
    ensures a == now
  {
  }
}
