/** The test lines of a logo: in each row of its mask the edges where the brightness rises are
    paired with the edges where it falls. */
module LogoLines {
  import opened Bytes
  import opened LogoMask

  type Couple = (nat, nat)

  datatype Line = Line(line: nat, pairs: seq<Couple>)

  // The columns below n of a row that hold an entry, in order; from is where the row begins.
  function Columns(mask: seq<byte>, from: nat, n: nat, entry: byte): (c: seq<nat>)
    requires from + n <= |mask|
  {
    if n == 0 then [] else Columns(mask, from, n - 1, entry) + if mask[from + n - 1] == entry then [n - 1] else []
  }

  // The k-th of one with the k-th of the other, where both are there and neither is column 0.
  function Couples(rises: seq<nat>, falls: seq<nat>): (c: seq<Couple>)
    ensures |c| <= |rises|
  {
    if rises == [] then []
    else
      var k := |rises| - 1;
      Couples(rises[..k], falls) +
      if k < |falls| && rises[k] > 0 && falls[k] > 0 then [(rises[k], falls[k])] else []
  }

  // The last column is not looked at.
  function RowCouples(mask: seq<byte>, from: nat, w: nat): seq<Couple> {
    if w == 0 || from + w > |mask| then []
    else Couples(Columns(mask, from, w - 1, RISES), Columns(mask, from, w - 1, FALLS))
  }

  function Begin(y: nat, w: nat): nat { y * w }

  // The line of a row, if it has couples.
  function RowLine(mask: seq<byte>, w: nat, y: nat): (l: seq<Line>)
    ensures |l| <= 1
  {
    var pairs := RowCouples(mask, Begin(y, w), w);
    if pairs != [] then [Line(y, pairs)] else []
  }

  // The lines of the first h rows.
  function Lines(mask: seq<byte>, w: nat, h: nat): seq<Line> {
    if h == 0 then [] else Lines(mask, w, h - 1) + RowLine(mask, w, h - 1)
  }

  function CoupleCount(lines: seq<Line>): nat {
    if lines == [] then 0 else CoupleCount(lines[..|lines| - 1]) + |lines[|lines| - 1].pairs|
  }

  lemma {:induction false} ColumnsAscend(mask: seq<byte>, from: nat, n: nat, entry: byte)
    requires from + n <= |mask|
    ensures forall j :: 0 <= j < |Columns(mask, from, n, entry)| ==>
      Columns(mask, from, n, entry)[j] < n && mask[from + Columns(mask, from, n, entry)[j]] == entry
    ensures forall i, j :: 0 <= i < j < |Columns(mask, from, n, entry)| ==>
      Columns(mask, from, n, entry)[i] < Columns(mask, from, n, entry)[j]
  {
    if n > 0 { ColumnsAscend(mask, from, n - 1, entry); }
  }

  // The lines are those of the rows that have couples, in the order of the rows.
  lemma {:induction false} LineOfRow(mask: seq<byte>, w: nat, h: nat, l: Line)
    requires l in Lines(mask, w, h)
    ensures l.line < h && RowLine(mask, w, l.line) == [l]
  {
    hide *;
    LinesIs(mask, w, h);
    RowLineAt(mask, w, h - 1);
    if l !in RowLine(mask, w, h - 1) { LineOfRow(mask, w, h - 1, l); }
  }

  lemma LinesIs(mask: seq<byte>, w: nat, h: nat)
    ensures Lines(mask, w, h) == if h == 0 then [] else Lines(mask, w, h - 1) + RowLine(mask, w, h - 1)
  {
  }

  lemma {:induction false} LinesAscend(mask: seq<byte>, w: nat, h: nat, i: nat, j: nat)
    requires i < j < |Lines(mask, w, h)|
    ensures Lines(mask, w, h)[i].line < Lines(mask, w, h)[j].line
  {
    hide RowLine;
    var before := Lines(mask, w, h - 1);
    if j < |before| {
      LinesAscend(mask, w, h - 1, i, j);
    } else {
      RowLineAt(mask, w, h - 1);
      assert before[i] in before && Lines(mask, w, h)[i] == before[i];
      LineOfRow(mask, w, h - 1, before[i]);
      assert Lines(mask, w, h)[j] in RowLine(mask, w, h - 1);
    }
  }

  lemma RowLineAt(mask: seq<byte>, w: nat, y: nat)
    ensures forall l :: l in RowLine(mask, w, y) ==> l.line == y && RowLine(mask, w, y) == [l]
  {
    hide RowCouples, Begin;
  }

  lemma {:induction false} LinesComplete(mask: seq<byte>, w: nat, h: nat, l: Line)
    requires l.line < h && RowLine(mask, w, l.line) == [l]
    ensures l in Lines(mask, w, h)
  {
    hide RowLine;
    if l.line < h - 1 { LinesComplete(mask, w, h - 1, l); }
  }

  // Every column with the entry is there, and as the k-th one when k come before it.
  lemma {:induction false} ColumnsComplete(mask: seq<byte>, from: nat, n: nat, entry: byte, x: nat)
    requires from + n <= |mask| && x < n && mask[from + x] == entry
    ensures var k := |Columns(mask, from, x, entry)|;
      k < |Columns(mask, from, n, entry)| && Columns(mask, from, n, entry)[k] == x
  {
    if x < n - 1 { ColumnsComplete(mask, from, n - 1, entry, x); }
  }

  // A couple is in the list exactly when its columns have the same rank and neither is column 0.
  lemma {:induction false} CoupledIff(rises: seq<nat>, falls: seq<nat>, p: nat, q: nat)
    ensures (p, q) in Couples(rises, falls)
       <==> exists k :: 0 <= k < |rises| && k < |falls| && rises[k] == p > 0 && falls[k] == q > 0
  {
    if rises != [] {
      CoupledIff(rises[..|rises| - 1], falls, p, q);
    }
  }

  predicate Has(mask: seq<byte>, from: nat, x: nat, value: byte) { from + x < |mask| && mask[from + x] == value }

  ghost function Ranked(mask: seq<byte>, from: nat, n: nat, value: byte): set<nat> {
    set x: nat | x < n && Has(mask, from, x, value)
  }

  // How many of the first n pixels of a row have a value.
  ghost function Rank(mask: seq<byte>, from: nat, n: nat, value: byte): nat
    requires from + n <= |mask|
  {
    |Ranked(mask, from, n, value)|
  }

  lemma {:induction false} RankIsSize(mask: seq<byte>, from: nat, n: nat, value: byte)
    requires from + n <= |mask|
    ensures Rank(mask, from, n, value) == |Columns(mask, from, n, value)|
  {
    if n > 0 {
      RankIsSize(mask, from, n - 1, value);
      var before, now := Ranked(mask, from, n - 1, value), Ranked(mask, from, n, value);
      assert now == if Has(mask, from, n - 1, value) then before + {n - 1} else before;
    }
  }

  lemma PlaceIsRank(mask: seq<byte>, from: nat, n: nat, value: byte, x: nat, k: nat)
    requires from + n <= |mask|
    ensures var c := Columns(mask, from, n, value);
      k < |c| && c[k] == x <==> x < n && mask[from + x] == value && Rank(mask, from, x, value) == k
  {
    ColumnsAscend(mask, from, n, value);
    if x < n && mask[from + x] == value {
      ColumnsComplete(mask, from, n, value, x);
      RankIsSize(mask, from, x, value);
    }
  }

  // By the pixels of a row: a 1 and a 2, neither in column 0 nor in the last one, with as many ones in front of
  // the one as twos in front of the other.
  lemma RowCoupledIff(mask: seq<byte>, from: nat, w: nat, p: nat, q: nat)
    requires from + w <= |mask|
    ensures (p, q) in RowCouples(mask, from, w) <==>
      && 0 < p < w - 1 && 0 < q < w - 1 && mask[from + p] == 1 && mask[from + q] == 2
      && Rank(mask, from, p, 1) == Rank(mask, from, q, 2)
  {
    if w > 0 {
      var rises, falls := Columns(mask, from, w - 1, RISES), Columns(mask, from, w - 1, FALLS);
      CoupledIff(rises, falls, p, q);
      if (p, q) in Couples(rises, falls) {
        var k :| 0 <= k < |rises| && k < |falls| && rises[k] == p > 0 && falls[k] == q > 0;
        PlaceIsRank(mask, from, w - 1, RISES, p, k);
        PlaceIsRank(mask, from, w - 1, FALLS, q, k);
      }
      hide Columns, Couples, Rank;
      if 0 < p < w - 1 && 0 < q < w - 1 && mask[from + p] == 1 && mask[from + q] == 2 {
        PlaceIsRank(mask, from, w - 1, RISES, p, Rank(mask, from, p, 1));
        PlaceIsRank(mask, from, w - 1, FALLS, q, Rank(mask, from, q, 2));
      }
    }
  }

  // The lines are exactly those of the rows that have couples.
  lemma LineIff(mask: seq<byte>, w: nat, h: nat, l: Line)
    ensures l in Lines(mask, w, h) <==> l.line < h && l.pairs == RowCouples(mask, l.line * w, w) != []
  {
    if l in Lines(mask, w, h) { LineOfRow(mask, w, h, l); }
    hide RowCouples, Lines;
    if l.line < h && l.pairs == RowCouples(mask, l.line * w, w) != [] {
      assert RowLine(mask, w, l.line) == [l];
      LinesComplete(mask, w, h, l);
    }
  }

  function AllCouples(lines: seq<Line>): seq<Couple> {
    if lines == [] then [] else lines[0].pairs + AllCouples(lines[1..])
  }

  lemma {:induction false} CountIsSize(lines: seq<Line>)
    ensures CoupleCount(lines) == |AllCouples(lines)|
  {
    if lines != [] {
      var front, last := lines[..|lines| - 1], lines[|lines| - 1];
      CountIsSize(front);
      assert lines == front + [last];
      AllCouplesJoined(front, [last]);
      assert AllCouples([last]) == last.pairs + AllCouples([last][1..]);
    }
  }

  lemma {:induction false} AllCouplesJoined(a: seq<Line>, b: seq<Line>)
    ensures AllCouples(a + b) == AllCouples(a) + AllCouples(b)
  {
    if a == [] {
      assert a + b == b;
    } else {
      assert (a + b)[1..] == a[1..] + b;
      AllCouplesJoined(a[1..], b);
    }
  }

  // The couples of a row go from left to right on both sides, so no edge is used twice.
  lemma {:induction false} CouplesAscend(rises: seq<nat>, falls: seq<nat>)
    requires forall i, j :: 0 <= i < j < |rises| ==> rises[i] < rises[j]
    requires forall i, j :: 0 <= i < j < |falls| ==> falls[i] < falls[j]
    ensures forall i, j :: 0 <= i < j < |Couples(rises, falls)| ==>
      Couples(rises, falls)[i].0 < Couples(rises, falls)[j].0 && Couples(rises, falls)[i].1 < Couples(rises, falls)[j].1
  {
    if rises != [] {
      var k := |rises| - 1;
      CouplesAscend(rises[..k], falls);
      if k < |falls| {
        forall i | 0 <= i < |Couples(rises[..k], falls)|
          ensures Couples(rises[..k], falls)[i].0 < rises[k] && Couples(rises[..k], falls)[i].1 < falls[k]
        {
          CoupledBefore(rises[..k], falls, i);
        }
      } else {
        assert Couples(rises, falls) == Couples(rises[..k], falls);
      }
    }
  }

  // So it is for the couples of every row.
  lemma RowCouplesAscend(mask: seq<byte>, from: nat, w: nat, i: nat, j: nat)
    requires i < j < |RowCouples(mask, from, w)|
    ensures RowCouples(mask, from, w)[i].0 < RowCouples(mask, from, w)[j].0
    ensures RowCouples(mask, from, w)[i].1 < RowCouples(mask, from, w)[j].1
  {
    ColumnsAscend(mask, from, w - 1, RISES);
    ColumnsAscend(mask, from, w - 1, FALLS);
    hide Columns, Couples;
    CouplesAscend(Columns(mask, from, w - 1, RISES), Columns(mask, from, w - 1, FALLS));
  }

  lemma CoupledBefore(rises: seq<nat>, falls: seq<nat>, i: nat)
    requires i < |Couples(rises, falls)|
    ensures var (p, q) := Couples(rises, falls)[i];
      exists k :: 0 <= k < |rises| && k < |falls| && rises[k] == p && falls[k] == q
  {
    var (p, q) := Couples(rises, falls)[i];
    assert (p, q) in Couples(rises, falls);
    CoupledIff(rises, falls, p, q);
  }

  lemma {:induction false} FallAdded(rises: seq<nat>, falls: seq<nat>, x: nat)
    ensures Couples(rises, falls + [x])
         == if x > 0 && Nth(rises, |falls|) > 0 then Couples(rises, falls) + [(Nth(rises, |falls|), x)]
            else Couples(rises, falls)
  {
    if rises != [] {
      var k := |rises| - 1;
      FallAdded(rises[..k], falls, x);
      if k < |falls| {
        assert (falls + [x])[k] == falls[k];
      } else if k > |falls| {
        assert rises[..k][|falls|] == rises[|falls|];
      } else {
        assert (falls + [x])[k] == x;
      }
    }
  }

  // The couples among the columns that hold entries of the mask; the two last columns hold pixels.
  function TrueCouples(mask: seq<byte>, from: nat, w: nat): seq<Couple>
    requires from + w <= |mask|
  {
    if w < 2 then [] else Couples(Columns(mask, from, w - 2, RISES), Columns(mask, from, w - 2, FALLS))
  }

  // The last but one column is searched although it holds a pixel. A very dark one is taken for the
  // missing edge when there are more edges of the other kind, and the next of those is not in column 0.
  lemma PixelTakenIff(mask: seq<byte>, from: nat, w: nat)
    requires from + w <= |mask| && w >= 2
    ensures var r, f, pixel := Columns(mask, from, w - 2, RISES), Columns(mask, from, w - 2, FALLS), mask[from + w - 2];
      && RowCouples(mask, from, w) == TrueCouples(mask, from, w) + PixelCouple(r, f, pixel, w - 2)
      && (RowCouples(mask, from, w) == TrueCouples(mask, from, w)
          <==> !(pixel == FALLS && Nth(r, |f|) > 0) && !(pixel == RISES && Nth(f, |r|) > 0))
  {
    hide *;
    RowCouplesIs(mask, from, w);
    var r, f := Columns(mask, from, w - 2, RISES), Columns(mask, from, w - 2, FALLS);
    PixelCoupleOnly(r, f, mask[from + w - 2], w - 2);
  }

  lemma RowCouplesIs(mask: seq<byte>, from: nat, w: nat)
    requires from + w <= |mask| && w >= 2
    ensures var r, f, x := Columns(mask, from, w - 2, RISES), Columns(mask, from, w - 2, FALLS), w - 2;
      && TrueCouples(mask, from, w) == Couples(r, f)
      && RowCouples(mask, from, w) == Couples(
        if mask[from + x] == RISES then r + [x] else r, if mask[from + x] == FALLS then f + [x] else f)
      && (Nth(r, |f|) > 0 || Nth(f, |r|) > 0 ==> x > 0)
  {
    ColumnsStep(mask, from, w - 2, RISES);
    ColumnsStep(mask, from, w - 2, FALLS);
    NoColumns(mask, from);
    hide Columns, Couples;
  }

  lemma PixelCoupleOnly(r: seq<nat>, f: seq<nat>, pixel: byte, x: nat)
    requires Nth(r, |f|) > 0 || Nth(f, |r|) > 0 ==> x > 0
    ensures Couples(if pixel == RISES then r + [x] else r, if pixel == FALLS then f + [x] else f)
         == Couples(r, f) + PixelCouple(r, f, pixel, x)
    ensures Couples(r, f) + PixelCouple(r, f, pixel, x) == Couples(r, f)
       <==> !(pixel == FALLS && Nth(r, |f|) > 0) && !(pixel == RISES && Nth(f, |r|) > 0)
  {
    CouplesStep(r, f, x);
    FallAdded(r, f, x);
    hide Couples, Nth;
    assert Couples(r, f) + [] == Couples(r, f);
  }

  // The couple that a pixel in column x makes.
  function PixelCouple(r: seq<nat>, f: seq<nat>, pixel: byte, x: nat): seq<Couple> {
    if pixel == FALLS && Nth(r, |f|) > 0 then [(Nth(r, |f|), x)]
    else if pixel == RISES && Nth(f, |r|) > 0 then [(x, Nth(f, |r|))]
    else []
  }

  lemma NoColumns(mask: seq<byte>, from: nat)
    requires from <= |mask|
    ensures Columns(mask, from, 0, RISES) == Columns(mask, from, 0, FALLS) == [] && Nth([], 0) == 0
  {
  }

  // For example, a pixel of value 2 is taken for a falling edge, and one of value 1 for a rising one.
  lemma PixelTakenForEdge()
    ensures RowCouples(Diversions([2, 0, 2, 9], 4), 0, 4) == [(1, 2)]
    ensures TrueCouples(Diversions([2, 0, 2, 9], 4), 0, 4) == []
    ensures RowCouples(Diversions([1, 9, 1, 0], 4), 0, 4) == [(2, 1)]
    ensures TrueCouples(Diversions([1, 9, 1, 0], 4), 0, 4) == []
  {
    var m, n := Diversions([2, 0, 2, 9], 4), Diversions([1, 9, 1, 0], 4);
    assert m[0] == 0 && m[1] == RISES && m[2] == FALLS;
    assert n[0] == 0 && n[1] == FALLS && n[2] == RISES;
    TwoColumns(m);
    TwoColumns(n);
    PixelTakenIff(m, 0, 4);
    PixelTakenIff(n, 0, 4);
  }

  lemma TwoColumns(mask: seq<byte>)
    requires |mask| >= 2 && mask[0] == 0
    ensures Columns(mask, 0, 2, RISES) == if mask[1] == RISES then [1] else []
    ensures Columns(mask, 0, 2, FALLS) == if mask[1] == FALLS then [1] else []
  {
    NoColumns(mask, 0);
    ColumnsStep(mask, 0, 0, RISES);
    ColumnsStep(mask, 0, 0, FALLS);
    ColumnsStep(mask, 0, 1, RISES);
    ColumnsStep(mask, 0, 1, FALLS);
    hide Columns;
  }

  lemma ColumnsStep(mask: seq<byte>, from: nat, n: nat, entry: byte)
    requires from + n < |mask|
    ensures Columns(mask, from, n + 1, entry)
         == if mask[from + n] == entry then Columns(mask, from, n, entry) + [n] else Columns(mask, from, n, entry)
  {
  }

  lemma {:induction false} ColumnsPrefix(mask: seq<byte>, from: nat, m: nat, n: nat, entry: byte)
    requires m <= n && from + n <= |mask|
    ensures Columns(mask, from, m, entry) <= Columns(mask, from, n, entry)
  {
    if m < n { ColumnsPrefix(mask, from, m, n - 1, entry); }
  }

  // Where the cursor of a row is when k rising edges have been met.
  ghost predicate CursorAt(mask: seq<byte>, from: nat, end: nat, k: nat, cursor: nat) {
    && cursor <= end && from + end <= |mask|
    && |Columns(mask, from, cursor, FALLS)| <= k
    && (cursor < end ==> |Columns(mask, from, cursor, FALLS)| == k)
  }

  function Nth(c: seq<nat>, k: nat): nat { if k < |c| then c[k] else 0 }

  // The fall that is found for the next rising edge is the one with the same rank.
  lemma CursorStep(mask: seq<byte>, from: nat, end: nat, k: nat, cursor: nat, found: bool, xneg: nat, next: nat)
    requires CursorAt(mask, from, end, k, cursor) && cursor <= next <= end
    requires Columns(mask, from, next, FALLS) == Columns(mask, from, cursor, FALLS) + if found then [xneg] else []
    requires found ==> next > cursor
    requires !found ==> next == end && xneg == 0
    ensures CursorAt(mask, from, end, k + 1, next)
    ensures xneg == Nth(Columns(mask, from, end, FALLS), k)
  {
    ColumnsPrefix(mask, from, next, end, FALLS);
  }

  // A couple in its cell of the list of a line.
  class TestPair {
    const xPos: nat
    const xNeg: nat
    var next: TestPair?

    constructor (p: nat, q: nat)
      ensures xPos == p && xNeg == q && next == null
    {
      xPos, xNeg, next := p, q, null;
    }
  }

  // A line in its cell of the list of lines.
  class TestLine {
    const line: nat
    var next: TestLine?
    var pair: TestPair?

    constructor (y: nat)
      ensures line == y && next == null && pair == null
    {
      line, next, pair := y, null, null;
    }
  }

  // The cells of a list of couples, from its first one on.
  ghost predicate PairChain(head: TestPair?, cells: seq<TestPair>)
    reads cells
  {
    && head == (if cells == [] then null else cells[0])
    && (forall i, j :: 0 <= i < j < |cells| ==> cells[i] != cells[j])
    && forall i {:trigger cells[i].next} :: 0 <= i < |cells| ==>
      cells[i].next == if i + 1 < |cells| then cells[i + 1] else null
  }

  ghost function PairsOf(cells: seq<TestPair>): (c: seq<Couple>)
    ensures |c| == |cells|
  {
    seq(|cells|, i requires 0 <= i < |cells| => (cells[i].xPos, cells[i].xNeg))
  }

  lemma PairsOfMore(cells: seq<TestPair>, pair: TestPair)
    ensures PairsOf(cells + [pair]) == PairsOf(cells) + [(pair.xPos, pair.xNeg)] && PairsOf([]) == []
  {
  }

  lemma PairChainMore(head: TestPair?, cells: seq<TestPair>, pair: TestPair)
    requires pair !in cells && pair.next == null
    requires forall i {:trigger cells[i].next} :: 0 <= i < |cells| ==>
      cells[i].next == if i + 1 < |cells| then cells[i + 1] else pair
    requires forall i, j :: 0 <= i < j < |cells| ==> cells[i] != cells[j]
    requires head == if cells == [] then pair else cells[0]
    ensures PairChain(head, cells + [pair])
  {
  }

  // The cells of a list of lines.
  ghost predicate LineChain(head: TestLine?, cells: seq<TestLine>)
    reads cells
  {
    && head == (if cells == [] then null else cells[0])
    && (forall i, j :: 0 <= i < j < |cells| ==> cells[i] != cells[j])
    && forall i {:trigger cells[i].next} :: 0 <= i < |cells| ==>
      cells[i].next == if i + 1 < |cells| then cells[i + 1] else null
  }

  ghost predicate PairChains(lines: seq<TestLine>, pairs: seq<seq<TestPair>>)
    reads lines, set i, j | 0 <= i < |pairs| && 0 <= j < |pairs[i]| :: pairs[i][j]
  {
    |pairs| == |lines| && forall i :: 0 <= i < |lines| ==> PairChain(lines[i].pair, pairs[i])
  }

  ghost function LinesOf(lines: seq<TestLine>, pairs: seq<seq<TestPair>>): (l: seq<Line>)
    requires |pairs| == |lines|
  {
    seq(|lines|, i requires 0 <= i < |lines| => Line(lines[i].line, PairsOf(pairs[i])))
  }

  lemma LinesOfMore(lines: seq<TestLine>, pairs: seq<seq<TestPair>>, line: TestLine, cells: seq<TestPair>)
    requires |pairs| == |lines|
    ensures LinesOf(lines + [line], pairs + [cells]) == LinesOf(lines, pairs) + [Line(line.line, PairsOf(cells))]
    ensures LinesOf([], []) == []
  {
  }

  // The line of a row while its couples are being found.
  ghost predicate Built(newline: TestLine?, y: nat, cells: seq<TestPair>)
    reads OrNone(newline), cells
  {
    && (newline == null <==> cells == [])
    && (newline != null ==> newline.line == y && newline.next == null && PairChain(newline.pair, cells))
  }

  ghost function OrNone(line: TestLine?): set<object> { if line == null then {} else {line} }

  // What is known when the columns below x of a row have been searched.
  ghost predicate Searching(m: seq<byte>, from: nat, end: nat, x: nat, y: nat, cursor: nat, newline: TestLine?, n: nat,
                            cells: seq<TestPair>)
    reads OrNone(newline), cells
  {
    && from + end <= |m| && x <= end
    && CursorAt(m, from, end, |Columns(m, from, x, RISES)|, cursor)
    && PairsOf(cells) == Couples(Columns(m, from, x, RISES), Columns(m, from, end, FALLS))
    && Built(newline, y, cells) && n == |cells|
  }

  lemma SearchStart(m: seq<byte>, from: nat, end: nat, y: nat)
    requires from + end <= |m|
    ensures Searching(m, from, end, 0, y, 0, null, 0, [])
  {
    CouplesStart(m, from, end, Columns(m, from, end, FALLS));
    BuiltNone(y);
  }

  lemma SearchEnd(
    m: seq<byte>, from: nat, end: nat, y: nat, cursor: nat, newline: TestLine?, n: nat, cells: seq<TestPair>)
    requires Searching(m, from, end, end, y, cursor, newline, n, cells)
    ensures from + end <= |m| && PairsOf(cells) == Couples(Columns(m, from, end, RISES), Columns(m, from, end, FALLS))
    ensures Built(newline, y, cells) && n == |cells|
  {
  }

  class LineSearch {
    const sizeX: nat
    const sizeY: nat
    var linehook: TestLine?
    ghost var lineCells: seq<TestLine>
    ghost var pairCells: seq<seq<TestPair>>

    predicate Fits(mask: array<byte>) { mask.Length == sizeX * sizeY }

    ghost predicate Valid()
      reads this, lineCells, set i, j | 0 <= i < |pairCells| && 0 <= j < |pairCells[i]| :: pairCells[i][j]
    {
      LineChain(linehook, lineCells) && PairChains(lineCells, pairCells)
    }

    // The test lines found so far, in the order of the list.
    ghost function Found(): seq<Line>
      reads this, lineCells, set i, j | 0 <= i < |pairCells| && 0 <= j < |pairCells[i]| :: pairCells[i][j]
      requires Valid()
    {
      LinesOf(lineCells, pairCells)
    }

    constructor (w: nat, h: nat)
      ensures sizeX == w && sizeY == h && Valid() && Found() == []
    {
      sizeX, sizeY, linehook, lineCells, pairCells := w, h, null, [], [];
    }

    // Puts a couple at the end of the list of a line.
    method AddPair(line: TestLine, p: nat, q: nat, ghost cells: seq<TestPair>) returns (ghost more: seq<TestPair>)
      requires PairChain(line.pair, cells)
      modifies line`pair, cells
      ensures PairChain(line.pair, more) && PairsOf(more) == PairsOf(cells) + [(p, q)]
      ensures more[..|cells|] == cells && |more| == |cells| + 1 && fresh(more[|cells|])
    {
      var pair := new TestPair(p, q);
      more := cells + [pair];
      PairsOfMore(cells, pair);
      if line.pair == null {
        line.pair := pair;
      } else {
        var at := LastPair(line, cells);
        at.next := pair;
      }
      PairChainMore(line.pair, cells, pair);
    }

    method LastPair(line: TestLine, ghost cells: seq<TestPair>) returns (at: TestPair)
      requires PairChain(line.pair, cells) && cells != []
      ensures at == cells[|cells| - 1]
    {
      at := line.pair;
      ghost var k := 0;
      while at.next != null
        invariant 0 <= k < |cells| && at == cells[k]
        decreases |cells| - k
      {
        at := at.next;
        k := k + 1;
      }
    }

    method LastLine() returns (at: TestLine)
      requires LineChain(linehook, lineCells) && lineCells != []
      ensures at == lineCells[|lineCells| - 1]
    {
      at := linehook;
      ghost var k := 0;
      while at.next != null
        invariant 0 <= k < |lineCells| && at == lineCells[k]
        decreases |lineCells| - k
      {
        at := at.next;
        k := k + 1;
      }
    }

    // Puts a line with its couples at the end of the list of lines.
    method AddLine(line: TestLine, ghost pairs: seq<TestPair>)
      requires Valid() && line !in lineCells && line.next == null && PairChain(line.pair, pairs)
      modifies this`linehook, this`lineCells, this`pairCells, lineCells
      ensures Valid() && Found() == old(Found()) + [Line(line.line, PairsOf(pairs))]
      ensures lineCells == old(lineCells) + [line] && line.next == null
    {
      hide PairChain;
      LinesOfMore(lineCells, pairCells, line, pairs);
      if linehook == null {
        linehook := line;
      } else {
        var at := LastLine();
        at.next := line;
      }
      lineCells, pairCells := lineCells + [line], pairCells + [pairs];
    }

    // The inner loop: the next falling edge of a row.
    method NextFall(mask: array<byte>, from: nat, end: nat, cursor: nat) returns (found: bool, xneg: nat, next: nat)
      requires from + end <= mask.Length && cursor <= end
      ensures cursor <= next <= end && (found ==> next > cursor) && (!found ==> next == end && xneg == 0)
      ensures Columns(mask[..], from, next, FALLS)
           == Columns(mask[..], from, cursor, FALLS) + if found then [xneg] else []
    {
      found, xneg, next := false, 0, cursor;
      hide Columns;
      while next < end && !found
        invariant cursor <= next <= end && (found ==> next > cursor) && (!found ==> xneg == 0)
        invariant Columns(mask[..], from, next, FALLS)
               == Columns(mask[..], from, cursor, FALLS) + if found then [xneg] else []
      {
        ColumnsStep(mask[..], from, next, FALLS);
        if mask[from + next] == FALLS {
          xneg := next;
          found := true;
        }
        next := next + 1;
      }
    }

    // The fall with rank k, or 0.
    method Partner(mask: array<byte>, from: nat, end: nat, cursor: nat, ghost k: nat) returns (xneg: nat, next: nat)
      requires CursorAt(mask[..], from, end, k, cursor)
      ensures CursorAt(mask[..], from, end, k + 1, next)
      ensures xneg == Nth(Columns(mask[..], from, end, FALLS), k)
    {
      var found;
      found, xneg, next := NextFall(mask, from, end, cursor);
      hide Columns;
      CursorStep(mask[..], from, end, k, cursor, found, xneg, next);
    }

    // The line of one row with its couples, if there are any.
    method FindCouples(mask: array<byte>, y: nat) returns (newline: TestLine?, n: nat, ghost cells: seq<TestPair>)
      requires Begin(y, sizeX) + sizeX <= mask.Length
      ensures PairsOf(cells) == RowCouples(mask[..], Begin(y, sizeX), sizeX) && n == |cells|
      ensures newline == null <==> cells == []
      ensures newline != null ==>
        fresh(newline) && newline.line == y && newline.next == null && PairChain(newline.pair, cells)
    {
      var end := if sizeX == 0 then 0 else sizeX - 1;
      RowCouplesOf(mask[..], Begin(y, sizeX), sizeX, end);
      BeginOf(y, sizeX);
      hide *;
      newline, n, cells := SearchColumns(mask, y * sizeX, end, y);
      BuiltIs(newline, y, cells);
    }

    // The loop over the columns.
    method SearchColumns(mask: array<byte>, from: nat, end: nat, y: nat)
      returns (newline: TestLine?, n: nat, ghost cells: seq<TestPair>)
      requires from + end <= mask.Length && (end > 0 ==> from + end < mask.Length)
      ensures PairsOf(cells) == Couples(Columns(mask[..], from, end, RISES), Columns(mask[..], from, end, FALLS))
      ensures Built(newline, y, cells) && n == |cells| && (newline != null ==> fresh(newline))
    {
      newline, n, cells := null, 0, [];
      var l2r, x := 0, 0;
      ghost var m := mask[..];
      SearchStart(m, from, end, y);
      hide Searching;
      while x < end
        invariant 0 <= x <= end && mask[..] == m
        invariant Searching(m, from, end, x, y, l2r, newline, n, cells)
        invariant newline == null || fresh(newline)
        invariant forall i :: 0 <= i < |cells| ==> fresh(cells[i])
      {
        newline, n, l2r, cells := SearchColumn(mask, from, end, x, y, l2r, newline, n, cells, m);
        x := x + 1;
      }
      SearchEnd(m, from, end, y, l2r, newline, n, cells);
    }

    // One round of the loop over the columns.
    method SearchColumn(
      mask: array<byte>, from: nat, end: nat, x: nat, y: nat, cursor: nat, line: TestLine?, count: nat,
      ghost cells: seq<TestPair>, ghost m: seq<byte>)
      returns (newline: TestLine?, n: nat, l2r: nat, ghost more: seq<TestPair>)
      requires m == mask[..] && from + end < mask.Length && x < end
      requires Searching(m, from, end, x, y, cursor, line, count, cells)
      modifies OrNone(line), cells
      ensures Searching(m, from, end, x + 1, y, l2r, newline, n, more)
      ensures newline == line || fresh(newline)
      ensures forall i :: 0 <= i < |more| ==> (i < |cells| && more[i] == cells[i]) || fresh(more[i])
    {
      hide Columns, Couples, CursorAt, PairsOf, Built;
      var xpos, xneg;
      xpos, xneg, l2r := CoupleAt(mask, from, end, x, cursor, m);
      newline, n, more := line, count, cells;
      if xpos > 0 && xneg > 0 { newline, n, more := SetPair(line, y, xpos, xneg, count, cells); }
    }

    // The columns of the couple that a column begins, or 0.
    method CoupleAt(mask: array<byte>, from: nat, end: nat, x: nat, cursor: nat, ghost m: seq<byte>)
      returns (xpos: nat, xneg: nat, l2r: nat)
      requires m == mask[..] && from + end < mask.Length && x < end
      requires CursorAt(m, from, end, |Columns(m, from, x, RISES)|, cursor)
      ensures CursorAt(m, from, end, |Columns(m, from, x + 1, RISES)|, l2r)
      ensures var falls := Columns(m, from, end, FALLS);
        Couples(Columns(m, from, x + 1, RISES), falls)
        == if xpos > 0 && xneg > 0 then Couples(Columns(m, from, x, RISES), falls) + [(xpos, xneg)]
           else Couples(Columns(m, from, x, RISES), falls)
    {
      hide Columns, Couples, CursorAt;
      ColumnsStep(m, from, x, RISES);
      xpos, xneg, l2r := 0, 0, cursor;
      if mask[from + x] == RISES {
        xpos := x;
        xneg, l2r := Partner(mask, from, end, l2r, |Columns(m, from, x, RISES)|);
        CouplesStep(Columns(m, from, x, RISES), Columns(m, from, end, FALLS), x);
      }
    }

    // Sets a couple in the line of a row, which is created for the first one.
    method SetPair(line: TestLine?, y: nat, p: nat, q: nat, count: nat, ghost cells: seq<TestPair>)
      returns (newline: TestLine, n: nat, ghost more: seq<TestPair>)
      requires Built(line, y, cells)
      modifies OrNone(line), cells
      ensures Built(newline, y, more) && n == count + 1 && |more| == |cells| + 1
      ensures PairsOf(more) == PairsOf(cells) + [(p, q)]
      ensures (newline == line || fresh(newline)) && more[..|cells|] == cells && fresh(more[|cells|])
    {
      n := count + 1;
      if line == null {
        newline := new TestLine(y);
      } else {
        newline := line;
      }
      more := AddPair(newline, p, q, cells);
    }

    // Adds the lines with couples to the list; returns the number of couples.
    method SetTestlines(mask: array<byte>) returns (couples: nat)
      requires Valid() && Fits(mask)
      modifies this`linehook, this`lineCells, this`pairCells, lineCells
      ensures Valid() && Found() == old(Found()) + Lines(mask[..], sizeX, sizeY)
      ensures couples == CoupleCount(Lines(mask[..], sizeX, sizeY))
    {
      couples := 0;
      ghost var m, was := mask[..], Found();
      LinesStart(m, sizeX);
      hide Fits, Lines, CoupleCount, Valid, Found, RowLine, LineChain, PairChains, LinesOf;
      for y := 0 to sizeY
        invariant Valid() && mask[..] == m && Found() == was + Lines(m, sizeX, y)
        invariant OldOrFresh()
        invariant couples == CoupleCount(Lines(m, sizeX, y))
      {
        couples := SearchRow(mask, y, couples, was, m);
      }
    }

    // Every cell of the list was in it before or is new.
    twostate predicate OldOrFresh()
      reads this
    {
      forall i :: 0 <= i < |lineCells| ==> lineCells[i] in old(lineCells) || fresh(lineCells[i])
    }

    lemma RowFits(mask: array<byte>, y: nat)
      requires Fits(mask) && y < sizeY
      ensures Begin(y, sizeX) + sizeX <= mask.Length
    {
      RowStart(y, sizeX, sizeY);
    }

    // One round of the outer loop.
    method SearchRow(mask: array<byte>, y: nat, before: nat, ghost was: seq<Line>, ghost m: seq<byte>)
      returns (couples: nat)
      requires Valid() && Fits(mask) && y < sizeY && m == mask[..]
      requires Found() == was + Lines(m, sizeX, y) && before == CoupleCount(Lines(m, sizeX, y))
      modifies this`linehook, this`lineCells, this`pairCells, lineCells
      ensures Valid() && Found() == was + Lines(m, sizeX, y + 1)
      ensures OldOrFresh()
      ensures couples == CoupleCount(Lines(m, sizeX, y + 1))
    {
      hide RowCouples, RowLine, Lines, CoupleCount, Begin, Fits, Valid, Found;
      hide LineChain, PairChains, PairChain, LinesOf;
      RowFits(mask, y);
      var newline, n, cells := FindCouples(mask, y);
      LinesStep(m, sizeX, y);
      if newline != null { AddLine(newline, cells); }
      couples := before + n;
    }
  }

  lemma RowCouplesOf(mask: seq<byte>, from: nat, w: nat, end: nat)
    requires from + w <= |mask| && end == if w == 0 then 0 else w - 1
    ensures RowCouples(mask, from, w) == Couples(Columns(mask, from, end, RISES), Columns(mask, from, end, FALLS))
  {
  }

  lemma BeginOf(y: nat, w: nat)
    ensures Begin(y, w) == y * w
  {
  }

  lemma BuiltNone(y: nat)
    ensures Built(null, y, []) && PairsOf([]) == []
  {
  }

  lemma BuiltIs(newline: TestLine?, y: nat, cells: seq<TestPair>)
    requires Built(newline, y, cells)
    ensures newline == null <==> cells == []
    ensures newline != null ==> newline.line == y && newline.next == null && PairChain(newline.pair, cells)
  {
  }

  lemma LinesStart(mask: seq<byte>, w: nat)
    ensures Lines(mask, w, 0) == [] && CoupleCount([]) == 0
  {
  }

  lemma CouplesStart(mask: seq<byte>, from: nat, end: nat, falls: seq<nat>)
    requires from + end <= |mask|
    ensures Columns(mask, from, 0, RISES) == [] && Couples([], falls) == []
    ensures CursorAt(mask, from, end, 0, 0)
  {
  }

  lemma CouplesStep(rises: seq<nat>, falls: seq<nat>, x: nat)
    ensures Couples(rises + [x], falls)
         == if x > 0 && Nth(falls, |rises|) > 0 then Couples(rises, falls) + [(x, Nth(falls, |rises|))]
            else Couples(rises, falls)
  {
    assert (rises + [x])[..|rises|] == rises;
  }

  lemma LinesStep(mask: seq<byte>, w: nat, y: nat)
    ensures var pairs := RowCouples(mask, Begin(y, w), w);
      && Lines(mask, w, y + 1) == Lines(mask, w, y) + (if pairs != [] then [Line(y, pairs)] else [])
      && CoupleCount(Lines(mask, w, y + 1)) == CoupleCount(Lines(mask, w, y)) + |pairs|
  {
    var pairs := RowCouples(mask, Begin(y, w), w);
    hide RowCouples, Begin;
    if pairs != [] {
      CountOneMore(Lines(mask, w, y), Line(y, pairs));
    } else {
      assert Lines(mask, w, y) + [] == Lines(mask, w, y);
    }
  }

  lemma CountOneMore(lines: seq<Line>, line: Line)
    ensures CoupleCount(lines + [line]) == CoupleCount(lines) + |line.pairs|
  {
    assert (lines + [line])[..|lines|] == lines;
  }
}
