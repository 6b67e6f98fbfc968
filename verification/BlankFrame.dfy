/** Whether a picture is blank. The pixels are looked at in the order of an interlaced PNG image
    (Adam7, section 2.6 of RFC 2083), so that a bright picture is recognised as early as possible. */
module BlankFrame {
  import opened Bytes

  const MAX_BRIGHTNESS := 135
  const TEST_BRIGHTNESS := 80
  const MAX_AVERAGE := 35

  // The luminance plane of a picture, row by row.
  datatype Picture = Picture(pixels: seq<byte>, width: nat, height: nat) {
    ghost predicate Valid() { |pixels| >= width * height }

    predicate Has(x: int, y: int) { 0 <= x < width && 0 <= y < height }

    function At(x: int, y: int): int {
      if 0 <= y * width + x < |pixels| then pixels[y * width + x] else 0
    }
  }

  datatype Rect = Rect(left: int, top: int, right: int, bottom: int) {
    predicate Contains(x: int, y: int) { top <= y <= bottom && left <= x <= right }

    // The rectangle with a margin, where it can be told from an empty one.
    function Widened(): Rect {
      Rect(if left > 4 then left - 4 else left, if top > 4 then top - 4 else top,
           if right > 0 then right + 4 else right, if bottom > 0 then bottom + 4 else bottom)
    }
  }

  // The margin is four pixels wide, but a side that is not behind 4, or not behind 0, stays where it is.
  lemma WidenedIff(rect: Rect, x: int, y: int)
    requires rect.left <= rect.right && rect.top <= rect.bottom
    ensures rect.Widened().Contains(x, y) <==>
      && (exists u, v :: Near(x, u) && Near(y, v) && rect.left <= u <= rect.right && rect.top <= v <= rect.bottom)
      && (rect.left <= 4 ==> x >= rect.left) && (rect.top <= 4 ==> y >= rect.top)
      && (rect.right <= 0 ==> x <= rect.right) && (rect.bottom <= 0 ==> y <= rect.bottom)
  {
    var u := if x < rect.left then rect.left else if x > rect.right then rect.right else x;
    var v := if y < rect.top then rect.top else if y > rect.bottom then rect.bottom else y;
    assert rect.Widened().Contains(x, y) ==> Near(x, u) && Near(y, v);
  }

  predicate Near(x: int, u: int) { -4 <= x - u <= 4 }

  // Without a logo the rectangle is empty and stays so.
  lemma NoLogo(x: int, y: int, top: int, bottom: int)
    ensures !Rect(99999, top, 0, bottom).Widened().Contains(x, y)
  {
  }

  type Pass = p: nat | p < 7

  // First column and distance of columns, first row and distance of rows of each pass.
  function PassStart(p: Pass): nat { if p == 1 then 4 else if p == 3 then 2 else if p == 5 then 1 else 0 }

  function PassInc(p: Pass): nat { if p <= 1 then 8 else if p <= 3 then 4 else if p <= 5 then 2 else 1 }

  function PassYStart(p: Pass): nat { if p == 2 then 4 else if p == 4 then 2 else if p == 6 then 1 else 0 }

  function PassYInc(p: Pass): nat { if p <= 2 then 8 else if p <= 4 then 4 else 2 }

  // Remainder for the distances that occur.
  function Rest(x: nat, n: nat): nat {
    if n == 8 then x % 8 else if n == 4 then x % 4 else if n == 2 then x % 2 else 0
  }

  predicate InRow(p: Pass, y: int) { y >= 0 && Rest(y, PassYInc(p)) == PassYStart(p) }

  predicate InColumn(p: Pass, x: int) { x >= 0 && Rest(x, PassInc(p)) == PassStart(p) }

  // The pass that comes to a pixel.
  function PassOf(x: nat, y: nat): Pass {
    if y % 2 == 1 then 6
    else if x % 2 == 1 then 5
    else if y % 4 == 2 then 4
    else if x % 4 == 2 then 3
    else if y % 8 == 4 then 2
    else if x % 8 == 4 then 1
    else 0
  }

  lemma Remainders(x: nat)
    ensures x % 4 == x % 8 % 4 && x % 2 == x % 8 % 2
  {
    var k, r := x / 8, x % 8;
    assert x == 8 * k + r;
    if r < 4 { assert x == 4 * (2 * k) + r; } else { assert x == 4 * (2 * k + 1) + (r - 4); }
    Halves(x, k, r);
  }

  lemma Halves(x: nat, k: nat, r: nat)
    requires x == 8 * k + r
    ensures x % 2 == r % 2
  {
    assert x == 2 * (4 * k + r / 2) + r % 2;
  }

  // Every pixel belongs to exactly one pass.
  lemma PassesPartition(x: nat, y: nat, p: Pass)
    ensures InRow(p, y) && InColumn(p, x) <==> p == PassOf(x, y)
  {
    Remainders(x);
    Remainders(y);
    PassOfRemainders(x, y, x % 8, y % 8);
    if p == 0 {} else if p == 1 {} else if p == 2 {} else if p == 3 {} else if p == 4 {} else if p == 5 {} else {}
  }

  lemma PassOfRemainders(x: nat, y: nat, a: nat, b: nat)
    requires x % 8 == a && x % 4 == a % 4 && x % 2 == a % 2
    requires y % 8 == b && y % 4 == b % 4 && y % 2 == b % 2
    ensures PassOf(x, y) == PassOf(a, b)
  {
  }

  lemma NextOfKind(n: nat, x: nat, u: nat)
    requires n == 1 || n == 2 || n == 4 || n == 8
    ensures Rest(x + n, n) == Rest(x, n) && Rest(x, n) <= x
    ensures Rest(u, n) == Rest(x, n) && x <= u < x + n ==> u == x
  {
    if n == 8 { assert (x + 8) % 8 == x % 8; } else if n == 4 { assert (x + 4) % 4 == x % 4; } else {}
    if Rest(u, n) == Rest(x, n) && x <= u < x + n { OneOfKind(n, x, u); }
  }

  lemma OneOfKind(n: nat, x: nat, u: nat)
    requires n == 1 || n == 2 || n == 4 || n == 8
    requires Rest(u, n) == Rest(x, n) && x <= u < x + n
    ensures u == x
  {
    if n == 8 {
      assert u - x == 8 * (u / 8 - x / 8);
    } else if n == 4 {
      assert u - x == 4 * (u / 4 - x / 4);
    } else if n == 2 {
      assert u - x == 2 * (u / 2 - x / 2);
    }
  }

  lemma StepColumn(p: Pass, x: int, u: int)
    requires InColumn(p, x)
    ensures InColumn(p, x + PassInc(p))
    ensures InColumn(p, u) && x <= u < x + PassInc(p) ==> u == x
    ensures InColumn(p, u) ==> u >= PassStart(p)
  {
    if u >= 0 { NextOfKind(PassInc(p), x, u); NextOfKind(PassInc(p), u, u); }
    NextOfKind(PassInc(p), x, x);
    hide Rest;
  }

  lemma StepRow(p: Pass, y: int, v: int)
    requires InRow(p, y)
    ensures InRow(p, y + PassYInc(p))
    ensures InRow(p, v) && y <= v < y + PassYInc(p) ==> v == y
    ensures InRow(p, v) ==> v >= PassYStart(p)
  {
    if v >= 0 { NextOfKind(PassYInc(p), y, v); NextOfKind(PassYInc(p), v, v); }
    NextOfKind(PassYInc(p), y, y);
    hide Rest;
  }

  // The pixels that come before column x of row y of pass p.
  predicate Before(p: int, y: int, x: int, u: nat, v: nat) {
    PassOf(u, v) < p || (PassOf(u, v) == p && (v < y || (v == y && u < x)))
  }

  // No pixel that has been looked at and is outside the logo is brighter than level.
  ghost predicate Dark(pic: Picture, logo: Rect, level: int, p: int, y: int, x: int) {
    forall u: nat, v: nat {:trigger Before(p, y, x, u, v)} ::
      pic.Has(u, v) && Before(p, y, x, u, v) && !logo.Contains(u, v) ==> pic.At(u, v) <= level
  }

  // Some pixel outside the logo is brighter than level.
  ghost predicate Bright(pic: Picture, logo: Rect, level: int) {
    exists u: nat, v: nat :: pic.Has(u, v) && !logo.Contains(u, v) && pic.At(u, v) > level
  }

  lemma DarkPixel(pic: Picture, logo: Rect, level: int, p: Pass, y: int, x: int)
    requires Dark(pic, logo, level, p, y, x) && InRow(p, y) && InColumn(p, x)
    requires pic.Has(x, y) && (!logo.Contains(x, y) ==> pic.At(x, y) <= level)
    ensures Dark(pic, logo, level, p, y, x + PassInc(p))
  {
    forall u: nat, v: nat | pic.Has(u, v) && Before(p, y, x + PassInc(p), u, v) && !logo.Contains(u, v)
      ensures pic.At(u, v) <= level
    {
      PassesPartition(u, v, p);
      StepColumn(p, x, u);
      assert Before(p, y, x, u, v) || (u == x && v == y);
    }
  }

  lemma DarkRow(pic: Picture, logo: Rect, level: int, p: Pass, y: int, x: int)
    requires Dark(pic, logo, level, p, y, x) && InRow(p, y) && x >= pic.width
    ensures Dark(pic, logo, level, p, y + PassYInc(p), PassStart(p))
  {
    forall u: nat, v: nat
      | pic.Has(u, v) && Before(p, y + PassYInc(p), PassStart(p), u, v) && !logo.Contains(u, v)
      ensures pic.At(u, v) <= level
    {
      PassesPartition(u, v, p);
      StepRow(p, y, v);
      if InColumn(p, u) { StepColumn(p, u, u); }
      assert Before(p, y, x, u, v);
    }
  }

  lemma DarkPass(pic: Picture, logo: Rect, level: int, p: int, y: int, x: int, y': int, x': int)
    requires Dark(pic, logo, level, p, y, x) && y >= pic.height
    requires 0 <= p < 7
    requires p < 6 ==> y' == PassYStart(p + 1) && x' == PassStart(p + 1)
    ensures Dark(pic, logo, level, p + 1, y', x')
  {
    forall u: nat, v: nat | pic.Has(u, v) && Before(p + 1, y', x', u, v) && !logo.Contains(u, v)
      ensures pic.At(u, v) <= level
    {
      if p < 6 {
        PassesPartition(u, v, p + 1);
        if InRow(p + 1, v) { StepRow(p + 1, v, v); }
        if InColumn(p + 1, u) { StepColumn(p + 1, u, u); }
      }
      assert Before(p, y, x, u, v);
    }
  }

  lemma DarkStart(pic: Picture, logo: Rect, level: int)
    ensures Dark(pic, logo, level, 0, 0, 0)
  {
    forall u: nat, v: nat | Before(0, 0, 0, u, v)
      ensures false
    {
    }
  }

  lemma DarkEnd(pic: Picture, logo: Rect, level: int, y: int, x: int)
    requires Dark(pic, logo, level, 7, y, x)
    ensures !Bright(pic, logo, level)
  {
    forall u: nat, v: nat | pic.Has(u, v) && !logo.Contains(u, v)
      ensures pic.At(u, v) <= level
    {
      assert Before(7, y, x, u, v);
    }
  }

  lemma PixelIndex(pic: Picture, x: int, y: int)
    requires pic.Valid() && pic.Has(x, y)
    ensures 0 <= y * pic.width + x < |pic.pixels| && pic.At(x, y) == pic.pixels[y * pic.width + x]
  {
    assert y * pic.width <= (pic.height - 1) * pic.width;
    assert (pic.height - 1) * pic.width == pic.height * pic.width - pic.width;
  }

  predicate Sampled(n: nat) { n % 4 == 0 }

  // Brightness of the sampled columns of a row, every fourth one, left of column x.
  function RowSum(pic: Picture, y: nat, x: nat): nat {
    if x == 0 then 0 else RowSum(pic, y, x - 1) + if Sampled(x - 1) then Level(pic, x - 1, y) else 0
  }

  // Brightness of the sampled pixels above row y, in every fourth row.
  function FrameSum(pic: Picture, y: nat): nat {
    if y == 0 then 0 else FrameSum(pic, y - 1) + if Sampled(y - 1) then RowSum(pic, y - 1, pic.width) else 0
  }

  function Level(pic: Picture, x: int, y: int): nat { pic.At(x, y) }

  // How many of the first n columns or rows are sampled.
  function Samples(n: nat): nat {
    if n == 0 then 0 else Samples(n - 1) + if Sampled(n - 1) then 1 else 0
  }

  function Average(pic: Picture): (avg: int)
    requires pic.width > 0 && pic.height > 0
  {
    SamplesPositive(pic.width, pic.height);
    FrameSum(pic, pic.height) / (Samples(pic.width) * Samples(pic.height))
  }

  lemma SamplesPositive(w: nat, h: nat)
    requires w > 0 && h > 0
    ensures Samples(w) * Samples(h) > 0
  {
    SomeSample(w);
    SomeSample(h);
  }

  lemma SomeSample(n: nat)
    requires n > 0
    ensures Samples(n) > 0
  {
    if n > 1 { SomeSample(n - 1); }
  }

  function AtMost(a: nat, b: nat): nat { if a < b then a else b }

  lemma SumsStart(pic: Picture)
    ensures Sampled(0) && FrameSum(pic, 0) == 0 && Samples(0) == 0
  {
  }

  lemma RowStart(pic: Picture, y: nat)
    ensures RowSum(pic, y, 0) == 0
  {
  }

  lemma FourColumns(pic: Picture, y: nat, x: nat, k: nat)
    requires Sampled(x) && 1 <= k <= 4
    ensures RowSum(pic, y, x + k) == RowSum(pic, y, x) + Level(pic, x, y)
    ensures Samples(x + k) == Samples(x) + 1 && Sampled(x + 4)
  {
    hide Level;
    if k > 1 { FourColumns(pic, y, x, k - 1); }
  }

  lemma FourRows(pic: Picture, y: nat, k: nat)
    requires Sampled(y) && 1 <= k <= 4
    ensures FrameSum(pic, y + k) == FrameSum(pic, y) + RowSum(pic, y, pic.width)
    ensures Samples(y + k) == Samples(y) + 1 && Sampled(y + 4)
  {
    hide RowSum;
    if k > 1 { FourRows(pic, y, k - 1); }
  }

  ghost predicate Between(pic: Picture, low: int, high: int) {
    forall u: nat, v: nat :: pic.Has(u, v) && Sampled(u) && Sampled(v) ==> low <= Level(pic, u, v) <= high
  }

  lemma LevelBetween(pic: Picture, low: int, high: int, x: nat, y: nat)
    requires Between(pic, low, high) && pic.Has(x, y) && Sampled(x) && Sampled(y)
    ensures low <= Level(pic, x, y) <= high
  {
  }

  lemma OneMore(a: int, n: int)
    ensures a * (n + 1) == a * n + a
  {
  }

  lemma {:induction false} RowSumBetween(pic: Picture, low: int, high: int, y: nat, x: nat)
    requires Between(pic, low, high) && y < pic.height && Sampled(y) && x <= pic.width
    ensures low * Samples(x) <= RowSum(pic, y, x) <= high * Samples(x)
  {
    hide Sampled, Level, Between;
    if x > 0 {
      RowSumBetween(pic, low, high, y, x - 1);
      if Sampled(x - 1) {
        LevelBetween(pic, low, high, x - 1, y);
        OneMore(low, Samples(x - 1));
        OneMore(high, Samples(x - 1));
      }
    }
  }

  lemma {:induction false} FrameSumBetween(pic: Picture, low: int, high: int, y: nat)
    requires Between(pic, low, high) && y <= pic.height
    ensures low * (Samples(pic.width) * Samples(y)) <= FrameSum(pic, y) <= high * (Samples(pic.width) * Samples(y))
  {
    hide Sampled, RowSum, Between;
    if y > 0 {
      FrameSumBetween(pic, low, high, y - 1);
      if Sampled(y - 1) {
        RowSumBetween(pic, low, high, y - 1, pic.width);
        OneMoreRow(low, Samples(pic.width), Samples(y - 1));
        OneMoreRow(high, Samples(pic.width), Samples(y - 1));
      }
    }
  }

  lemma OneMoreRow(a: int, w: int, s: int)
    ensures a * (w * (s + 1)) == a * (w * s) + a * w
  {
    assert w * (s + 1) == w * s + w;
  }

  // The average lies between any bounds of the sampled pixels.
  lemma AverageBetween(pic: Picture, low: int, high: int)
    requires pic.width > 0 && pic.height > 0 && Between(pic, low, high)
    ensures low <= Average(pic) <= high
  {
    SamplesPositive(pic.width, pic.height);
    FrameSumBetween(pic, low, high, pic.height);
    QuotientBetween(FrameSum(pic, pic.height), Samples(pic.width) * Samples(pic.height), low, high);
  }

  lemma QuotientBetween(sum: nat, n: nat, low: int, high: int)
    requires n > 0 && low * n <= sum <= high * n
    ensures low <= sum / n <= high
  {
    var q := sum / n;
    assert q * n <= sum < (q + 1) * n;
    if q < low { Times(q + 1, low, n); assert false; }
    OneMore(n, high);
    if q > high { Times(high + 1, q, n); assert false; }
  }

  lemma Times(a: int, b: int, n: nat)
    requires a <= b
    ensures a * n <= b * n
  {
  }

  // What makes a picture blank: nothing bright outside the logo, and if there is anything
  // of middle brightness, a dark picture on average.
  ghost predicate Blank(pic: Picture, logo: Rect) {
    && pic.width > 0 && pic.height > 0
    && !Bright(pic, logo, MAX_BRIGHTNESS)
    && (Bright(pic, logo, TEST_BRIGHTNESS) ==> Average(pic) <= MAX_AVERAGE)
  }

  // Whether a pixel lies in the rectangle of the logo or in its margin.
  predicate Spared(rect: Rect, x: int, y: int) {
    && x >= (if rect.left > 4 then rect.left - 4 else rect.left)
    && x <= (if rect.right > 0 then rect.right + 4 else rect.right)
    && y >= (if rect.top > 4 then rect.top - 4 else rect.top)
    && y <= (if rect.bottom > 0 then rect.bottom + 4 else rect.bottom)
  }

  lemma BlankIff(pic: Picture, rect: Rect)
    ensures Blank(pic, rect.Widened()) <==>
      && pic.width > 0 && pic.height > 0
      && (forall x: nat, y: nat :: pic.Has(x, y) && !Spared(rect, x, y) ==> pic.At(x, y) <= 135)
      && ((exists x: nat, y: nat :: pic.Has(x, y) && !Spared(rect, x, y) && pic.At(x, y) > 80) ==> Average(pic) <= 35)
  {
    forall x, y
      ensures rect.Widened().Contains(x, y) <==> Spared(rect, x, y)
    {
    }
    hide Rect.Widened, Rect.Contains, Spared, Average;
  }

  // The sampled pixels as a grid: the first k of every fourth one of a row, and the first k of these rows.
  function GridRow(pic: Picture, y: nat, k: nat): nat {
    if k == 0 then 0 else GridRow(pic, y, k - 1) + Level(pic, 4 * (k - 1), y)
  }

  function Grid(pic: Picture, k: nat): nat {
    if k == 0 then 0 else Grid(pic, k - 1) + GridRow(pic, 4 * (k - 1), (pic.width + 3) / 4)
  }

  lemma {:induction false} RowIsGridRow(pic: Picture, y: nat, x: nat)
    ensures RowSum(pic, y, x) == GridRow(pic, y, (x + 3) / 4)
    ensures Samples(x) == (x + 3) / 4
  {
    if x > 0 {
      RowIsGridRow(pic, y, x - 1);
      hide Level;
      if Sampled(x - 1) { assert (x + 3) / 4 == (x + 2) / 4 + 1 && 4 * ((x + 2) / 4) == x - 1; }
    }
  }

  lemma {:induction false} FrameIsGrid(pic: Picture, y: nat)
    ensures FrameSum(pic, y) == Grid(pic, (y + 3) / 4)
  {
    if y > 0 {
      FrameIsGrid(pic, y - 1);
      RowIsGridRow(pic, y - 1, pic.width);
      hide RowSum, GridRow, Samples;
      if Sampled(y - 1) { assert (y + 3) / 4 == (y + 2) / 4 + 1 && 4 * ((y + 2) / 4) == y - 1; }
    }
  }

  // The average is the mean of the pixels whose column and row are multiples of four, rounded down.
  lemma AverageIsMean(pic: Picture)
    requires pic.width > 0 && pic.height > 0
    ensures (pic.width + 3) / 4 * ((pic.height + 3) / 4) > 0
    ensures Average(pic) == Grid(pic, (pic.height + 3) / 4) / ((pic.width + 3) / 4 * ((pic.height + 3) / 4))
  {
    SamplesPositive(pic.width, pic.height);
    FrameIsGrid(pic, pic.height);
    RowIsGridRow(pic, 0, pic.width);
    RowIsGridRow(pic, 0, pic.height);
    hide Samples, Grid, FrameSum, RowSum, GridRow;
  }

  // What the loops know when they are at column x of row y of pass p.
  ghost predicate Looked(pic: Picture, logo: Rect, isDim: bool, p: int, y: int, x: int) {
    && Dark(pic, logo, MAX_BRIGHTNESS, p, y, x)
    && (isDim ==> Bright(pic, logo, TEST_BRIGHTNESS))
    && (!isDim ==> Dark(pic, logo, TEST_BRIGHTNESS, p, y, x))
  }

  lemma LookedPixel(pic: Picture, logo: Rect, isDim: bool, p: Pass, y: int, x: int, isDim': bool)
    requires Looked(pic, logo, isDim, p, y, x) && InRow(p, y) && InColumn(p, x) && pic.Has(x, y)
    requires !logo.Contains(x, y) ==> pic.At(x, y) <= MAX_BRIGHTNESS
    requires isDim' == (isDim || (!logo.Contains(x, y) && pic.At(x, y) > TEST_BRIGHTNESS))
    ensures Looked(pic, logo, isDim', p, y, x + PassInc(p))
  {
    DarkPixel(pic, logo, MAX_BRIGHTNESS, p, y, x);
    if !isDim' { DarkPixel(pic, logo, TEST_BRIGHTNESS, p, y, x); }
    hide Dark;
    var u: nat, v: nat := x, y;
    assert isDim' && !isDim ==> !logo.Contains(u, v) && pic.At(u, v) > TEST_BRIGHTNESS;
  }

  lemma LookedRow(pic: Picture, logo: Rect, isDim: bool, p: Pass, y: int, x: int)
    requires Looked(pic, logo, isDim, p, y, x) && InRow(p, y) && x >= pic.width
    ensures Looked(pic, logo, isDim, p, y + PassYInc(p), PassStart(p))
  {
    DarkRow(pic, logo, MAX_BRIGHTNESS, p, y, x);
    if !isDim { DarkRow(pic, logo, TEST_BRIGHTNESS, p, y, x); }
    hide Dark, Bright;
  }

  lemma LookedPass(pic: Picture, logo: Rect, isDim: bool, p: int, y: int, x: int, y': int, x': int)
    requires Looked(pic, logo, isDim, p, y, x) && y >= pic.height
    requires 0 <= p < 7
    requires p < 6 ==> y' == PassYStart(p + 1) && x' == PassStart(p + 1)
    ensures Looked(pic, logo, isDim, p + 1, y', x')
  {
    DarkPass(pic, logo, MAX_BRIGHTNESS, p, y, x, y', x');
    if !isDim { DarkPass(pic, logo, TEST_BRIGHTNESS, p, y, x, y', x'); }
    hide Dark, Bright;
  }

  class NoadData {
    var grabWidth: nat
    var grabHeight: nat
    var isMonoFrame: int

    constructor (width: nat, height: nat)
      ensures grabWidth == width && grabHeight == height && isMonoFrame == -1
    {
      grabWidth, grabHeight, isMonoFrame := width, height, -1;
    }

    method GetAvgBrightness(pic: Picture) returns (avg: int)
      requires pic.Valid() && pic.width == grabWidth > 0 && pic.height == grabHeight > 0
      ensures avg == Average(pic)
    {
      hide Sampled, RowSum, FrameSum, Samples;
      var brightness, pixels := 0, 0;
      var y := 0;
      SumsStart(pic);
      while y < grabHeight
        invariant Sampled(y)
        invariant brightness == FrameSum(pic, AtMost(y, pic.height))
        invariant pixels == Samples(pic.width) * Samples(AtMost(y, pic.height))
      {
        var sum, n := RowOf(pic, y);
        FourRows(pic, y, AtMost(y + 4, pic.height) - y);
        OneMore(Samples(pic.width), Samples(y));
        brightness, pixels := brightness + sum, pixels + n;
        y := y + 4;
      }
      SamplesPositive(pic.width, pic.height);
      avg := brightness / pixels;
    }

    // The inner loop: one row of samples.
    method RowOf(pic: Picture, y: nat) returns (sum: nat, n: nat)
      requires pic.Valid() && pic.width == grabWidth && y < pic.height
      ensures sum == RowSum(pic, y, pic.width) && n == Samples(pic.width)
    {
      hide Sampled, RowSum, FrameSum, Samples;
      sum, n := 0, 0;
      var x := 0;
      var yPos := y * grabWidth;
      SumsStart(pic);
      RowStart(pic, y);
      while x < grabWidth
        invariant Sampled(x)
        invariant sum == RowSum(pic, y, AtMost(x, pic.width))
        invariant n == Samples(AtMost(x, pic.width))
      {
        PixelIndex(pic, x, y);
        sum, n := sum + pic.pixels[yPos + x] as int, n + 1;
        FourColumns(pic, y, x, AtMost(x + 4, pic.width) - x);
        x := x + 4;
      }
    }

    // rect is what the logo search gives.
    method CheckFrameIsBlank(pic: Picture, rect: Rect) returns (blank: bool)
      requires pic.Valid() && pic.width == grabWidth && pic.height == grabHeight
      modifies this`isMonoFrame
      ensures blank <==> Blank(pic, rect.Widened())
      ensures blank <==>
        && pic.width > 0 && pic.height > 0
        && (forall x: nat, y: nat :: pic.Has(x, y) && !Spared(rect, x, y) ==> pic.At(x, y) <= 135)
        && ((exists x: nat, y: nat :: pic.Has(x, y) && !Spared(rect, x, y) && pic.At(x, y) > 80) ==> Average(pic) <= 35)
      ensures isMonoFrame == if blank then 1 else 0
    {
      BlankIff(pic, rect);
      isMonoFrame := 0;
      if grabWidth == 0 || grabHeight == 0 { return false; }
      var logo := rect.Widened();
      var isDim := false;
      var pass := 0;
      ghost var y, x := 0, 0;
      DarkStart(pic, logo, MAX_BRIGHTNESS);
      DarkStart(pic, logo, TEST_BRIGHTNESS);
      hide Dark, Bright, PassStart, PassYStart, PassInc, PassYInc, Average, Rest, Rect.Widened;
      while pass < 7
        invariant 0 <= pass <= 7
        invariant pass < 7 ==> y == PassYStart(pass) && x == PassStart(pass)
        invariant Looked(pic, logo, isDim, pass, y, x)
        invariant isMonoFrame == 0
      {
        var bright;
        bright, isDim, y, x := RunPass(pic, logo, pass, isDim);
        if bright { return false; }
        var y', x' := 0, 0;
        if pass < 6 { y', x' := PassYStart(pass + 1), PassStart(pass + 1); }
        LookedPass(pic, logo, isDim, pass, y, x, y', x');
        y, x := y', x';
        pass := pass + 1;
      }
      DarkEnd(pic, logo, MAX_BRIGHTNESS, y, x);
      if !isDim { DarkEnd(pic, logo, TEST_BRIGHTNESS, y, x); }
      if isDim {
        var avg := GetAvgBrightness(pic);
        if avg > MAX_AVERAGE { return false; }
      }
      isMonoFrame := 1;
      return true;
    }

    // The two inner loops; y and x are where they stop.
    method RunPass(pic: Picture, logo: Rect, pass: Pass, dim: bool)
      returns (bright: bool, isDim: bool, ghost y: nat, ghost x: nat)
      requires pic.Valid() && pic.width == grabWidth && pic.height == grabHeight
      requires Looked(pic, logo, dim, pass, PassYStart(pass), PassStart(pass))
      ensures bright ==> Bright(pic, logo, MAX_BRIGHTNESS)
      ensures !bright ==> Looked(pic, logo, isDim, pass, y, x) && y >= pic.height
    {
      isDim := dim;
      var row := PassYStart(pass);
      x := PassStart(pass);
      hide Looked, Bright;
      while row < grabHeight
        invariant InRow(pass, row) && x == PassStart(pass)
        invariant Looked(pic, logo, isDim, pass, row, x)
      {
        bright, isDim, x := RunRow(pic, logo, pass, row, isDim);
        if bright { return true, isDim, row, x; }
        StepRow(pass, row, row);
        LookedRow(pic, logo, isDim, pass, row, x);
        x := PassStart(pass);
        row := row + PassYInc(pass);
      }
      return false, isDim, row, x;
    }

    method RunRow(pic: Picture, logo: Rect, pass: Pass, y: nat, dim: bool)
      returns (bright: bool, isDim: bool, ghost x: nat)
      requires pic.Valid() && pic.width == grabWidth && y < pic.height && InRow(pass, y)
      requires Looked(pic, logo, dim, pass, y, PassStart(pass))
      ensures bright ==> Bright(pic, logo, MAX_BRIGHTNESS)
      ensures !bright ==> Looked(pic, logo, isDim, pass, y, x) && x >= pic.width
    {
      isDim := dim;
      var yPos := y * grabWidth;
      var col := PassStart(pass);
      hide Looked;
      while col < grabWidth
        invariant InColumn(pass, col)
        invariant Looked(pic, logo, isDim, pass, y, col)
      {
        ghost var was := isDim;
        PixelIndex(pic, col, y);
        if !logo.Contains(col, y) {
          if pic.pixels[yPos + col] as int > MAX_BRIGHTNESS { return true, isDim, col; }
          if pic.pixels[yPos + col] as int > TEST_BRIGHTNESS { isDim := true; }
        }
        StepColumn(pass, col, col);
        LookedPixel(pic, logo, was, pass, y, col, isDim);
        col := col + PassInc(pass);
      }
      return false, isDim, col;
    }
  }
}
