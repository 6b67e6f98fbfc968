/** Time codes: a frame number as hours, minutes, seconds and frames, as text and back. */
module Timecode {
  datatype Option<T> = None | Some(value: T)

  datatype Time = Time(hours: nat, minutes: nat, seconds: nat, frames: nat)

  // Length of the text buffer, without its terminator.
  const LIMIT := 15
  // One more than the largest whole number of seconds an int can hold.
  const INT_END := 0x8000_0000

  // --- Frame numbers and time fields ---

  // The point of time in the middle of a frame.
  function Middle(i: nat, fps: real): (t: real)
    requires fps > 0.0
    ensures t > 0.0 && t * fps == i as real + 0.5
  {
    var t := (i as real + 0.5) / fps;
    Quotient(i as real + 0.5, fps, t);
    t
  }

  lemma Quotient(a: real, b: real, q: real)
    requires a > 0.0 && b > 0.0 && q == a / b
    ensures q > 0.0 && q * b == a
  {
  }

  function Second(i: nat, fps: real): nat
    requires fps > 0.0
  {
    Middle(i, fps).Floor
  }

  function Frame(i: nat, fps: real): nat
    requires fps > 0.0
  {
    var part := Middle(i, fps) - Second(i, fps) as real;
    NotNegative(part, fps);
    (part * fps).Floor
  }

  lemma NotNegative(a: real, b: real)
    requires a >= 0.0 && b > 0.0
    ensures a * b >= 0.0
  {
  }

  function Fields(i: nat, fps: real): Time
    requires fps > 0.0
  {
    var s := Second(i, fps);
    Time(s / 3600, s / 60 % 60, s % 60, Frame(i, fps))
  }

  // Nearest whole number, the one further from zero when there are two.
  function Round(x: real): int {
    if x >= 0.0 then (x + 0.5).Floor else -((-x + 0.5).Floor)
  }

  function FromFields(h: int, m: int, s: int, f: int, fps: real): int {
    Round(Frames(h * 3600 + m * 60 + s, fps)) + f
  }

  function Frames(seconds: int, fps: real): real { seconds as real * fps }

  // Whether x lies exactly between two whole numbers.
  predicate Halfway(x: real) { x - x.Floor as real == 0.5 }

  lemma SecondsBack(s: nat)
    ensures s / 3600 * 3600 + s / 60 % 60 * 60 + s % 60 == s
  {
    var m := s / 60;
    assert m / 60 == s / 3600;
    assert m == m / 60 * 60 + m % 60;
  }

  lemma RoundAndFloor(i: int, p: real)
    requires p >= 0.0
    ensures Round(p) + (i as real + 0.5 - p).Floor == if Halfway(p) then i + 1 else i
  {
    var n := p.Floor;
    var r := p - n as real;
    if r < 0.5 {
      assert (p + 0.5).Floor == n;
      assert (i as real + 0.5 - p).Floor == i - n;
    } else if r == 0.5 {
      assert (p + 0.5).Floor == n + 1;
      assert (i as real + 0.5 - p).Floor == i - n;
    } else {
      assert (p + 0.5).Floor == n + 1;
      assert (i as real + 0.5 - p).Floor == i - n - 1;
    }
  }

  // What the fields mean: hours, minutes and seconds make up the whole seconds of the middle of the frame,
  // and the frame field says how many whole frames are left.
  lemma FieldsMeaning(i: nat, fps: real)
    requires fps > 0.0
    ensures var t := Fields(i, fps);
      var s := t.hours * 3600 + t.minutes * 60 + t.seconds;
      && t.minutes < 60 && t.seconds < 60
      && s as real * fps <= i as real + 0.5 < s as real * fps + fps
      && t.frames as real <= i as real + 0.5 - s as real * fps < (t.frames + 1) as real
  {
    var s := Second(i, fps);
    SecondsBack(s);
    FrameOf(i, fps);
    SecondOf(i, fps);
    FloorAround(i as real + 0.5 - Frames(s, fps));
    FramesAre(s, fps);
    hide Second, Frame, Middle, Frames;
  }

  lemma FramesAre(s: int, fps: real)
    ensures Frames(s, fps) == s as real * fps
  {
  }

  lemma SecondOf(i: nat, fps: real)
    requires fps > 0.0
    ensures Second(i, fps) as real * fps <= i as real + 0.5 < Second(i, fps) as real * fps + fps
  {
    hide Middle;
    var t := Middle(i, fps);
    FloorAround(t);
    assert Second(i, fps) == t.Floor;
    hide Second;
    InSecond(t, t.Floor as real, fps, i as real + 0.5);
  }

  lemma InSecond(t: real, s: real, fps: real, v: real)
    requires t * fps == v && s <= t < s + 1.0 && fps > 0.0
    ensures s * fps <= v < s * fps + fps
  {
    var d := t - s;
    Below(d, fps);
    Difference(t, s, fps);
    Conclude(s * fps, d * fps, t * fps, v, fps);
  }

  lemma Below(d: real, f: real)
    requires 0.0 <= d < 1.0 && f > 0.0
    ensures 0.0 <= d * f < f
  {
    NotNegative(d, f);
    Positive(1.0 - d, f);
    OneMinus(d, f);
  }

  lemma OneMinus(d: real, f: real)
    ensures (1.0 - d) * f == f - d * f
  {
  }

  lemma Conclude(a: real, b: real, c: real, v: real, f: real)
    requires c == v && b == c - a && 0.0 <= b < f
    ensures a <= v < a + f
  {
  }

  lemma FloorAround(x: real)
    ensures x.Floor as real <= x < (x.Floor + 1) as real
  {
  }

  // Rounding is to the nearest whole number, away from zero in the middle.
  lemma RoundNearest(x: real)
    ensures -0.5 <= Round(x) as real - x <= 0.5
    ensures Round(x) as real - x == 0.5 ==> x > 0.0
    ensures Round(x) as real - x == -0.5 ==> x < 0.0
  {
    FloorAround(x + 0.5);
    FloorAround(-x + 0.5);
  }

  // A frame number comes back from its time, but for one more where the whole seconds
  // end in the very middle between two frames.
  lemma FieldsBack(i: nat, fps: real)
    requires fps > 0.0
    ensures var t := Fields(i, fps);
      FromFields(t.hours, t.minutes, t.seconds, t.frames, fps)
      == if Halfway(Frames(Second(i, fps), fps)) then i + 1 else i
  {
    var s := Second(i, fps);
    SecondsBack(s);
    FrameOf(i, fps);
    RoundAndFloor(i, Frames(s, fps));
    hide Frames, Second, Frame, Round, Halfway;
    assert Fields(i, fps).hours * 3600 + Fields(i, fps).minutes * 60 + Fields(i, fps).seconds == s;
  }

  lemma FrameOf(i: nat, fps: real)
    requires fps > 0.0
    ensures Frames(Second(i, fps), fps) >= 0.0
    ensures Frame(i, fps) == (i as real + 0.5 - Frames(Second(i, fps), fps)).Floor
  {
    var s := Second(i, fps);
    NotNegative(s as real, fps);
    Difference(Middle(i, fps), s as real, fps);
  }

  lemma Difference(a: real, b: real, c: real)
    ensures (a - b) * c == a * c - b * c
  {
  }

  // Every frame number comes back exactly when no number of seconds ends between two frames.
  lemma EveryFrameBackIff(fps: real)
    requires fps > 0.0
    ensures (forall i: nat :: TimeBack(i, fps)) <==> (forall s: nat :: !Halfway(Frames(s, fps)))
  {
    if s: nat :| Halfway(Frames(s, fps)) {
      NotNegative(s as real, fps);
      var i: nat := Frames(s, fps).Floor;
      hide Halfway, Second, TimeBack;
      BetweenFrames(i, s, fps);
      assert !TimeBack(i, fps);
    }
    forall i: nat | !TimeBack(i, fps)
      ensures Halfway(Frames(Second(i, fps), fps))
    {
      FieldsBack(i, fps);
    }
  }

  lemma BetweenFrames(i: nat, s: nat, fps: real)
    requires fps > 0.0 && Halfway(Frames(s, fps)) && i == Frames(s, fps).Floor
    ensures !TimeBack(i, fps)
  {
    hide Frames, Second, Frame, Round;
    SecondFrom(i, s, fps);
    FieldsBack(i, fps);
    hide Halfway;
  }

  lemma SecondFrom(i: nat, s: nat, fps: real)
    requires fps > 0.0 && Halfway(Frames(s, fps)) && i == Frames(s, fps).Floor
    ensures Second(i, fps) == s
  {
    var t := Middle(i, fps);
    assert t * fps == s as real * fps;
    SameQuotient(t, s as real, fps);
    hide Middle, Frames;
  }

  lemma SameQuotient(a: real, b: real, c: real)
    requires c > 0.0 && a * c == b * c
    ensures a == b
  {
    Difference(a, b, c);
    if a - b > 0.0 { Positive(a - b, c); assert false; }
    if b - a > 0.0 { Difference(b, a, c); Positive(b - a, c); assert false; }
  }

  lemma Positive(a: real, b: real)
    requires a > 0.0 && b > 0.0
    ensures a * b > 0.0
  {
  }

  predicate TimeBack(i: nat, fps: real)
    requires fps > 0.0
  {
    var t := Fields(i, fps);
    FromFields(t.hours, t.minutes, t.seconds, t.frames, fps) == i
  }

  // For example, 1498 frames at a rate of 29.97 are shown as 50 seconds, which are read as 1499 frames; and
  // 12 frames at 12.5 are shown as one second.
  lemma HalfwayExamples()
    ensures Halfway(Frames(50, 29.97)) && !TimeBack(1498, 29.97)
    ensures Halfway(Frames(1, 12.5)) && !TimeBack(12, 12.5)
  {
    assert Frames(50, 29.97) == 1498.5 && Frames(1, 12.5) == 12.5;
    BetweenFrames(1498, 50, 29.97);
    BetweenFrames(12, 1, 12.5);
  }

  // So it does for every whole frame rate and for the rates of the 1001 family.
  lemma OddDenominator(a: nat, b: nat, i: nat)
    requires a > 0 && b % 2 == 1
    ensures TimeBack(i, a as real / b as real)
  {
    var fps := a as real / b as real;
    Quotient(a as real, b as real, fps);
    FieldsBack(i, fps);
    if Halfway(Frames(Second(i, fps), fps)) { NotHalfway(a, b, Second(i, fps), fps); assert false; }
    hide Frames, Second, Frame, Round, Halfway;
  }

  lemma NotHalfway(a: nat, b: nat, s: nat, fps: real)
    requires b % 2 == 1 && fps * b as real == a as real
    ensures !Halfway(Frames(s, fps))
  {
    var p := Frames(s, fps);
    var n := p.Floor;
    Regroup(s as real, fps, b as real);
    if p == n as real + 0.5 { Parity(s * a, n, b, p); assert false; }
  }

  lemma Parity(whole: int, n: int, b: nat, p: real)
    requires b % 2 == 1 && p == n as real + 0.5
    ensures p * b as real != whole as real
  {
    Twice(n, b);
    OddTimesOdd(n, b);
    assert (2 * whole) as real == 2.0 * whole as real;
    assert p * b as real == whole as real ==> (2 * whole) as real == ((2 * n + 1) * b) as real;
  }

  lemma Regroup(a: real, b: real, c: real)
    ensures a * b * c == a * (b * c)
  {
  }

  lemma Twice(n: int, b: int)
    ensures ((2 * n + 1) * b) as real == 2.0 * ((n as real + 0.5) * b as real)
  {
    assert ((2 * n + 1) * b) as real == (2 * n + 1) as real * b as real;
  }

  lemma OddTimesOdd(n: int, b: nat)
    requires b % 2 == 1
    ensures (2 * n + 1) * b % 2 == 1
  {
    assert (2 * n + 1) * b == 2 * (n * b) + b;
  }

  // --- Text ---

  function Digit(d: nat): char
    requires d < 10
  {
    '0' + d as char
  }

  // %d of a number that is not negative.
  function Digits(n: nat): (s: string)
    ensures s != "" && IsDigit(s[0])
  {
    if n < 10 then [Digit(n)] else Digits(n / 10) + [Digit(n % 10)]
  }

  // %02d
  function TwoDigits(n: nat): (s: string)
    ensures s != "" && IsDigit(s[0])
  {
    if n < 10 then ['0', Digit(n)] else Digits(n)
  }

  // %d of any number.
  function Decimal(n: int): string { if n < 0 then "-" + Digits(-n) else Digits(n) }

  predicate IsDigit(c: char) { '0' <= c <= '9' }

  predicate IsSpace(c: char) { c == ' ' || '\t' <= c <= '\r' }

  predicate StartsWithDigit(s: string) { s != "" && IsDigit(s[0]) }

  // What is kept of a text that is too long for its buffer.
  function Cut(s: string): string { if |s| <= LIMIT then s else s[..LIMIT] }

  function LongText(t: Time, withFrame: bool): string {
    Digits(t.hours) + (":" + (TwoDigits(t.minutes) + (":" + (TwoDigits(t.seconds) +
      if withFrame then "." + TwoDigits(t.frames) else ""))))
  }

  // The seconds of a longer recording overflow an int.
  function IndexToHMSF(i: nat, withFrame: bool, fps: real): string
    requires fps > 0.0 && Second(i, fps) < INT_END
  {
    Cut(LongText(Fields(i, fps), withFrame))
  }

  // A run of digits read on from value v, and what follows.
  function ReadDigits(v: nat, s: string): (nat, string)
    decreases s
  {
    if StartsWithDigit(s) then ReadDigits(10 * v + (s[0] - '0') as nat, s[1..]) else (v, s)
  }

  function SkipSpace(s: string): (r: string)
    ensures |r| <= |s|
    ensures r != "" ==> !IsSpace(r[0])
  {
    if s != "" && IsSpace(s[0]) then SkipSpace(s[1..]) else s
  }

  // The conversion %d: white space, a sign, digits.
  function ReadInt(s: string): Option<(int, string)> {
    var t := SkipSpace(s);
    var u := if t != "" && (t[0] == '-' || t[0] == '+') then t[1..] else t;
    if !StartsWithDigit(u) then None
    else
      var (v, rest) := ReadDigits(0, u);
      Some((if t[0] == '-' then -(v as int) else v as int, rest))
  }

  // Numbers with a separator between them, as many as there are.
  function ReadInts(s: string, separators: string): seq<int>
    decreases separators
  {
    match ReadInt(s)
    case None => []
    case Some((v, rest)) =>
      if separators != "" && rest != "" && rest[0] == separators[0]
      then [v] + ReadInts(rest[1..], separators[1..])
      else [v]
  }

  function HMSFToIndex(s: string, fps: real): int {
    var v := ReadInts(s, "::.");
    if |v| == 1 then v[0]
    else if |v| >= 3 then FromFields(v[0], v[1], v[2], if |v| > 3 then v[3] else 0, fps)
    else 0
  }

  lemma {:induction false} ReadDigitsBack(n: nat, rest: string)
    ensures ReadDigits(0, Digits(n) + rest) == ReadDigits(n, rest)
  {
    if n < 10 {
      assert (Digits(n) + rest)[1..] == rest;
    } else {
      var d := [Digit(n % 10)];
      assert Digits(n) + rest == Digits(n / 10) + (d + rest);
      ReadDigitsBack(n / 10, d + rest);
      assert (d + rest)[1..] == rest;
    }
  }

  lemma ReadIntBack(n: nat, rest: string)
    requires !StartsWithDigit(rest)
    ensures ReadInt(Digits(n) + rest) == Some((n as int, rest))
  {
    ReadDigitsBack(n, rest);
    assert IsDigit((Digits(n) + rest)[0]);
    hide Digits;
  }

  // Any number is read with white space and a sign in front of it.
  lemma SignedBack(space: string, sign: string, n: nat, rest: string)
    requires forall k :: 0 <= k < |space| ==> space[k] as int in {9, 10, 11, 12, 13, 32}
    requires (sign == "" || sign == "-" || sign == "+") && !StartsWithDigit(rest)
    ensures ReadInt(space + (sign + (Digits(n) + rest))) == Some((if sign == "-" then -(n as int) else n as int, rest))
  {
    var number := Digits(n) + rest;
    SpaceSkipped(space, sign + number);
    ReadDigitsBack(n, rest);
    assert number[0] == Digits(n)[0];
    hide Digits, SkipSpace;
    if sign == "" {
      assert sign + number == number;
    } else {
      assert (sign + number)[1..] == number && (sign + number)[0] == sign[0];
    }
  }

  lemma {:induction false} SpaceSkipped(space: string, s: string)
    requires forall k :: 0 <= k < |space| ==> space[k] as int in {9, 10, 11, 12, 13, 32}
    requires s != "" && !IsSpace(s[0])
    ensures SkipSpace(space + s) == s
  {
    if space == "" {
      assert space + s == s;
    } else {
      assert IsSpace(space[0]) && (space + s)[1..] == space[1..] + s;
      SpaceSkipped(space[1..], s);
    }
  }

  lemma ReadTwoDigitsBack(n: nat, rest: string)
    requires !StartsWithDigit(rest)
    ensures ReadInt(TwoDigits(n) + rest) == Some((n as int, rest))
  {
    if n >= 10 {
      ReadIntBack(n, rest);
    } else {
      ReadDigitsBack(n, rest);
      var s := TwoDigits(n) + rest;
      assert s[1..] == Digits(n) + rest;
      assert ReadDigits(0, s) == ReadDigits(0, s[1..]);
    }
  }

  lemma NextInt(s: string, v: int, c: char, rest: string, separators: string)
    requires ReadInt(s) == Some((v, [c] + rest)) && separators != "" && separators[0] == c
    ensures ReadInts(s, separators) == [v] + ReadInts(rest, separators[1..])
  {
    assert ([c] + rest)[1..] == rest;
    hide ReadInt;
  }

  // The text of a time, with anything after it, is read back as the fields it shows.
  lemma FieldsOfText(t: Time, withFrame: bool, rest: string)
    requires !StartsWithDigit(rest) && (!withFrame ==> rest == "" || rest[0] != '.')
    ensures ReadInts(LongText(t, withFrame) + rest, "::.")
         == [t.hours, t.minutes, t.seconds] + if withFrame then [t.frames as int] else []
  {
    var f := if withFrame then "." + TwoDigits(t.frames) else "";
    var s := TwoDigits(t.seconds) + (f + rest);
    var m := TwoDigits(t.minutes) + ([':'] + s);
    hide *;
    TextParts(t, withFrame, f, rest);
    assert !StartsWithDigit([':'] + m) && !StartsWithDigit([':'] + s) by { StartsWithColon(m); StartsWithColon(s); }
    ReadIntBack(t.hours, [':'] + m);
    ReadTwoDigitsBack(t.minutes, [':'] + s);
    LastInts(t, withFrame, f, rest);
    MoreInts(Digits(t.hours) + ([':'] + m), m, s, t.hours, t.minutes);
    var last := if withFrame then [t.frames as int] else [];
    assert [t.hours as int, t.minutes as int] + ([t.seconds as int] + last) == [t.hours, t.minutes, t.seconds] + last;
  }

  lemma StartsWithColon(s: string)
    ensures !StartsWithDigit([':'] + s)
  {
  }

  lemma MoreInts(hours: string, minutes: string, seconds: string, h: nat, m: nat)
    requires ReadInt(hours) == Some((h as int, [':'] + minutes))
    requires ReadInt(minutes) == Some((m as int, [':'] + seconds))
    ensures ReadInts(hours, "::.") == [h, m] + ReadInts(seconds, ".")
  {
    hide ReadInt, ReadInts;
    NextInt(hours, h, ':', minutes, "::.");
    NextInt(minutes, m, ':', seconds, ":.");
    assert "::."[1..] == ":." && ":."[1..] == ".";
  }

  lemma TextParts(t: Time, withFrame: bool, f: string, rest: string)
    requires f == if withFrame then "." + TwoDigits(t.frames) else ""
    ensures LongText(t, withFrame) + rest
         == Digits(t.hours) + ([':'] + (TwoDigits(t.minutes) + ([':'] + (TwoDigits(t.seconds) + (f + rest)))))
  {
    hide Digits, TwoDigits;
  }

  lemma LastInts(t: Time, withFrame: bool, f: string, rest: string)
    requires !StartsWithDigit(rest) && (!withFrame ==> rest == "" || rest[0] != '.')
    requires f == if withFrame then "." + TwoDigits(t.frames) else ""
    ensures ReadInts(TwoDigits(t.seconds) + (f + rest), ".")
         == [t.seconds as int] + if withFrame then [t.frames as int] else []
  {
    ReadTwoDigitsBack(t.seconds, f + rest);
    ReadTwoDigitsBack(t.frames, rest);
    hide TwoDigits, ReadInt;
    if withFrame {
      assert f + rest == "." + (TwoDigits(t.frames) + rest);
      NextInt(TwoDigits(t.seconds) + (f + rest), t.seconds, '.', TwoDigits(t.frames) + rest, ".");
      assert ReadInts(TwoDigits(t.frames) + rest, "") == [t.frames];
    } else {
      assert f + rest == rest;
    }
  }

  function Power10(k: nat): nat { if k == 0 then 1 else 10 * Power10(k - 1) }

  // A time with its separators; numbers below ten have a leading zero.
  lemma TextShape(t: Time)
    requires t.minutes < 60 && t.seconds < 60 && t.frames < 100
    ensures LongText(t, false) == Digits(t.hours) + [':', Decimals[t.minutes / 10], Decimals[t.minutes % 10],
      ':', Decimals[t.seconds / 10], Decimals[t.seconds % 10]]
    ensures LongText(t, true) == LongText(t, false) + ['.', Decimals[t.frames / 10], Decimals[t.frames % 10]]
  {
    SplitText(t);
    TwoShape(t.minutes);
    TwoShape(t.seconds);
    TwoShape(t.frames);
    hide Digits, TwoDigits;
  }

  const Decimals := "0123456789"

  lemma TwoShape(n: nat)
    requires n < 100
    ensures TwoDigits(n) == [Decimals[n / 10], Decimals[n % 10]]
    ensures n < 10 ==> Digits(n) == [Decimals[n]]
  {
    hide *;
    if n >= 10 {
      TwoAre(n, n / 10, n % 10);
      DigitShape(n / 10);
      DigitShape(n % 10);
    } else {
      OneIs(n);
      DigitShape(0);
      DigitShape(n);
      assert n / 10 == 0 && n % 10 == n;
    }
  }

  lemma OneIs(n: nat)
    requires n < 10
    ensures TwoDigits(n) == [Digit(0), Digit(n)] && Digits(n) == [Digit(n)]
  {
  }

  lemma TwoAre(n: nat, a: nat, b: nat)
    requires 10 <= n < 100 && a == n / 10 && b == n % 10
    ensures TwoDigits(n) == [Digit(a), Digit(b)]
  {
    assert Digits(a) == [Digit(a)];
    hide Digit;
  }

  lemma DigitShape(d: nat)
    requires d < 10
    ensures Digit(d) == Decimals[d]
  {
  }

  // A text that is a number alone is a frame number, one with a single colon is nothing.
  lemma PlainNumber(n: nat, m: nat, fps: real)
    ensures HMSFToIndex(Digits(n), fps) == n
    ensures HMSFToIndex(Digits(n) + ([':'] + Digits(m)), fps) == 0
  {
    ReadIntBack(n, "");
    ReadIntBack(m, "");
    ReadIntBack(n, [':'] + Digits(m));
    assert Digits(n) + "" == Digits(n) && Digits(m) + "" == Digits(m);
    hide Digits, ReadInt;
    NextInt(Digits(n) + ([':'] + Digits(m)), n, ':', Digits(m), "::.");
    assert "::."[1..] == ":.";
  }

  lemma {:induction false} DigitsLength(n: nat, k: nat)
    requires k > 0 && n < Power10(k)
    ensures |Digits(n)| <= k
  {
    if n >= 10 {
      assert k > 1;
      DigitsLength(n / 10, k - 1);
    }
  }

  // The buffer is large enough for the hours of an int of seconds and a frame below 100.
  lemma TextFits(t: Time, withFrame: bool)
    requires t.hours <= INT_END / 3600 && t.minutes < 60 && t.seconds < 60 && t.frames < 100
    ensures |LongText(t, withFrame)| <= LIMIT
  {
    assert Power10(2) == 100 && Power10(6) == 1000000 by {
      assert Power10(4) == 10000;
    }
    DigitsLength(t.hours, 6);
    DigitsLength(t.minutes, 2);
    DigitsLength(t.seconds, 2);
    DigitsLength(t.frames, 2);
    hide Digits, Power10;
  }

  lemma FloorBelow(x: real)
    ensures x.Floor as real <= x
  {
  }

  lemma FrameBelowRate(i: nat, fps: real)
    requires fps > 0.0
    ensures Frame(i, fps) as real < fps
  {
    var part := Middle(i, fps) - Second(i, fps) as real;
    assert part < 1.0;
    Positive(1.0 - part, fps);
    Difference(1.0, part, fps);
    assert part * fps < fps;
    FloorBelow(part * fps);
    NotNegative(part, fps);
    assert Frame(i, fps) == (part * fps).Floor;
  }

  // A number without its last c digits.
  function WithoutDigits(n: nat, c: nat): nat { if c == 0 then n else WithoutDigits(n / 10, c - 1) }

  // How many characters of a text do not fit in the buffer.
  function Over(s: string): nat { if |s| <= LIMIT then 0 else |s| - LIMIT }

  // The time that is shown: a frame number loses the digits that do not fit.
  function Shown(t: Time, withFrame: bool): Time {
    if withFrame then t.(frames := WithoutDigits(t.frames, Over(LongText(t, true)))) else t
  }

  lemma {:induction false} DigitsCut(n: nat, c: nat)
    requires c < |Digits(n)|
    ensures Digits(n)[..|Digits(n)| - c] == Digits(WithoutDigits(n, c))
  {
    if c > 0 {
      assert n >= 10 && Digits(n)[..|Digits(n)| - 1] == Digits(n / 10);
      DigitsCut(n / 10, c - 1);
    } else {
      assert Digits(n)[..|Digits(n)|] == Digits(n);
    }
  }

  lemma {:induction false} WithoutDigitsLess(n: nat, c: nat)
    ensures WithoutDigits(n, c) <= n
    ensures c > 0 ==> 10 * WithoutDigits(n, c) <= n
  {
    if c > 0 { WithoutDigitsLess(n / 10, c - 1); }
  }

  // A text that is too long is the text of the time that is shown.
  lemma CutText(t: Time, withFrame: bool)
    requires t.hours <= INT_END / 3600 && t.minutes < 60 && t.seconds < 60
    ensures Cut(LongText(t, withFrame)) == LongText(Shown(t, withFrame), withFrame)
    ensures var s := LongText(t, withFrame); Cut(s) == if |s| <= 15 then s else s[..15]
  {
    var p := LongText(t, false) + ".";
    var f := TwoDigits(t.frames);
    TextFits(t.(frames := 0), false);
    ShortText(t);
    SplitText(t);
    SplitText(Shown(t, true));
    var c := Over(LongText(t, true));
    if withFrame && c > 0 {
      hide LongText;
      FrameCut(t.frames, c);
      assert (p + f)[..LIMIT] == p + f[..|f| - c];
    }
  }

  lemma SplitText(t: Time)
    ensures LongText(t, true) == LongText(t, false) + "." + TwoDigits(t.frames)
  {
    hide Digits, TwoDigits;
  }

  // Without its frame a text leaves room for two digits and the point in front of them.
  lemma ShortText(t: Time)
    requires t.hours <= INT_END / 3600 && t.minutes < 60 && t.seconds < 60
    ensures |LongText(t, false)| + 3 <= LIMIT
  {
    TextFits(t.(frames := 0), true);
    SplitText(t.(frames := 0));
    assert LongText(t.(frames := 0), false) == LongText(t, false) by { hide Digits, TwoDigits; }
  }

  lemma FrameCut(n: nat, c: nat)
    requires c + 2 <= |TwoDigits(n)| && c > 0
    ensures TwoDigits(n)[..|TwoDigits(n)| - c] == TwoDigits(WithoutDigits(n, c))
  {
    DigitsCut(n, c);
  }

  // A frame number printed with its frame comes back, whatever text follows it, but for one more where the
  // whole seconds end in the very middle between two frames, and but for what the text has no room for;
  // without its frame it comes back as the first frame of its second.
  lemma TextBack(i: nat, withFrame: bool, fps: real, rest: string)
    requires fps > 0.0 && Second(i, fps) < INT_END
    requires !StartsWithDigit(rest) && (!withFrame ==> rest == "" || rest[0] != '.')
    ensures var back := if Halfway(Frames(Second(i, fps), fps)) then i + 1 else i;
      HMSFToIndex(IndexToHMSF(i, withFrame, fps) + rest, fps)
      == back - Frame(i, fps) + if withFrame then Shown(Fields(i, fps), true).frames else 0
  {
    hide *;
    var t := Fields(i, fps);
    FieldsInRange(i, fps);
    CutText(t, withFrame);
    FieldsOfText(Shown(t, withFrame), withFrame, rest);
    ValueOfText(t, withFrame, IndexToHMSF(i, withFrame, fps) + rest, fps);
    FieldsBack(i, fps);
  }

  lemma FieldsInRange(i: nat, fps: real)
    requires fps > 0.0 && Second(i, fps) < INT_END
    ensures var t := Fields(i, fps);
      t.hours <= INT_END / 3600 && t.minutes < 60 && t.seconds < 60 && t.frames == Frame(i, fps)
    ensures forall withFrame :: IndexToHMSF(i, withFrame, fps) == Cut(LongText(Fields(i, fps), withFrame))
  {
    HoursBelow(Second(i, fps));
    hide Second, Frame, Cut, LongText;
  }

  lemma ValueOfText(t: Time, withFrame: bool, text: string, fps: real)
    requires var u := Shown(t, withFrame);
      ReadInts(text, "::.") == [u.hours, u.minutes, u.seconds] + if withFrame then [u.frames as int] else []
    ensures HMSFToIndex(text, fps)
         == FromFields(t.hours, t.minutes, t.seconds, t.frames, fps) - t.frames
            + if withFrame then Shown(t, true).frames else 0
  {
    hide ReadInts, WithoutDigits, Over, LongText, Round, Frames;
  }

  // The seconds of a frame number that is an int at a rate above low.
  lemma SecondsAtRate(i: nat, fps: real, low: nat)
    requires fps > low as real && i < INT_END
    ensures Second(i, fps) * low < INT_END
  {
    var t, s := Middle(i, fps), Second(i, fps);
    NotNegative(t - s as real, fps);
    Difference(t, s as real, fps);
    NotNegative(s as real, fps - low as real);
    assert s as real * (fps - low as real) == s as real * fps - s as real * low as real;
    assert (s * low) as real == s as real * low as real;
  }

  // The text of a frame number that is an int has room for all of it, at any rate there can be.
  lemma RoomForInt(i: nat, fps: real)
    requires 0.0 < fps <= 10000000.0 && i < INT_END && Second(i, fps) < INT_END
    ensures |LongText(Fields(i, fps), true)| <= LIMIT
  {
    var t, s := Fields(i, fps), Second(i, fps);
    FrameBelowRate(i, fps);
    HoursBelow(s);
    assert t.hours * 3600 <= s;
    hide Second, Frame;
    if t.frames < 100 {
      TextFits(t, true);
    } else if t.frames < 1000 {
      SecondsAtRate(i, fps, 100);
      LengthAtMost(t, 4, 3);
    } else if t.frames < 10000 {
      SecondsAtRate(i, fps, 1000);
      LengthAtMost(t, 3, 4);
    } else if t.frames < 100000 {
      SecondsAtRate(i, fps, 10000);
      LengthAtMost(t, 2, 5);
    } else {
      SecondsAtRate(i, fps, 100000);
      LengthAtMost(t, 1, 7);
    }
  }

  lemma LengthAtMost(t: Time, a: nat, d: nat)
    requires 0 < a <= 4 && 3 <= d <= 7 && a + d <= 8
    requires t.hours < Power10(a) && t.minutes < 60 && t.seconds < 60 && 10 <= t.frames < Power10(d)
    ensures |LongText(t, true)| <= LIMIT
  {
    assert Power10(2) == 100;
    DigitsLength(t.hours, a);
    DigitsLength(t.minutes, 2);
    DigitsLength(t.seconds, 2);
    DigitsLength(t.frames, d);
    hide Digits, Power10;
  }

  // A cut frame number is a different one, and by more than one.
  lemma ShownIsWhole(t: Time)
    requires t.hours <= INT_END / 3600 && t.minutes < 60 && t.seconds < 60
    ensures |LongText(t, true)| <= LIMIT ==> Shown(t, true) == t
    ensures |LongText(t, true)| > LIMIT ==> Shown(t, true).frames + 1 < t.frames
  {
    if |LongText(t, true)| > LIMIT {
      if t.frames < 100 { TextFits(t, true); assert false; }
      WithoutDigitsLess(t.frames, Over(LongText(t, true)));
    }
  }

  lemma HoursBelow(s: nat)
    requires s < INT_END
    ensures s / 3600 <= INT_END / 3600
  {
  }

  // --- The text of a cut mark ---

  datatype Mark = Mark(position: nat, comment: Option<string>)

  function ToText(mark: Mark, withNewline: bool, withFrame: bool, fps: real): string
    requires fps > 0.0 && Second(mark.position, fps) < INT_END
  {
    IndexToHMSF(mark.position, true, fps) + Tail(mark, withNewline, withFrame)
  }

  function Tail(mark: Mark, withNewline: bool, withFrame: bool): string {
    (if withFrame then "(" + (Decimal(mark.position) + ")") else "")
    + ((if mark.comment.Some? then " " + mark.comment.value else "") + if withNewline then "\n" else "")
  }

  // What follows the first blank of a text, if anything does, without a newline at its end.
  function ReadComment(s: string): Option<string> {
    if s == "" then None
    else if s[0] != ' ' then ReadComment(s[1..])
    else
      var c := SkipSpace(s);
      if c == "" then None else Some(if c[|c| - 1] == '\n' then c[..|c| - 1] else c)
  }

  function Parse(s: string, fps: real): (int, Option<string>) { (HMSFToIndex(s, fps), ReadComment(s)) }

  predicate NoBlank(s: string) { forall k :: 0 <= k < |s| ==> s[k] != ' ' }

  lemma DigitsNoBlank(n: nat)
    ensures NoBlank(Digits(n)) && NoBlank(TwoDigits(n))
  {
    if n < 10 {
      assert Digits(n) == [Digit(n)];
    } else {
      DigitsNoBlank(n / 10);
    }
  }

  lemma Joined(a: string, b: string)
    requires NoBlank(a) && NoBlank(b)
    ensures NoBlank(a + b)
  {
  }

  lemma TextNoBlank(t: Time, withFrame: bool)
    ensures NoBlank(LongText(t, withFrame))
  {
    var f := if withFrame then "." + TwoDigits(t.frames) else "";
    DigitsNoBlank(t.hours);
    DigitsNoBlank(t.minutes);
    DigitsNoBlank(t.seconds);
    DigitsNoBlank(t.frames);
    hide Digits, TwoDigits;
    Joined(".", TwoDigits(t.frames));
    Joined(TwoDigits(t.seconds), f);
    Joined(":", TwoDigits(t.seconds) + f);
    Joined(TwoDigits(t.minutes), ":" + (TwoDigits(t.seconds) + f));
    Joined(":", TwoDigits(t.minutes) + (":" + (TwoDigits(t.seconds) + f)));
    Joined(Digits(t.hours), ":" + (TwoDigits(t.minutes) + (":" + (TwoDigits(t.seconds) + f))));
  }

  lemma {:induction false} CommentBehind(a: string, b: string)
    requires NoBlank(a)
    ensures ReadComment(a + b) == ReadComment(b)
  {
    if a == "" {
      assert a + b == b;
    } else {
      assert (a + b)[1..] == a[1..] + b;
      CommentBehind(a[1..], b);
    }
  }

  // The comments that are read as they were printed.
  predicate Readable(comment: Option<string>, withNewline: bool) {
    comment.Some? ==>
      var c := comment.value;
      c != "" && !IsSpace(c[0]) && (withNewline || c[|c| - 1] != '\n')
  }

  lemma PlainComment(comment: Option<string>, withNewline: bool)
    ensures ReadComment((if comment.Some? then " " + comment.value else "") + if withNewline then "\n" else "")
         == comment
       <==> Readable(comment, withNewline)
  {
    var n := if withNewline then "\n" else "";
    if comment.Some? {
      var c := comment.value;
      var s := " " + c + n;
      assert s[1..] == c + n;
      assert SkipSpace(s) == SkipSpace(c + n);
      if c != "" && !IsSpace(c[0]) {
        assert SkipSpace(c + n) == c + n;
        if withNewline { assert (c + n)[..|c + n| - 1] == c; } else { assert c + n == c; }
      } else {
        SkipShortens(c, n);
      }
    } else {
      assert "" + n == n;
    }
  }

  lemma SkipShortens(c: string, n: string)
    requires c == "" || IsSpace(c[0])
    requires n == "" || n == "\n"
    ensures c == "" ==> SkipSpace(c + n) == ""
    ensures c != "" ==> |SkipSpace(c + n)| < |c + n|
    ensures c != "" && SkipSpace(c + n) != "" ==> SkipSpace(c + n)[0] != c[0]
  {
    if c == "" { assert c + n == n; assert n != "" ==> SkipSpace(n) == SkipSpace(n[1..]); }
  }

  // The text of a mark is its time, its frame number in brackets if that is asked for, its comment behind a
  // blank, and a newline.
  lemma TextOfMark(mark: Mark, fps: real)
    requires fps > 0.0 && Second(mark.position, fps) < INT_END
    ensures var time := IndexToHMSF(mark.position, true, fps);
      && (mark.comment.None? ==> ToText(mark, true, false, fps) == time + "\n")
      && (mark.comment.Some? ==> ToText(mark, true, false, fps) == time + " " + mark.comment.value + "\n")
      && ToText(mark, false, false, fps) + "\n" == ToText(mark, true, false, fps)
      && (mark.comment.None? ==> ToText(mark, false, true, fps) == time + "(" + Digits(mark.position) + ")")
  {
    hide Digits, IndexToHMSF;
  }

  // A mark read back from its own text has its comment again exactly when that is readable, and its position
  // again exactly when its time has room in the text and the whole seconds do not end between two frames.
  lemma MarkBackIff(mark: Mark, withNewline: bool, withFrame: bool, fps: real)
    requires fps > 0.0 && Second(mark.position, fps) < INT_END
    ensures var (position, comment) := Parse(ToText(mark, withNewline, withFrame, fps), fps);
      && (position == mark.position <==>
          !Halfway(Frames(Second(mark.position, fps), fps)) && |LongText(Fields(mark.position, fps), true)| <= LIMIT)
      && (comment == mark.comment <==> Readable(mark.comment, withNewline))
  {
    var i := mark.position;
    var t := Fields(i, fps);
    var tail := Tail(mark, withNewline, withFrame);
    TailStart(mark, withNewline, withFrame);
    TextBack(i, true, fps, tail);
    TextNoBlank(t, true);
    CommentBehind(IndexToHMSF(i, true, fps), tail);
    TailComment(mark, withNewline, withFrame);
    HoursBelow(Second(i, fps));
    ShownIsWhole(t);
    hide Tail, LongText, Shown, Second, Frame, Frames, Halfway, ReadComment, HMSFToIndex;
  }

  lemma TailStart(mark: Mark, withNewline: bool, withFrame: bool)
    ensures !StartsWithDigit(Tail(mark, withNewline, withFrame))
  {
  }

  lemma TailComment(mark: Mark, withNewline: bool, withFrame: bool)
    ensures ReadComment(Tail(mark, withNewline, withFrame)) == mark.comment <==> Readable(mark.comment, withNewline)
  {
    PlainComment(mark.comment, withNewline);
    var c := (if mark.comment.Some? then " " + mark.comment.value else "") + if withNewline then "\n" else "";
    if withFrame {
      DigitsNoBlank(mark.position);
      Joined(Digits(mark.position), ")");
      Joined("(", Digits(mark.position) + ")");
      CommentBehind("(" + (Digits(mark.position) + ")"), c);
    } else {
      CommentBehind("", c);
    }
    hide ReadComment, Readable, Digits;
  }
}
