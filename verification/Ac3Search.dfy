/** The search for the frame at which the sound of a recording changes its mode. */
module Ac3Search {
  // What the sound decoder makes of a frame, given how often it has been called and the mode
  // it knows: whether a sound frame was complete, and the mode from now on.
  type Decoder = (nat, int, int) -> (bool, int)

  const LINEAR := 10

  // Some frames behind lo up to hi have sound, each with a mode of its own; the others change nothing.
  ghost predicate Sounds(decoder: Decoder, sound: int -> bool, mode: int -> int, lo: int, hi: int) {
    forall n: nat, frame: int, known: int :: lo < frame <= hi ==>
      decoder(n, frame, known) == (sound(frame), if sound(frame) then mode(frame) else known)
  }

  // No more than gap frames in a row are without sound.
  ghost predicate Dense(sound: int -> bool, gap: nat, lo: int, hi: int) {
    forall a {:trigger First(sound, a, gap)} :: lo < a && a + gap < hi ==> a <= First(sound, a, gap) <= a + gap
  }

  // The first frame with sound from a on, if there is one within gap frames.
  function First(sound: int -> bool, a: int, gap: nat): int
    decreases gap
  {
    if sound(a) then a else if gap == 0 then a + 1 else First(sound, a + 1, gap - 1)
  }

  lemma {:induction false} FirstIs(sound: int -> bool, a: int, gap: nat)
    ensures a <= First(sound, a, gap) <= a + gap + 1
    ensures First(sound, a, gap) <= a + gap ==> sound(First(sound, a, gap))
    ensures forall f :: a <= f < First(sound, a, gap) ==> !sound(f)
    decreases gap
  {
    if !sound(a) && gap > 0 { FirstIs(sound, a + 1, gap - 1); }
  }

  ghost predicate SoundNear(sound: int -> bool, gap: nat, a: int) { exists f :: a <= f <= a + gap && sound(f) }

  lemma DenseIff(sound: int -> bool, gap: nat, lo: int, hi: int)
    ensures Dense(sound, gap, lo, hi) <==> forall a :: lo < a && a + gap < hi ==> SoundNear(sound, gap, a)
  {
    forall a
      ensures a <= First(sound, a, gap) <= a + gap <==> SoundNear(sound, gap, a)
    {
      FirstIs(sound, a, gap);
    }
    if forall a :: lo < a && a + gap < hi ==> SoundNear(sound, gap, a) {
      forall a {:trigger First(sound, a, gap)} | lo < a && a + gap < hi
        ensures a <= First(sound, a, gap) <= a + gap
      {
        assert SoundNear(sound, gap, a);
      }
    }
    if Dense(sound, gap, lo, hi) {
      forall a | lo < a && a + gap < hi
        ensures SoundNear(sound, gap, a)
      {
        assert a <= First(sound, a, gap) <= a + gap;
      }
    }
  }

  // When all frames have sound there is no gap.
  lemma AllSound(sound: int -> bool, lo: int, hi: int)
    requires forall f :: lo < f <= hi ==> sound(f)
    ensures Dense(sound, 0, lo, hi)
  {
  }

  function Power2(n: nat): nat { if n == 0 then 1 else 2 * Power2(n - 1) }

  // Where a round of the search begins to look.
  function Middle(start: int, end: int, current: int): int {
    var m := start + (end - start + 1) / 2;
    if m == current then m - 1 else m
  }

  lemma MiddleInside(start: int, end: int, current: int, gap: nat)
    requires end - start > LINEAR && gap <= 4
    ensures var m := Middle(start, end, current);
      && start + 5 <= m && m + 5 <= end
      && 2 * (m + gap - start - 2 * gap - 2) <= end - start - 2 * gap - 2
      && 2 * (end - m - 2 * gap - 2) <= end - start - 2 * gap - 2
  {
  }

  class Search {
    const decoder: Decoder
    var ac3mode: int
    var ac3Decoded: bool
    var calls: nat

    constructor (d: Decoder)
      ensures decoder == d && calls == 0
    {
      decoder, ac3mode, ac3Decoded, calls := d, 0, false, 0;
    }

    method DemuxFrameAudio(frame: int)
      modifies this
      ensures calls == old(calls) + 1
      ensures var (decoded, mode) := decoder(old(calls), frame, old(ac3mode));
        ac3mode == mode && ac3Decoded == (old(ac3Decoded) || decoded)
    {
      var (decoded, mode) := decoder(calls, frame, ac3mode);
      ac3mode := mode;
      if decoded { ac3Decoded := true; }
      calls := calls + 1;
    }

    // Looks from a frame on for one that is decoded, as far as the range goes.
    method Probe(from: int, end: int, ghost sound: int -> bool, ghost mode: int -> int, ghost lo: int, ghost hi: int)
      returns (current: int)
      requires lo < from < end <= hi
      modifies this
      ensures from <= current < end
      ensures Sounds(decoder, sound, mode, lo, hi) ==>
        && (forall f :: from <= f < current ==> !sound(f))
        && (if sound(current) then ac3mode == mode(current) else current == end - 1 && ac3mode == old(ac3mode))
        && calls == old(calls) + (current - from) + 1
    {
      ac3Decoded := false;
      var ipos := from;
      current := from;
      while !ac3Decoded && ipos < end
        invariant from <= ipos <= end
        invariant ipos == from ==> !ac3Decoded && calls == old(calls) && ac3mode == old(ac3mode)
        invariant ipos > from ==> current == ipos - 1
        invariant ipos > from && Sounds(decoder, sound, mode, lo, hi) ==>
          && calls == old(calls) + (ipos - from)
          && (forall f :: from <= f < current ==> !sound(f))
          && ac3Decoded == sound(current)
          && ac3mode == if sound(current) then mode(current) else old(ac3mode)
      {
        current := ipos;
        if Sounds(decoder, sound, mode, lo, hi) { SoundsAt(decoder, sound, mode, lo, hi, calls, ipos, ac3mode); }
        DemuxFrameAudio(ipos);
        ipos := ipos + 1;
      }
    }

    // Halves the range while it is long.
    method Narrow(iStart: int, iEnd: int, mode2Find: int,
                  ghost sound: int -> bool, ghost mode: int -> int, ghost gap: nat)
      returns (start: int, end: int, ghost rounds: nat)
      requires gap <= 4
      modifies this
      ensures iStart <= start && end <= iEnd && end - start <= LINEAR
      ensures iStart < iEnd ==> start < end
      ensures iEnd <= iStart ==> start == iStart && end == iEnd
      ensures Sounds(decoder, sound, mode, iStart, iEnd) && Dense(sound, gap, iStart, iEnd) ==>
        && (start == iStart || (sound(start) && mode(start) != mode2Find))
        && (end == iEnd || (sound(end) && mode(end) == mode2Find))
        && calls <= old(calls) + (gap + 1) * rounds
        && (rounds > 0 ==> (9 - 2 * gap) * Power2(rounds) <= 2 * (iEnd - iStart - 2 * gap - 2))
    {
      start, end, rounds := iStart, iEnd, 0;
      var current := 0;
      ghost var good := Sounds(decoder, sound, mode, iStart, iEnd) && Dense(sound, gap, iStart, iEnd);
      while end - start > LINEAR
        invariant iStart <= start && end <= iEnd && (iStart < iEnd ==> start < end)
        invariant iEnd <= iStart ==> start == iStart && end == iEnd
        invariant good ==>
          && (start == iStart || (sound(start) && mode(start) != mode2Find))
          && (end == iEnd || (sound(end) && mode(end) == mode2Find))
          && calls <= old(calls) + (gap + 1) * rounds
          && Halved(iEnd - iStart - 2 * gap, end - start - 2 * gap, rounds, gap)
        decreases end - start
      {
        MiddleInside(start, end, current, gap);
        ghost var before, from := end - start, Middle(start, end, current);
        current := Probe(Middle(start, end, current), end, sound, mode, iStart, iEnd);
        if good {
          FoundNear(sound, gap, iStart, iEnd, from, current, end);
          OneMore(gap + 1, rounds);
        }
        if ac3mode == mode2Find { end := current; } else { start := current; }
        if good { HalvedAgain(iEnd - iStart - 2 * gap, before - 2 * gap, rounds, end - start - 2 * gap, gap); }
        rounds := rounds + 1;
      }
    }

    // The frame before the first one with a mode, as far as the search can tell; known is a frame in front of it
    // that is known not to have the mode, or the first one of the range.
    method FindAc3Start(iStart: int, iEnd: int, mode2Find: int,
                        ghost sound: int -> bool, ghost mode: int -> int, ghost gap: nat)
      returns (frame: int, ghost rounds: nat, ghost known: int)
      requires gap <= 4
      modifies this
      ensures if iStart <= iEnd then iStart - 1 <= frame <= iEnd else frame == iStart - 1
      ensures
        Sounds(decoder, sound, mode, iStart, iEnd) && Dense(sound, gap, iStart, iEnd) && iStart < iEnd
        && mode2Find != 0 && sound(iEnd) && mode(iEnd) == mode2Find ==>
        && iStart <= known <= frame < iEnd
        && sound(frame + 1) && mode(frame + 1) == mode2Find
        && (known == iStart || (sound(known) && mode(known) != mode2Find))
        && (forall f :: known < f <= frame && sound(f) ==> mode(f) != mode2Find)
        && calls <= old(calls) + (gap + 1) * rounds + 10
        && (rounds > 0 ==> (9 - 2 * gap) * Power2(rounds) <= 2 * (iEnd - iStart - 2 * gap - 2))
    {
      var start, end;
      start, end, rounds := Narrow(iStart, iEnd, mode2Find, sound, mode, gap);
      known := start;
      ghost var n := calls;
      ghost var good := Sounds(decoder, sound, mode, iStart, iEnd);
      var current := start;
      ac3mode := 0;
      while current <= end && ac3mode != mode2Find
        invariant start <= current && (start <= end ==> current <= end + 1) && (start > end ==> current == start)
        invariant calls == n + (current - start)
        invariant current == start ==> ac3mode == 0
        invariant start < current <= iEnd && good ==> ac3mode == if sound(current) then mode(current) else 0
        invariant good && mode2Find != 0 ==>
          forall f :: start < f < current && f <= iEnd && sound(f) ==> mode(f) != mode2Find
        decreases end - current
      {
        current := current + 1;
        ac3mode := 0;
        if good && current <= iEnd { SoundsAt(decoder, sound, mode, iStart, iEnd, calls, current, ac3mode); }
        DemuxFrameAudio(current);
      }
      frame := current - 1;
    }
  }

  lemma SoundsAt(
    decoder: Decoder, sound: int -> bool, mode: int -> int, lo: int, hi: int, n: nat, frame: int, known: int)
    requires Sounds(decoder, sound, mode, lo, hi) && lo < frame <= hi
    ensures decoder(n, frame, known) == (sound(frame), if sound(frame) then mode(frame) else known)
  {
  }

  // A probe that has room for a gap finds a frame with sound.
  lemma FoundNear(sound: int -> bool, gap: nat, lo: int, hi: int, from: int, current: int, end: int)
    requires Dense(sound, gap, lo, hi) && gap <= 4 && lo < from && from + 5 <= end <= hi && from <= current < end
    requires forall f :: from <= f < current ==> !sound(f)
    requires !sound(current) ==> current == end - 1
    ensures sound(current) && current <= from + gap
  {
    FirstIs(sound, from, gap);
    assert from <= First(sound, from, gap) <= from + gap;
  }

  lemma OneMore(a: nat, n: nat)
    ensures a * (n + 1) == a * n + a
  {
  }

  // A range that has been halved a number of times, but for the rounding.
  predicate Halved(whole: int, part: int, rounds: nat, gap: nat) {
    && Power2(rounds) * (part - 2) <= whole - 2
    && (rounds > 0 ==> (9 - 2 * gap) * Power2(rounds) <= 2 * (whole - 2))
  }

  lemma HalvedAgain(whole: int, part: int, rounds: nat, next: int, gap: nat)
    requires Halved(whole, part, rounds, gap) && part > LINEAR - 2 * gap && 2 * (next - 2) <= part - 2
    ensures Halved(whole, next, rounds + 1, gap)
  {
    var p := Power2(rounds);
    Times(2 * (next - 2), part - 2, p);
    Times(9 - 2 * gap, part - 2, p);
    assert p * (2 * (next - 2)) == 2 * p * (next - 2);
    assert (9 - 2 * gap) * (2 * p) == 2 * (p * (9 - 2 * gap));
  }

  lemma Times(a: int, b: int, n: nat)
    requires a <= b
    ensures n * a <= n * b
  {
  }

  // With a mode that begins at one frame and lasts, the only frame before it is that one's.
  lemma OneBoundary(mode: int -> int, wanted: int, t: int, frame: int, iStart: int, iEnd: int)
    requires forall f :: iStart <= f <= iEnd ==> (mode(f) == wanted <==> f >= t)
    requires iStart <= frame < iEnd && mode(frame) != wanted && mode(frame + 1) == wanted
    ensures frame == t - 1
  {
  }
}
