/** How much room the audio demuxer needs in its carry buffer, and which streams never need more than there is. */
module PesRoom {
  import opened Bytes
  import opened PesStream
  import opened PesCuts

  const HEAD_SIZE := 20048

  // The carry buffer holds every header and packet that is copied into it while the window s is read.
  predicate Fits(track: byte, s: seq<byte>, inHead: bool)
    decreases |s|
  {
    var v := Scan(track, s);
    match v
    case Need(_) => |s| <= HEAD_SIZE
    case Resync => Fits(track, s[1..], inHead)
    case Halt(_) => true
    case Take(fetched, _, body, _, _) =>
      var rest := s[Used(v, inHead)..];
      (inHead ==> fetched <= HEAD_SIZE) && (body <= |rest| ==> Fits(track, rest[Max(body, 0)..], false))
  }

  predicate FeedFits(track: byte, st: State, chunk: seq<byte>) {
    match st
    case Header(c) => Fits(track, c + chunk, c != [])
    case Data(n) => n <= |chunk| ==> Fits(track, chunk[Max(n, 0)..], false)
    case Skip(n) => n <= |chunk| ==> Fits(track, chunk[Max(n, 0)..], false)
  }

  // What is left of the window after one round of the parser, if that round is not the last.
  function Next(w: seq<byte>, v: Verdict, inHead: bool): seq<byte>
    requires (v.Resync? && |w| > 0) || (v.Take? && Used(v, inHead) + Max(v.body, 0) <= |w|)
  {
    if v.Resync? then w[1..] else w[Used(v, inHead)..][Max(v.body, 0)..]
  }

  predicate Last(w: seq<byte>, v: Verdict, inHead: bool) {
    v.Need? || v.Halt? || (v.Take? && Used(v, inHead) + Max(v.body, 0) > |w|)
  }

  function EntryOf(v: Verdict, inHead: bool): Entry
    requires v.Resync? || v.Take?
  {
    if v.Resync? then Entry(Junk, 1) else Step(v, inHead)
  }

  // A run, round by round.
  lemma RunRound(track: byte, w: seq<byte>, inHead: bool)
    ensures var v := Scan(track, w);
      if Last(w, v, inHead) then
        Run(track, w, inHead) == match v {
          case Need(_) => More([], Header(w))
          case Halt(code) => Stop([], code)
          case Take(_, _, body, data, _) => More([Step(v, inHead)], Pending(data, Used(v, inHead) + body - |w|))
          case Resync => More([], Header([])) }
      else
        && |Next(w, v, inHead)| < |w|
        && Run(track, w, inHead) == Run(track, Next(w, v, inHead), inHead && v.Resync?).After([EntryOf(v, inHead)])
        && (Fits(track, w, inHead) ==> Fits(track, Next(w, v, inHead), inHead && v.Resync?))
  {
    hide Scan;
  }

  lemma ScanSize(track: byte, s: seq<byte>)
    ensures var v := Scan(track, s);
      var n := if v.Need? then v.n else if v.Take? then v.fetched else 0;
      n <= 264 || (AudioAt(s, 0) && n == Word(s, 4) + 6)
    ensures AudioAt(s, 0) ==> var v := Scan(track, s);
      v.Need? || (v.Take? && v.unit == Audio(s[3], Word(s, 4)))
  {
  }

  // Every audio packet that is recognised is no larger than the carry buffer, ...
  predicate NoLongAudio(log: seq<Entry>) {
    forall i :: 0 <= i < |log| && log[i].unit.Audio? ==> log[i].unit.length + 6 <= HEAD_SIZE
  }

  // ... and neither is what is carried in the end.
  predicate Roomy(o: Outcome) { NoLongAudio(o.log) && (o.More? && o.st.Header? ==> |o.st.carry| <= HEAD_SIZE) }

  lemma NoLongAudioParts(a: seq<Entry>, b: seq<Entry>)
    ensures NoLongAudio(a + b) <==> NoLongAudio(a) && NoLongAudio(b)
  {
    assert forall i :: 0 <= i < |a| ==> (a + b)[i] == a[i];
    assert forall i :: 0 <= i < |b| ==> (a + b)[|a| + i] == b[i];
  }

  lemma RoomyParts(o: Outcome, earlier: seq<Entry>)
    ensures Roomy(o.After(earlier)) <==> Roomy(o) && NoLongAudio(earlier)
  {
    NoLongAudioParts(earlier, o.log);
    hide NoLongAudio;
  }

  // A window of a roomy stream never overruns the carry buffer, wherever the stream is cut behind it.
  lemma {:induction false} FitsIfRoomy(track: byte, w: seq<byte>, t: seq<byte>, inHead: bool)
    requires Roomy(Run(track, w + t, inHead))
    ensures Fits(track, w, inHead)
    decreases |w|
  {
    hide *;
    var v := Scan(track, w);
    ScanExtend(track, w, t);
    RoomyFirst(track, w + t, inHead);
    FitsRound(track, w, inHead);
    NeedsNoMore(track, w, t);
    if v.Resync? || (v.Take? && !Last(w, v, inHead)) {
      NextJoined(track, w, t, v, inHead);
      RoomyRound(track, w + t, inHead);
      FitsIfRoomy(track, Next(w, v, inHead), t, inHead && v.Resync?);
    }
  }

  lemma NextJoined(track: byte, w: seq<byte>, t: seq<byte>, v: Verdict, inHead: bool)
    requires (v.Resync? && |w| > 0) || (v.Take? && !Last(w, v, inHead) && v.header > 0 && v.fetched > 0)
    ensures v.Take? ==> Used(v, inHead) + Max(v.body, 0) <= |w|
    ensures !Last(w + t, v, inHead) && Next(w + t, v, inHead) == Next(w, v, inHead) + t && |Next(w, v, inHead)| < |w|
  {
    if v.Take? {
      Dropped(w + t, Used(v, inHead), Max(v.body, 0));
      Dropped(w, Used(v, inHead), Max(v.body, 0));
    }
  }

  lemma Dropped(s: seq<byte>, m: nat, n: nat)
    requires m + n <= |s|
    ensures s[m..][n..] == s[m + n..]
  {
  }

  // What follows the first unit of a roomy stream is roomy.
  lemma RoomyRound(track: byte, w: seq<byte>, inHead: bool)
    requires Roomy(Run(track, w, inHead))
    ensures var v := Scan(track, w);
      !Last(w, v, inHead) ==> Roomy(Run(track, Next(w, v, inHead), inHead && v.Resync?))
  {
    var v := Scan(track, w);
    RunRound(track, w, inHead);
    if !Last(w, v, inHead) { RoomyParts(Run(track, Next(w, v, inHead), inHead && v.Resync?), [EntryOf(v, inHead)]); }
    hide Scan, Run, Roomy;
  }

  // A window fits if its first unit does, and what follows.
  lemma FitsRound(track: byte, w: seq<byte>, inHead: bool)
    ensures var v := Scan(track, w);
      && (v.Need? ==> (Fits(track, w, inHead) <==> |w| <= HEAD_SIZE))
      && (v.Halt? ==> Fits(track, w, inHead))
      && (v.Take? ==> (Fits(track, w, inHead) <==>
          ((inHead ==> v.fetched <= HEAD_SIZE) && (Last(w, v, inHead) || Fits(track, Next(w, v, inHead), false)))))
      && (v.Resync? ==> (Fits(track, w, inHead) <==> Fits(track, Next(w, v, inHead), inHead)))
  {
    hide Scan;
  }

  // A unit of a roomy stream needs no more bytes than there is room for, nor does a part of one.
  lemma NeedsNoMore(track: byte, w: seq<byte>, t: seq<byte>)
    requires var v := Scan(track, w + t);
      && (v.Need? ==> |w + t| <= HEAD_SIZE)
      && (v.Take? && v.unit.Audio? ==> v.unit.length + 6 <= HEAD_SIZE)
    ensures var v := Scan(track, w);
      && (v.Need? ==> |w| <= HEAD_SIZE)
      && (v.Take? && v == Scan(track, w + t) ==> v.fetched <= HEAD_SIZE)
  {
    ScanSize(track, w);
    ScanSize(track, w + t);
    hide Scan;
    assert AudioAt(w, 0) ==> AudioAt(w + t, 0) && Word(w + t, 4) == Word(w, 4);
  }

  // What a roomy outcome says about the first unit.
  lemma RoomyFirst(track: byte, w: seq<byte>, inHead: bool)
    requires Roomy(Run(track, w, inHead))
    ensures var v := Scan(track, w);
      && (v.Need? ==> |w| <= HEAD_SIZE)
      && (v.Take? && v.unit.Audio? ==> v.unit.length + 6 <= HEAD_SIZE)
  {
    hide Scan;
    var v := Scan(track, w);
    if v.Take? { assert Run(track, w, inHead).log[0] == Step(v, inHead); }
  }

  lemma FeedFitsIfRoomy(track: byte, st: State, a: seq<byte>, b: seq<byte>)
    requires Roomy(Feed(track, st, a + b))
    ensures FeedFits(track, st, a)
  {
    hide Scan, Run, Fits, Roomy;
    match st
    case Header(c) =>
      assert c + (a + b) == (c + a) + b;
      FitsIfRoomy(track, c + a, b, c != []);
    case Data(n) => BodyFits(track, n, a, b, true);
    case Skip(n) => BodyFits(track, n, a, b, false);
  }

  lemma BodyFits(track: byte, n: int, a: seq<byte>, b: seq<byte>, data: bool)
    requires Roomy(Feed(track, Pending(data, n), a + b))
    ensures n <= |a| ==> Fits(track, a[Max(n, 0)..], false)
  {
    hide Scan, Run, Fits, Roomy;
    if n <= |a| {
      assert (a + b)[Max(n, 0)..] == a[Max(n, 0)..] + b;
      FitsIfRoomy(track, a[Max(n, 0)..], b, false);
    }
  }

  // The calls for a run of chunks, each of which must stay inside the carry buffer.
  predicate AllFit(track: byte, st: State, chunks: seq<seq<byte>>)
    decreases |chunks|
  {
    chunks == [] || (
      && FeedFits(track, st, chunks[0])
      && var o := Feed(track, st, chunks[0]);
        o.More? ==> AllFit(track, o.st, chunks[1..]))
  }

  lemma {:induction false} AllFitIfRoomy(track: byte, st: State, chunks: seq<seq<byte>>)
    requires Legal(track, st) && NoShortAudio(Feed(track, st, Flatten(chunks)).log)
    requires Roomy(Feed(track, st, Flatten(chunks)))
    ensures AllFit(track, st, chunks)
    decreases |chunks|
  {
    hide Scan, Run, Feed, FeedFits, Roomy, NoShortAudio;
    if chunks != [] {
      var a, b := chunks[0], Flatten(chunks[1..]);
      FeedFitsIfRoomy(track, st, a, b);
      FeedCut(track, st, a, b);
      var o := Feed(track, st, a);
      if o.More? {
        RoomyParts(Feed(track, o.st, b), o.log);
        NoShortAudioParts(o.log, Feed(track, o.st, b).log);
        AllFitIfRoomy(track, o.st, chunks[1..]);
      }
    }
  }

  // A long audio packet overruns the carry buffer when it is cut behind its header.
  lemma LongAudioFirst(track: byte, s: seq<byte>)
    requires var v := Scan(track, s); v.Take? && v.unit.Audio? && v.unit.length + 6 > HEAD_SIZE
    ensures |s| >= 8 && Run(track, s[..8], false) == More([], Header(s[..8]))
    ensures !FeedFits(track, Header(s[..8]), s[8..])
  {
    hide Scan;
    AudioSize(track, s);
    ScanSize(track, s);
    assert s[..8] + s[8..] == s;
    ScanExtend(track, s[..8], s[8..]);
  }

  lemma {:induction false} LongAudioBreaks(track: byte, s: seq<byte>) returns (p: nat)
    requires NoShortAudio(Run(track, s, false).log) && !NoLongAudio(Run(track, s, false).log)
    ensures 8 <= p <= |s|
    ensures var o := Run(track, s[..p], false); o.More? && !FeedFits(track, o.st, s[p..])
    decreases |s|
  {
    hide Scan, FeedFits;
    var v := Scan(track, s);
    if v.Take? && v.unit.Audio? && v.unit.length + 6 > HEAD_SIZE {
      p := 8;
      LongAudioFirst(track, s);
    } else {
      LongAudioLater(track, s);
      var n := FirstSize(v);
      p := LongAudioBreaks(track, s[n..]);
      FirstUnit(track, s, p);
      p := n + p;
    }
  }

  lemma LongAudioLater(track: byte, s: seq<byte>)
    requires var v := Scan(track, s); !(v.Take? && v.unit.Audio? && v.unit.length + 6 > HEAD_SIZE)
    requires NoShortAudio(Run(track, s, false).log) && !NoLongAudio(Run(track, s, false).log)
    ensures var v := Scan(track, s);
      && (v.Resync? || (v.Take? && v.header == v.fetched)) && FirstSize(v) <= |s|
      && NoShortAudio(Run(track, s[FirstSize(v)..], false).log)
      && !NoLongAudio(Run(track, s[FirstSize(v)..], false).log)
  {
    hide Scan;
    var v := Scan(track, s);
    RunRound(track, s, false);
    if v.Take? { assert Run(track, s, false).log[0] == Step(v, false); }
    if !Last(s, v, false) {
      var rest := Run(track, Next(s, v, false), false);
      assert Next(s, v, false) == s[FirstSize(v)..];
      NoShortAudioParts([EntryOf(v, false)], rest.log);
      NoLongAudioParts([EntryOf(v, false)], rest.log);
    }
  }

  // A carry that is too long overruns the buffer even when the stream is not cut.
  lemma {:induction false} LongCarry(track: byte, s: seq<byte>)
    requires var o := Run(track, s, false); o.More? && o.st.Header? && |o.st.carry| > HEAD_SIZE
    ensures !Fits(track, s, false)
    decreases |s|
  {
    hide Scan;
    RunRound(track, s, false);
    var v := Scan(track, s);
    if !Last(s, v, false) { LongCarry(track, Next(s, v, false)); }
  }

  // After a reset, and without short audio packets, every way to cut the stream into calls stays inside the
  // carry buffer exactly when no recognised audio packet, and no header that is left in the end, is larger.
  lemma AllFitIff(track: byte, s: seq<byte>)
    requires NoShortAudio(Feed(track, Skip(0), s).log)
    ensures (forall chunks: seq<seq<byte>> :: chunks != [] && Flatten(chunks) == s ==> AllFit(track, Skip(0), chunks))
       <==> Roomy(Feed(track, Skip(0), s))
  {
    hide Scan, Run, Fits;
    assert s[0..] == s;
    var o := Feed(track, Skip(0), s);
    if Roomy(o) {
      forall chunks: seq<seq<byte>> | chunks != [] && Flatten(chunks) == s ensures AllFit(track, Skip(0), chunks) {
        AllFitIfRoomy(track, Skip(0), chunks);
      }
    } else if !NoLongAudio(o.log) {
      var p := LongAudioBreaks(track, s);
      CutDoesNotFit(track, s, p);
      FlattenTwo(s[..p], s[p..]);
      assert s[..p] + s[p..] == s;
    } else {
      LongCarry(track, s);
      WholeDoesNotFit(track, s);
    }
  }

  lemma WholeDoesNotFit(track: byte, s: seq<byte>)
    requires !Fits(track, s, false)
    ensures Flatten([s]) == s && !AllFit(track, Skip(0), [s])
  {
    hide Fits, Run;
    assert [s][1..] == [] && s + [] == s && s[0..] == s;
  }

  lemma CutDoesNotFit(track: byte, s: seq<byte>, p: nat)
    requires p <= |s| && Run(track, s[..p], false).More? && !FeedFits(track, Run(track, s[..p], false).st, s[p..])
    ensures !AllFit(track, Skip(0), [s[..p], s[p..]])
  {
    hide Run, FeedFits;
    assert s[..p][0..] == s[..p] && [s[..p], s[p..]][1..] == [s[p..]];
  }

  // For example, an audio packet of 20049 bytes, one more than there is room for, cut behind its eighth byte.
  lemma OverrunExample(track: byte, payload: seq<byte>)
    requires |payload| == 20043
    ensures var s := [0, 0, 1, 0xc0, 78, 75] + payload;
      && Feed(track, Skip(0), s) == More([Entry(Audio(0xc0, 20043), 20049)], Header([]))
      && !AllFit(track, Skip(0), [s[..8], s[8..]])
  {
    var s := [0, 0, 1, 0xc0, 78, 75] + payload;
    assert Word(s, 4) == 20043 && s[0..] == s;
    assert Scan(track, s) == Take(20049, 20049, 0, false, Audio(0xc0, 20043));
    LongAudioFirst(track, s);
    CutDoesNotFit(track, s, 8);
    assert Scan(track, []).Need? && s[20049..] == [];
    hide Scan;
    assert Run(track, [], false) == More([], Header([]));
    assert Run(track, s, false) == Run(track, [], false).After([Entry(Audio(0xc0, 20043), 20049)]);
  }

  // No audio start code in the stream announces a packet larger than the carry buffer.
  ghost predicate NoLongAudioCode(s: seq<byte>) {
    forall i: nat :: AudioAt(s, i) ==> Word(s, i + 4) + 6 <= HEAD_SIZE
  }

  // Such a stream, which need not be parsed to be known, is roomy.
  lemma {:induction false} RoomyByBytes(track: byte, s: seq<byte>, inHead: bool)
    requires NoLongAudioCode(s)
    ensures Roomy(Run(track, s, inHead))
    decreases |s|
  {
    var v := Scan(track, s);
    ScanSize(track, s);
    AudioSize(track, s);
    RunRound(track, s, inHead);
    FirstRoomy(track, s, inHead);
    hide Scan, Run, Roomy, NoLongAudioCode;
    if !Last(s, v, inHead) {
      NoLongAudioBehind(s, Next(s, v, inHead), |s| - |Next(s, v, inHead)|);
      RoomyByBytes(track, Next(s, v, inHead), inHead && v.Resync?);
      RoomyParts(Run(track, Next(s, v, inHead), inHead && v.Resync?), [EntryOf(v, inHead)]);
    }
  }

  lemma FirstRoomy(track: byte, s: seq<byte>, inHead: bool)
    requires NoLongAudioCode(s)
    ensures var v := Scan(track, s);
      if !Last(s, v, inHead) then NoLongAudio([EntryOf(v, inHead)]) else Roomy(Run(track, s, inHead))
  {
    ScanSize(track, s);
    AudioSize(track, s);
    RunRound(track, s, inHead);
    hide Scan;
    assert AudioAt(s, 0) ==> Word(s, 0 + 4) + 6 <= HEAD_SIZE;
  }

  lemma NoLongAudioBehind(s: seq<byte>, rest: seq<byte>, k: nat)
    requires NoLongAudioCode(s) && k <= |s| && rest == s[k..]
    ensures NoLongAudioCode(rest)
  {
    forall i: nat | AudioAt(rest, i) ensures Word(rest, i + 4) + 6 <= HEAD_SIZE {
      assert AudioAt(s, k + i);
    }
  }
}
