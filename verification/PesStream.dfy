/** What the audio demuxer recognises in a program stream, as a function of the bytes alone.

    `Scan` looks at the bytes from one position on and says which unit starts there, or how many
    bytes the decision still lacks. `Run` applies it repeatedly; `Feed` is one call of the demuxer,
    with the state kept between calls as a value. The layouts are those of ISO/IEC 13818-1: section
    2.4.3.6 (PES packet) and section 2.5.3.3 (pack layer). */
module PesStream {
  import opened Bytes

  // The time stamp a video header carries. The ticks are 33 bits wide. For MPEG-1 headers only the
  // five bytes of the field are kept. `PtsOutside`: the flag is set, but the field would lie outside
  // the header that was fetched.
  datatype Pts = NoPts | Ticks(ticks: nat) | Mpeg1Field(field: seq<byte>) | PtsOutside

  datatype Unit =
    | Junk                                  // one byte given up while looking for a start code
    | Pack(mpeg2: bool)
    | Audio(id: byte, length: nat)          // length is the PES_packet_length field
    | Video(length: nat, pts: Pts)
    | Other(id: byte, length: nat)

  // A recognised unit and the number of bytes of the stream it takes up.
  datatype Entry = Entry(unit: Unit, size: nat)

  datatype Verdict =
    | Need(n: nat)                          // no decision before n bytes are there
    | Resync                                // no start code here: give up one byte
    | Halt(code: int)                       // the demuxer returns this code for good
    // `fetched` bytes were asked for, the header is `header` bytes long, `body` more are passed over;
    // `data` tells how an unfinished body is remembered
    | Take(fetched: nat, header: nat, body: int, data: bool, unit: Unit)

  // The 33-bit time stamp of an MPEG-2 header, from header bytes 9 to 13.
  function PtsTicks(h: seq<byte>): nat
    requires |h| >= 14
  {
    (h[9] as int / 2 % 8) * 0x4000_0000 + h[10] as int * 0x40_0000 + (h[11] as int / 2) * 0x8000
    + h[12] as int * 0x80 + h[13] as int / 2
  }

  function Mpeg2Pts(h: seq<byte>): Pts
    requires |h| >= 9 && |h| >= 9 + h[8] as int
  {
    if h[7] < 128 then NoPts else if h[8] < 5 then PtsOutside else Ticks(PtsTicks(h))
  }

  function ScanPack(h: seq<byte>): Verdict
    requires |h| >= 4
  {
    if |h| < 12 then Need(12)
    else if h[4] / 64 == 1 then
      if |h| < 14 then Need(14)
      else
        var len := 14 + h[13] as int % 8;
        if |h| < len then Need(len) else Take(len, len, 0, false, Pack(true))
    else if h[4] / 16 == 2 then Take(12, 12, 0, false, Pack(false))
    else Halt(-1)
  }

  // Nine bytes are asked for even when the length field says the packet is shorter.
  function ScanAudio(h: seq<byte>): Verdict
    requires |h| >= 4
  {
    if |h| < 9 then Need(9)
    else
      var len := Word(h, 4) + 6;
      if |h| < len then Need(len)
      else Take(if len < 9 then 9 else len, len, 0, false, Audio(h[3], Word(h, 4)))
  }

  // The end of the stuffing of an MPEG-1 header: the bytes 0xff after the sixth byte, and one more.
  function StuffEnd(h: seq<byte>, len: nat): (r: Verdict)
    requires 7 <= len <= 22 && len <= |h|
    ensures r.Need? ==> |h| < r.n <= 23
    ensures !r.Need? ==> r.Take? && len <= r.fetched <= 23 && r.fetched <= |h|
    decreases 23 - len
  {
    if h[len - 1] != 0xff then Take(len, len, 0, true, Junk)
    else if |h| < len + 1 then Need(len + 1)
    else if len + 1 == 23 then Take(23, 23, 0, true, Junk)
    else StuffEnd(h, len + 1)
  }

  // How many bytes of time stamps follow the marker byte of an MPEG-1 header.
  function Mpeg1Skip(marker: byte): nat {
    if marker / 16 == 2 then 4 else if marker / 16 == 3 then 9 else 0
  }

  function Mpeg1Pts(h: seq<byte>, skip: nat): Pts
    requires 1 <= skip <= |h| && skip + Mpeg1Skip(h[skip - 1]) <= |h|
  {
    if h[skip - 1] / 32 % 2 == 0 then NoPts
    else if Mpeg1Skip(h[skip - 1]) < 4 then PtsOutside
    else Mpeg1Field(h[skip - 1..skip + 4])
  }

  // The rest of an MPEG-1 header, once its stuffing ends at `len`.
  function ScanMpeg1(h: seq<byte>, len: nat): (v: Verdict)
    requires 7 <= len <= |h|
    ensures v.Take? ==> len <= v.fetched
  {
    var buffered := h[len - 1] / 64 == 1;
    if buffered && |h| < len + 2 then Need(len + 2)
    else
      var skip := if buffered then len + 2 else len;
      var end := skip + Mpeg1Skip(h[skip - 1]);
      if |h| < end then Need(end)
      else Take(end, end, 6 + Word(h, 4) - end, true, Video(Word(h, 4), Mpeg1Pts(h, skip)))
  }

  function ScanMpeg2(h: seq<byte>): Verdict
    requires |h| >= 7
  {
    if |h| < 9 then Need(9)
    else
      var len := 9 + h[8] as int;
      if |h| < len then Need(len)
      else Take(len, len, 6 + Word(h, 4) - len, true, Video(Word(h, 4), Mpeg2Pts(h)))
  }

  function ScanVideo(h: seq<byte>): Verdict
    requires |h| >= 4
  {
    if |h| < 7 then Need(7)
    else if h[6] / 64 == 2 then ScanMpeg2(h)
    else
      var stuffed := StuffEnd(h, 7);
      if stuffed.Need? then stuffed else ScanMpeg1(h, stuffed.fetched)
  }

  function ScanOther(h: seq<byte>): Verdict
    requires |h| >= 4
  {
    if |h| < 6 then Need(6)
    else Take(6, 6, Word(h, 4), false, Other(h[3], Word(h, 4)))
  }

  function Scan(track: byte, h: seq<byte>): (v: Verdict)
    ensures v.Need? ==> |h| < v.n
    ensures v.Resync? ==> |h| >= 4
    ensures v.Take? ==> 6 <= v.header <= v.fetched <= |h| && v.unit != Junk
    ensures v.Take? ==> (v.header < v.fetched <==> v.unit.Audio? && v.unit.length < 3)
    ensures v.Take? && v.header < v.fetched ==> v.fetched == 9
    ensures v.Halt? ==> |h| >= 4 && v.code != 0
  {
    if |h| < 4 then Need(4)
    else if h[0] != 0 || h[1] != 0 || h[2] != 1 then Resync
    else if h[3] == 0xb9 then Halt(1)
    else if h[3] == 0xba then ScanPack(h)
    else if h[3] == 0xbd || h[3] == 0xc0 then ScanAudio(h)
    else if h[3] == track then ScanVideo(h)
    else if h[3] < 0xb9 then Halt(-1)
    else ScanOther(h)
  }

  // What is remembered between two calls.
  datatype State = Header(carry: seq<byte>) | Data(n: int) | Skip(n: int)

  datatype Outcome = More(log: seq<Entry>, st: State) | Stop(log: seq<Entry>, code: int) {
    function After(earlier: seq<Entry>): Outcome {
      if More? then More(earlier + log, st) else Stop(earlier + log, code)
    }
  }

  function Max(a: int, b: int): int { if a < b then b else a }

  // How many bytes of the stream are used up before the body of the unit. Only for an audio packet
  // shorter than the nine bytes asked for does it matter where the header was collected.
  function Used(v: Verdict, inHead: bool): nat
    requires v.Take?
  {
    if inHead then v.fetched else v.header
  }

  function Step(v: Verdict, inHead: bool): Entry
    requires v.Take?
  {
    Entry(v.unit, Used(v, inHead) + Max(v.body, 0))
  }

  function Pending(data: bool, n: int): State { if data then Data(n) else Skip(n) }

  // The stream `s` from a header on. `inHead`: the header is collected in the carry buffer.
  function Run(track: byte, s: seq<byte>, inHead: bool): (o: Outcome)
    ensures o.Stop? ==> o.code != 0
    decreases |s|
  {
    var v := Scan(track, s);
    match v
    case Need(_) => More([], Header(s))
    case Resync => Run(track, s[1..], inHead).After([Entry(Junk, 1)])
    case Halt(code) => Stop([], code)
    case Take(_, _, body, data, _) =>
      var rest := s[Used(v, inHead)..];
      if body > |rest| then More([Step(v, inHead)], Pending(data, body - |rest|))
      else Run(track, rest[Max(body, 0)..], false).After([Step(v, inHead)])
  }

  // One call: the state of the last call, and the next chunk of the stream.
  function Feed(track: byte, st: State, chunk: seq<byte>): Outcome {
    match st
    case Header(c) => Run(track, c + chunk, c != [])
    case Data(n) => if n > |chunk| then More([], Data(n - |chunk|)) else Run(track, chunk[Max(n, 0)..], false)
    case Skip(n) => if n > |chunk| then More([], Skip(n - |chunk|)) else Run(track, chunk[Max(n, 0)..], false)
  }

  // A run of calls, up to the first one that returns a code other than 0.
  function FeedAll(track: byte, st: State, chunks: seq<seq<byte>>): Outcome
    decreases |chunks|
  {
    if chunks == [] then More([], st)
    else
      var o := Feed(track, st, chunks[0]);
      if o.Stop? then o else FeedAll(track, o.st, chunks[1..]).After(o.log)
  }

  // The states the demuxer leaves behind.
  predicate Legal(track: byte, st: State) {
    match st
    case Header(c) => Scan(track, c).Need?
    case Data(n) => n >= 0
    case Skip(n) => n >= 0
  }

  // An audio start code with its length field.
  predicate AudioAt(s: seq<byte>, i: nat) {
    i + 6 <= |s| && s[i] == 0 && s[i + 1] == 0 && s[i + 2] == 1 && s[i + 3] in [0xbd, 0xc0]
  }

  // No audio packet among the recognised units is shorter than the nine bytes asked for.
  predicate NoShortAudio(log: seq<Entry>) {
    forall i :: 0 <= i < |log| && log[i].unit.Audio? ==> log[i].unit.length >= 3
  }
}

module PesCuts {
  import opened Bytes
  import opened PesStream

  lemma ScanShort(track: byte, h: seq<byte>)
    requires |h| < 4
    ensures Scan(track, h).Need?
  {
  }

  // More bytes never change a decision, and a decision looks at nothing beyond what was fetched.
  lemma StuffExtend(h: seq<byte>, t: seq<byte>, len: nat)
    requires 7 <= len <= 22 && len <= |h|
    ensures !StuffEnd(h, len).Need? ==> StuffEnd(h + t, len) == StuffEnd(h, len)
    ensures StuffEnd(h, len).Need? && StuffEnd(h + t, len).Take? ==> StuffEnd(h + t, len).fetched > |h|
    decreases 23 - len
  {
    if h[len - 1] == 0xff && |h| >= len + 1 && len + 1 < 23 {
      StuffExtend(h, t, len + 1);
    }
  }

  lemma Mpeg1Extend(h: seq<byte>, t: seq<byte>, len: nat)
    requires 7 <= len <= |h|
    ensures !ScanMpeg1(h, len).Need? ==> ScanMpeg1(h + t, len) == ScanMpeg1(h, len)
    ensures ScanMpeg1(h, len).Need? && ScanMpeg1(h + t, len).Take? ==> ScanMpeg1(h + t, len).fetched > |h|
  {
    var skip := if h[len - 1] / 64 == 1 then len + 2 else len;
    if skip <= |h| && |h| >= skip + 4 {
      assert (h + t)[skip - 1..skip + 4] == h[skip - 1..skip + 4];
    }
  }

  lemma VideoExtend(h: seq<byte>, t: seq<byte>)
    requires |h| >= 4
    ensures !ScanVideo(h).Need? ==> ScanVideo(h + t) == ScanVideo(h)
    ensures ScanVideo(h).Need? && ScanVideo(h + t).Take? ==> ScanVideo(h + t).fetched > |h|
  {
    assert forall i :: 0 <= i < |h| ==> (h + t)[i] == h[i];
    if |h| >= 7 && h[6] as int / 64 != 2 {
      hide ScanMpeg1, StuffEnd;
      StuffExtend(h, t, 7);
      if StuffEnd(h, 7).Take? { Mpeg1Extend(h, t, StuffEnd(h, 7).fetched); }
    }
  }

  lemma ScanExtend(track: byte, h: seq<byte>, t: seq<byte>)
    ensures !Scan(track, h).Need? ==> Scan(track, h + t) == Scan(track, h)
    ensures Scan(track, h).Need? && Scan(track, h + t).Take? ==> Scan(track, h + t).fetched > |h|
    ensures Scan(track, h).Need? && Scan(track, h + t).Resync? ==> |h| < 4
  {
    assert forall i :: 0 <= i < |h| ==> (h + t)[i] == h[i];
    if |h| < 4 { return; }
    VideoExtend(h, t);
    hide ScanVideo;
  }

  lemma AfterAfter(o: Outcome, a: seq<Entry>, b: seq<Entry>)
    ensures o.After(b).After(a) == o.After(a + b)
    ensures o.After([]) == o
  {
    assert a + (b + o.log) == (a + b) + o.log;
  }

  lemma NoShortAudioParts(a: seq<Entry>, b: seq<Entry>)
    requires NoShortAudio(a + b)
    ensures NoShortAudio(a) && NoShortAudio(b)
  {
    assert forall i :: 0 <= i < |a| ==> (a + b)[i] == a[i];
    assert forall i :: 0 <= i < |b| ==> (a + b)[|a| + i] == b[i];
  }

  // Where the header is collected is of no consequence unless it is that of a short audio packet.
  lemma {:induction false} HeadSame(track: byte, s: seq<byte>)
    requires NoShortAudio(Run(track, s, false).log)
    ensures Run(track, s, true) == Run(track, s, false)
    decreases |s|
  {
    hide Scan;
    var v := Scan(track, s);
    if v.Resync? {
      NoShortAudioParts([Entry(Junk, 1)], Run(track, s[1..], false).log);
      HeadSame(track, s[1..]);
    } else if v.Take? {
      assert Run(track, s, false).log[0] == Step(v, false);
    }
  }

  // A run over a prefix goes as far as it can; feeding the rest completes it.
  lemma {:induction false} RunCut(track: byte, s: seq<byte>, t: seq<byte>)
    requires NoShortAudio(Run(track, s + t, false).log)
    ensures var o := Run(track, s, false);
      if o.Stop? then Run(track, s + t, false) == o
      else Legal(track, o.st) && Run(track, s + t, false) == Feed(track, o.st, t).After(o.log)
    decreases |s|
  {
    hide Scan;
    ScanExtend(track, s, t);
    var v := Scan(track, s);
    match v
    case Need(_) =>
      if s == [] { assert s + t == t; } else { HeadSame(track, s + t); }
      AfterAfter(Feed(track, Header(s), t), [], []);
    case Halt(_) =>
    case Resync =>
      assert (s + t)[1..] == s[1..] + t;
      NoShortAudioParts([Entry(Junk, 1)], Run(track, s[1..] + t, false).log);
      RunCut(track, s[1..], t);
      var o := Run(track, s[1..], false);
      if o.More? { AfterAfter(Feed(track, o.st, t), [Entry(Junk, 1)], o.log); }
    case Take(_, _, body, data, _) =>
      RunCutTake(track, s, t);
  }

  lemma {:induction false} RunCutTake(track: byte, s: seq<byte>, t: seq<byte>)
    requires Scan(track, s).Take? && Scan(track, s + t) == Scan(track, s)
    requires NoShortAudio(Run(track, s + t, false).log)
    ensures var o := Run(track, s, false);
      if o.Stop? then Run(track, s + t, false) == o
      else Legal(track, o.st) && Run(track, s + t, false) == Feed(track, o.st, t).After(o.log)
    decreases |s|, 0
  {
    hide Scan;
    var v := Scan(track, s);
    var e := [Step(v, false)];
    var n := Max(v.body, 0);
    var rest, all := s[v.header..], (s + t)[v.header..];
    assert all == rest + t;
    if n > |rest| {
      if n <= |all| { assert all[n..] == t[n - |rest|..]; }
    } else {
      assert all[n..] == rest[n..] + t;
      NoShortAudioParts(e, Run(track, rest[n..] + t, false).log);
      RunCut(track, rest[n..], t);
      var o := Run(track, rest[n..], false);
      if o.More? { AfterAfter(Feed(track, o.st, t), e, o.log); }
    }
  }

  // The same, when the header of the first packet has been collected in the carry buffer.
  lemma {:induction false} HeadSameBack(track: byte, s: seq<byte>)
    requires NoShortAudio(Run(track, s, true).log)
    ensures Run(track, s, true) == Run(track, s, false)
    decreases |s|
  {
    hide Scan;
    var v := Scan(track, s);
    if v.Resync? {
      NoShortAudioParts([Entry(Junk, 1)], Run(track, s[1..], true).log);
      HeadSameBack(track, s[1..]);
    } else if v.Take? {
      assert Run(track, s, true).log[0] == Step(v, true);
    }
  }

  // Two calls do what one call with both chunks does.
  lemma FeedCut(track: byte, st: State, a: seq<byte>, b: seq<byte>)
    requires Legal(track, st) && NoShortAudio(Feed(track, st, a + b).log)
    ensures var o := Feed(track, st, a);
      if o.Stop? then Feed(track, st, a + b) == o
      else Legal(track, o.st) && Feed(track, st, a + b) == Feed(track, o.st, b).After(o.log)
  {
    hide Scan;
    match st
    case Header(c) =>
      assert c + (a + b) == (c + a) + b;
      if c != [] { HeadSameBack(track, c + (a + b)); }
      RunCut(track, c + a, b);
      var o := Run(track, c + a, false);
      if o.More? { NoShortAudioParts(o.log, Feed(track, o.st, b).log); }
      HeadSame(track, c + a);
    case Data(n) => BodyCut(track, n, a, b, true);
    case Skip(n) => BodyCut(track, n, a, b, false);
  }

  lemma BodyCut(track: byte, n: nat, a: seq<byte>, b: seq<byte>, data: bool)
    requires NoShortAudio(Feed(track, Pending(data, n), a + b).log)
    ensures var o := Feed(track, Pending(data, n), a);
      if o.Stop? then Feed(track, Pending(data, n), a + b) == o
      else Legal(track, o.st) && Feed(track, Pending(data, n), a + b) == Feed(track, o.st, b).After(o.log)
  {
    hide Scan;
    if n <= |a| {
      assert (a + b)[n..] == a[n..] + b;
      RunCut(track, a[n..], b);
    } else if n <= |a + b| {
      assert (a + b)[n..] == b[n - |a|..];
    }
  }

  // Any number of calls.
  lemma {:induction false} FeedAllIsFeed(track: byte, st: State, chunks: seq<seq<byte>>)
    requires Legal(track, st) && chunks != []
    requires NoShortAudio(Feed(track, st, Flatten(chunks)).log)
    ensures FeedAll(track, st, chunks) == Feed(track, st, Flatten(chunks))
    decreases |chunks|
  {
    hide Scan, Run, Feed;
    var a, rest := chunks[0], chunks[1..];
    var o := Feed(track, st, a);
    FeedCut(track, st, a, Flatten(rest));
    if o.More? {
      if rest == [] {
        assert Flatten(chunks) == a;
        AfterAfter(o, [], []);
      } else {
        NoShortAudioParts(o.log, Feed(track, o.st, Flatten(rest)).log);
        FeedAllIsFeed(track, o.st, rest);
      }
    }
  }

  lemma AfterInjective(o: Outcome, p: Outcome, log: seq<Entry>)
    requires o.After(log) == p.After(log)
    ensures o == p
  {
    assert o.log == o.After(log).log[|log|..];
    assert p.log == p.After(log).log[|log|..];
  }

  // The first unit of a stream: the bytes it takes up and its entry in the log.
  function FirstSize(v: Verdict): nat
    requires v.Resync? || v.Take?
  {
    if v.Resync? then 1 else v.header + Max(v.body, 0)
  }

  function FirstEntry(v: Verdict): Entry
    requires v.Resync? || v.Take?
  {
    if v.Resync? then Entry(Junk, 1) else Step(v, false)
  }

  // Stepping over a unit that is not a short audio packet, in a stream and in a prefix of it.
  lemma FirstUnit(track: byte, s: seq<byte>, p: nat)
    requires var v := Scan(track, s); (v.Resync? || (v.Take? && v.header == v.fetched)) && FirstSize(v) + p <= |s|
    requires p >= 8
    ensures var v := Scan(track, s); var n := FirstSize(v);
      && Run(track, s, false) == Run(track, s[n..], false).After([FirstEntry(v)])
      && Run(track, s[..n + p], false) == Run(track, s[n..][..p], false).After([FirstEntry(v)])
      && s[n + p..] == s[n..][p..]
  {
    hide Scan;
    var v := Scan(track, s);
    var n := FirstSize(v);
    assert s[..n + p] + s[n + p..] == s;
    ScanExtend(track, s[..n + p], s[n + p..]);
    assert s[n..][..p] == s[..n + p][n..];
    if v.Take? {
      assert s[v.header..][Max(v.body, 0)..] == s[n..];
      assert s[..n + p][v.header..][Max(v.body, 0)..] == s[..n + p][n..];
    }
  }

  // A short audio packet cut after its eighth byte: nine bytes are used up for it.
  lemma ShortAudioFirst(track: byte, s: seq<byte>)
    requires Scan(track, s).Take? && Scan(track, s).header < Scan(track, s).fetched
    ensures |s| >= 9 && Run(track, s[..8], false) == More([], Header(s[..8]))
    ensures Feed(track, Header(s[..8]), s[8..]).After([]) != Run(track, s, false)
  {
    hide Scan;
    var v := Scan(track, s);
    assert s[..8] + s[8..] == s;
    ScanExtend(track, s[..8], s[8..]);
    AfterAfter(Run(track, s, true), [], []);
    assert Run(track, s, true).log[0] == Step(v, true) && Run(track, s, false).log[0] == Step(v, false);
  }

  // Where a short audio packet is recognised, some cut makes a difference.
  lemma {:induction false} ShortAudioBreaks(track: byte, s: seq<byte>) returns (p: nat)
    requires !NoShortAudio(Run(track, s, false).log)
    ensures 8 <= p <= |s|
    ensures var o := Run(track, s[..p], false);
      o.More? && Feed(track, o.st, s[p..]).After(o.log) != Run(track, s, false)
    decreases |s|
  {
    hide Scan, Feed, Outcome.After;
    var v := Scan(track, s);
    if v.Take? && v.header < v.fetched {
      p := 8;
      ShortAudioFirst(track, s);
    } else {
      ShortAudioLater(track, s);
      var n := FirstSize(v);
      p := ShortAudioBreaks(track, s[n..]);
      FirstUnit(track, s, p);
      var o := Run(track, s[n..][..p], false);
      ShortAudioStays(o, Feed(track, o.st, s[n..][p..]), Run(track, s[n..], false), [FirstEntry(v)]);
      p := n + p;
    }
  }

  lemma ShortAudioLater(track: byte, s: seq<byte>)
    requires var v := Scan(track, s); !(v.Take? && v.header < v.fetched)
    requires !NoShortAudio(Run(track, s, false).log)
    ensures var v := Scan(track, s);
      (v.Resync? || v.Take?) && FirstSize(v) <= |s| && !NoShortAudio(Run(track, s[FirstSize(v)..], false).log)
  {
    hide Scan;
    var v := Scan(track, s);
    var n := FirstSize(v);
    if v.Take? {
      if n > |s| { assert false; }
      assert s[v.header..][Max(v.body, 0)..] == s[n..];
    }
    var whole := Run(track, s[n..], false);
    assert NoShortAudio(whole.log) ==> NoShortAudio([FirstEntry(v)] + whole.log);
  }

  lemma ShortAudioStays(o: Outcome, o': Outcome, whole: Outcome, e: seq<Entry>)
    requires o.More? && o'.After(o.log) != whole
    ensures o.After(e).More? && o.After(e).st == o.st && o'.After(o.After(e).log) != whole.After(e)
  {
    AfterAfter(o', e, o.log);
    if o'.After(e + o.log) == whole.After(e) { AfterInjective(o'.After(o.log), whole, e); }
  }

  // After a reset, how the stream is cut into calls makes no difference, whatever the cut, exactly
  // when no audio packet with a length field below three is recognised in it.
  lemma CutIndependentIff(track: byte, s: seq<byte>)
    ensures (forall chunks: seq<seq<byte>> :: chunks != [] && Flatten(chunks) == s ==>
               FeedAll(track, Skip(0), chunks) == Feed(track, Skip(0), s))
       <==> NoShortAudio(Feed(track, Skip(0), s).log)
  {
    hide Scan, Run;
    assert s[0..] == s;
    if NoShortAudio(Run(track, s, false).log) {
      forall chunks: seq<seq<byte>> | chunks != [] && Flatten(chunks) == s
        ensures FeedAll(track, Skip(0), chunks) == Feed(track, Skip(0), s)
      {
        FeedAllIsFeed(track, Skip(0), chunks);
      }
    } else {
      var p := ShortAudioBreaks(track, s);
      var chunks := [s[..p], s[p..]];
      FlattenTwo(s[..p], s[p..]);
      assert s[..p][0..] == s[..p];
      var o := Run(track, s[..p], false);
      var o' := Feed(track, o.st, s[p..]);
      assert chunks[1..] == [s[p..]] && [s[p..]][1..] == [];
      if o'.More? { assert o'.log + [] == o'.log; }
      assert FeedAll(track, o.st, [s[p..]]) == o';
      assert FeedAll(track, Skip(0), chunks) == o'.After(o.log);
    }
  }

  // No audio start code anywhere in the stream has a length field below three.
  ghost predicate NoShortAudioCode(s: seq<byte>) {
    forall i: nat :: AudioAt(s, i) ==> Word(s, i + 4) >= 3
  }

  lemma AudioSize(track: byte, s: seq<byte>)
    ensures var v := Scan(track, s);
      v.Take? && v.unit.Audio? ==> AudioAt(s, 0) && v.unit.length == Word(s, 4) && v.header == v.unit.length + 6
  {
  }

  lemma {:induction false} NoShortAudioSeen(track: byte, s: seq<byte>, inHead: bool)
    requires NoShortAudioCode(s)
    ensures NoShortAudio(Run(track, s, inHead).log)
    decreases |s|
  {
    hide Scan;
    var v := Scan(track, s);
    AudioSize(track, s);
    assert AudioAt(s, 0) ==> Word(s, 0 + 4) >= 3;
    if v.Resync? {
      NoShortAudioBehind(s, 1);
      NoShortAudioSeen(track, s[1..], inHead);
    } else if v.Take? {
      var k := Used(v, inHead) + Max(v.body, 0);
      if k <= |s| {
        assert s[Used(v, inHead)..][Max(v.body, 0)..] == s[k..];
        NoShortAudioBehind(s, k);
        NoShortAudioSeen(track, s[k..], false);
      }
    }
  }

  lemma NoShortAudioBehind(s: seq<byte>, k: nat)
    requires NoShortAudioCode(s) && k <= |s|
    ensures NoShortAudioCode(s[k..])
  {
    var t := s[k..];
    forall i: nat | AudioAt(t, i) ensures Word(t, i + 4) >= 3 {
      assert AudioAt(s, k + i);
    }
  }

  // So a stream that has no such bytes can be cut anywhere.
  lemma CutAnywhere(track: byte, chunks: seq<seq<byte>>)
    requires chunks != [] && NoShortAudioCode(Flatten(chunks))
    ensures FeedAll(track, Skip(0), chunks) == Feed(track, Skip(0), Flatten(chunks))
  {
    var s := Flatten(chunks);
    assert s[0..] == s;
    NoShortAudioSeen(track, s, false);
    hide Scan, Run;
    FeedAllIsFeed(track, Skip(0), chunks);
  }

  lemma FlattenTwo(a: seq<byte>, b: seq<byte>)
    ensures Flatten([a, b]) == a + b
  {
    assert [a, b][1..] == [b] && [b][1..] == [];
    assert Flatten([b]) == b + [] == b;
  }

  function Total(log: seq<Entry>): nat {
    if log == [] then 0 else log[0].size + Total(log[1..])
  }

  lemma TotalCons(e: Entry, log: seq<Entry>)
    ensures Total([e] + log) == e.size + Total(log)
  {
    assert ([e] + log)[1..] == log;
  }

  // Every byte fed belongs to exactly one unit, to the carried header, or is owed to a body still open.
  lemma {:induction false} BytesAccounted(track: byte, s: seq<byte>)
    ensures match Run(track, s, false)
      case More(log, Header(c)) => Total(log) + |c| == |s| && c == s[Total(log)..]
      case More(log, Data(n)) => n > 0 && Total(log) == |s| + n
      case More(log, Skip(n)) => n > 0 && Total(log) == |s| + n
      case Stop(log, _) => Total(log) + 4 <= |s|
    decreases |s|
  {
    hide Scan;
    var v := Scan(track, s);
    match v
    case Need(_) => assert s[0..] == s;
    case Halt(_) =>
    case Resync =>
      BytesAccounted(track, s[1..]);
      TotalCons(Entry(Junk, 1), Run(track, s[1..], false).log);
    case Take(_, _, body, _, _) =>
      var rest := s[v.header..];
      if body <= |rest| {
        BytesAccounted(track, rest[Max(body, 0)..]);
        TotalCons(Step(v, false), Run(track, rest[Max(body, 0)..], false).log);
      } else {
        TotalCons(Step(v, false), []);
      }
  }

  // The verdicts on the stream of the example below, from each place where a unit may start.
  lemma ExampleVerdicts()
    ensures Scan(0xe0, [0, 0, 1, 0xc0, 0, 0, 0, 0, 1, 0xbe, 0, 0]) == Take(9, 6, 0, false, Audio(0xc0, 0))
    ensures Scan(0xe0, [0, 0, 1, 0xc0, 0]) == Need(9) && Scan(0xe0, [0xbe, 0, 0]) == Need(4)
    ensures Scan(0xe0, [0, 0, 1, 0xbe, 0, 0]) == Take(6, 6, 0, false, Other(0xbe, 0)) && Scan(0xe0, []) == Need(4)
  {
  }

  // A stream on which the cut shows: fed whole, an audio packet of length 0 and a padding packet are
  // recognised; cut after its fifth byte, the audio packet swallows the next start code.
  lemma ShortAudioExample()
    ensures var s: seq<byte> := [0, 0, 1, 0xc0, 0, 0, 0, 0, 1, 0xbe, 0, 0];
      && Feed(0xe0, Skip(0), s) == More([Entry(Audio(0xc0, 0), 6), Entry(Other(0xbe, 0), 6)], Header([]))
      && FeedAll(0xe0, Skip(0), [s[..5], s[5..]]) == More([Entry(Audio(0xc0, 0), 9)], Header([0xbe, 0, 0]))
  {
    hide Scan;
    ExampleVerdicts();
    var s: seq<byte> := [0, 0, 1, 0xc0, 0, 0, 0, 0, 1, 0xbe, 0, 0];
    var a, b := s[..5], s[5..];
    assert s[0..] == s && s[6..][0..] == [0, 0, 1, 0xbe, 0, 0] && s[9..][0..] == [0xbe, 0, 0];
    assert [0, 0, 1, 0xbe, 0, 0][6..][0..] == [];
    assert a[0..] == [0, 0, 1, 0xc0, 0] && a[0..] + b == s;
    assert Feed(0xe0, Skip(0), a) == More([], Header(a[0..]));
    assert Feed(0xe0, Header(a[0..]), b) == More([Entry(Audio(0xc0, 0), 9)], Header([0xbe, 0, 0]));
    assert [a, b][1..] == [b];
    assert FeedAll(0xe0, Header(a[0..]), [b]) == More([Entry(Audio(0xc0, 0), 9)], Header([0xbe, 0, 0]));
  }
}
