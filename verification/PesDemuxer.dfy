/** The audio demuxer as it runs: a resumable parser over a buffer, with a fixed carry buffer for the
    header that the end of a chunk has cut. Its calls are proved to be `PesStream.Feed`. */
module PesDemuxer {
  import opened Bytes
  import opened PesStream
  import opened PesCuts
  import opened PesRoom
  import PesPrint

  datatype Mode = DemuxHeader | DemuxData | DemuxSkip
  datatype Flags = Flags(payloadStart: bool, reset: bool)
  datatype Exit = Continue | Return(code: int)

  // Where the header being looked at lies: in the carry buffer, followed by what is left of the
  // chunk from `pos` on, or in the chunk itself at `pos`. `bytes` of it are there to be read.
  datatype Cursor = Cursor(pos: int, inHead: bool, bytes: int)

  // What a branch of the parser finds out about the header it looks at.
  datatype Measure = Short | Bad(code: int) | Done(c: Cursor, len: int, body: int, data: bool, unit: Unit)

  // One more chunk of a stream without short audio packets, which fits if the stream is roomy.
  lemma NextChunk(track: byte, s: seq<byte>, done: seq<byte>, chunk: seq<byte>)
    requires done + chunk <= s && NoShortAudio(Feed(track, Skip(0), s).log) && Roomy(Feed(track, Skip(0), s))
    requires Feed(track, Skip(0), done).More?
    ensures var o, o' := Feed(track, Skip(0), done), Feed(track, Skip(0), done + chunk);
      && Feed(track, o.st, chunk).After(o.log) == o'
      && (o'.Stop? ==> Feed(track, Skip(0), s) == o')
      && FeedFits(track, o.st, chunk)
  {
    hide Scan, Run, Feed, FeedFits, Roomy;
    var o := Feed(track, Skip(0), done);
    assert s == done + (chunk + s[|done + chunk|..]);
    FeedCut(track, Skip(0), done, chunk + s[|done + chunk|..]);
    RoomyParts(Feed(track, o.st, chunk + s[|done + chunk|..]), o.log);
    FeedFitsIfRoomy(track, o.st, chunk, s[|done + chunk|..]);
    var rest := s[|done + chunk|..];
    assert s == (done + chunk) + rest;
    FeedCut(track, Skip(0), done + chunk, rest);
    var o' := Feed(track, Skip(0), done + chunk);
    if o'.More? { NoShortAudioParts(o'.log, Feed(track, o'.st, rest).log); }
    FeedCut(track, Skip(0), done, chunk);
  }

  // The time stamp remembered after a unit, and after a run of units.
  function PtsAfter(pts: Pts, unit: Unit): Pts {
    if unit.Video? && unit.pts != NoPts then unit.pts else pts
  }

  function PtsAfterAll(pts: Pts, log: seq<Entry>): Pts {
    if log == [] then pts else PtsAfter(PtsAfterAll(pts, log[..|log| - 1]), log[|log| - 1].unit)
  }

  lemma {:induction false} PtsAfterBoth(pts: Pts, a: seq<Entry>, b: seq<Entry>)
    ensures PtsAfterAll(pts, a + b) == PtsAfterAll(PtsAfterAll(pts, a), b)
  {
    if b == [] {
      assert a + b == a;
    } else {
      var front := b[..|b| - 1];
      PtsAfterBoth(pts, a, front);
      assert (a + b)[..|a + b| - 1] == a + front;
    }
  }

  predicate Stamped(e: Entry) { e.unit.Video? && e.unit.pts != NoPts }

  // The time stamp is that of the last video packet that has one, and the old one if there is none.
  predicate Remembers(now: Pts, before: Pts, log: seq<Entry>) {
    && (forall k :: 0 <= k < |log| && Stamped(log[k]) && (forall i :: k < i < |log| ==> !Stamped(log[i])) ==>
          now == log[k].unit.pts)
    && ((forall i :: 0 <= i < |log| ==> !Stamped(log[i])) ==> now == before)
  }

  lemma {:induction false} LastIsRemembered(pts: Pts, log: seq<Entry>)
    ensures Remembers(PtsAfterAll(pts, log), pts, log)
  {
    if log != [] {
      var n := |log| - 1;
      var front := log[..n];
      LastIsRemembered(pts, front);
      if !Stamped(log[n]) {
        assert forall i :: 0 <= i < n ==> front[i] == log[i];
        assert PtsAfterAll(pts, log) == PtsAfterAll(pts, front);
        forall k | 0 <= k < |log| && Stamped(log[k]) && (forall i :: k < i < |log| ==> !Stamped(log[i]))
          ensures PtsAfterAll(pts, log) == log[k].unit.pts
        {
          assert forall i :: k < i < n ==> log[i] == front[i];
        }
      }
    }
  }

  lemma PtsAfterNone(pts: Pts)
    ensures PtsAfterAll(pts, []) == pts
  {
  }

  // The time stamp of a printed packet.
  function StampOf(p: PesPrint.Packet): Pts {
    if p.VideoPacket? && p.ticks >= 0 then Ticks(p.ticks)
    else if p.Video1Packet? && |p.stamps| >= 5 then Mpeg1Field(p.stamps[..5])
    else NoPts
  }

  // After a printed stream the time stamp is the one that was printed last.
  lemma {:induction false} PrintedStamp(track: byte, items: seq<PesPrint.Item>, k: nat, pts: Pts)
    requires PesPrint.Writable(track, items) && k < |items| && StampOf(items[k].packet) != NoPts
    requires forall i :: k < i < |items| ==> StampOf(items[i].packet) == NoPts
    ensures PtsAfterAll(pts, PesPrint.EntriesOf(track, items)) == StampOf(items[k].packet)
  {
    hide *;
    FirstStamp(track, items, pts);
    StampAfter(track, items[0].packet, pts);
    var next := if StampOf(items[0].packet) != NoPts then StampOf(items[0].packet) else pts;
    if k == 0 {
      NoStamps(track, items[1..], next);
    } else {
      PrintedStamp(track, items[1..], k - 1, next);
    }
  }

  lemma {:induction false} NoStamps(track: byte, items: seq<PesPrint.Item>, pts: Pts)
    requires PesPrint.Writable(track, items) && forall i :: 0 <= i < |items| ==> StampOf(items[i].packet) == NoPts
    ensures PtsAfterAll(pts, PesPrint.EntriesOf(track, items)) == pts
  {
    if items != [] {
      hide *;
      FirstStamp(track, items, pts);
      StampAfter(track, items[0].packet, pts);
      NoStamps(track, items[1..], pts);
    } else {
      PtsAfterNone(pts);
    }
  }

  lemma StampAfter(track: byte, p: PesPrint.Packet, pts: Pts)
    requires PesPrint.Printable(track, p)
    ensures PtsAfter(pts, PesPrint.UnitOf(track, p)) == if StampOf(p) != NoPts then StampOf(p) else pts
  {
  }

  lemma FirstStamp(track: byte, items: seq<PesPrint.Item>, pts: Pts)
    requires PesPrint.Writable(track, items) && items != []
    ensures PesPrint.Printable(track, items[0].packet) && PesPrint.Writable(track, items[1..])
    ensures PtsAfterAll(pts, PesPrint.EntriesOf(track, items))
         == PtsAfterAll(PtsAfter(pts, PesPrint.UnitOf(track, items[0].packet)), PesPrint.EntriesOf(track, items[1..]))
  {
    PesPrint.WritableFirst(track, items);
    var p, junk, rest := items[0].packet, PesPrint.Junks(|items[0].lead|), PesPrint.EntriesOf(track, items[1..]);
    var entry := Entry(PesPrint.UnitOf(track, p), |PesPrint.Print(track, p)|);
    hide PesPrint.Writable, PesPrint.Print, PesPrint.UnitOf, PesPrint.Printable, PtsAfter;
    assert PesPrint.EntriesOf(track, items) == junk + ([entry] + rest);
    PtsAfterBoth(pts, junk, [entry] + rest);
    PtsAfterBoth(pts, [entry], rest);
    JunkStamps(|junk|, pts);
    assert PtsAfterAll(pts, [entry]) == PtsAfter(PtsAfterAll(pts, [entry][..0]), entry.unit);
    PtsAfterNone(pts);
  }

  lemma {:induction false} JunkStamps(n: nat, pts: Pts)
    ensures PtsAfterAll(pts, PesPrint.Junks(n)) == pts
  {
    if n > 0 {
      assert PesPrint.Junks(n)[..n - 1] == PesPrint.Junks(n - 1);
      JunkStamps(n - 1, pts);
    }
  }

  class Demuxer {
    const track: byte
    const headBuf: array<byte>
    var state: Mode
    var stateBytes: int
    var videopts: Pts
    ghost var log: seq<Entry>   // what has been recognised so far

    constructor (track: byte)
      ensures this.track == track && fresh(headBuf) && headBuf.Length == HEAD_SIZE && log == []
      ensures Valid() && Abs() == Skip(0)
    {
      this.track := track;
      headBuf := new byte[HEAD_SIZE];
      state, stateBytes, videopts, log := DemuxSkip, 0, NoPts, [];
    }

    ghost predicate Valid()
      reads this, headBuf
    {
      && headBuf.Length == HEAD_SIZE
      && 0 <= stateBytes && (state == DemuxHeader ==> stateBytes <= HEAD_SIZE)
      && Legal(track, Abs())
    }

    // The state kept between two calls.
    ghost function Abs(): State
      requires headBuf.Length == HEAD_SIZE && 0 <= stateBytes && (state == DemuxHeader ==> stateBytes <= HEAD_SIZE)
      reads this, headBuf
    {
      match state
      case DemuxHeader => Header(headBuf[..stateBytes])
      case DemuxData => Data(stateBytes)
      case DemuxSkip => Skip(stateBytes)
    }

    ghost predicate At(c: Cursor, buf: array<byte>, end: int)
      reads `state
    {
      && headBuf.Length == HEAD_SIZE && buf != headBuf
      && 0 <= c.pos <= end <= buf.Length
      && (if c.inHead then 0 <= c.bytes <= HEAD_SIZE && state == DemuxHeader else c.bytes == end - c.pos)
    }

    // The stream as seen from the header at the cursor.
    ghost function Window(c: Cursor, buf: array<byte>, end: int): seq<byte>
      requires At(c, buf, end)
      reads `state, headBuf, buf
    {
      if c.inHead then headBuf[..c.bytes] + buf[c.pos..end] else buf[c.pos..end]
    }

    // Byte i of the header.
    function Hdr(c: Cursor, buf: array<byte>, end: int, i: int): (b: byte)
      requires At(c, buf, end) && 0 <= i < c.bytes
      reads `state, headBuf, buf
      ensures b == Window(c, buf, end)[i]
    {
      if c.inHead then headBuf[i] else buf[c.pos + i]
    }

    // What has been collected in the carry buffer was not enough to decide on.
    ghost predicate Open(c: Cursor)
      reads headBuf
    {
      c.inHead ==> 0 <= c.bytes <= headBuf.Length && Scan(track, headBuf[..c.bytes]).Need?
    }

    // The window w lies at the cursor.
    ghost predicate Holds(c: Cursor, buf: array<byte>, end: int, w: seq<byte>)
      reads `state, headBuf, buf
    {
      At(c, buf, end) && w == Window(c, buf, end) && c.bytes <= |w|
    }

    // The verdict v on the window w can be carried out without leaving the carry buffer.
    ghost predicate Room(c: Cursor, w: seq<byte>, v: Verdict) {
      match v
      case Need(n) => |w| <= HEAD_SIZE
      case Resync => false
      case Halt(_) => |w| >= 4
      case Take(fetched, header, _, _, _) => c.inHead ==> c.bytes <= fetched <= HEAD_SIZE
    }

    // The window w has been put away into the carry buffer.
    ghost predicate Carried(w: seq<byte>)
      reads this, headBuf
    {
      state == DemuxHeader && stateBytes == |w| <= HEAD_SIZE == headBuf.Length && headBuf[..stateBytes] == w
    }

    method CopyToHead(at: int, buf: array<byte>, pos: int, n: int)
      requires buf != headBuf && 0 <= at && 0 <= n && at + n <= headBuf.Length && 0 <= pos && pos + n <= buf.Length
      modifies headBuf
      ensures headBuf[..at + n] == old(headBuf[..at]) + buf[pos..pos + n]
    {
      forall i | 0 <= i < n { headBuf[at + i] := buf[pos + i]; }
    }

    // Makes sure that x bytes of the header are there. If they are not, everything that is there is
    // put into the carry buffer, and the call is over.
    method NeedBytes(c: Cursor, x: int, buf: array<byte>, end: int, ghost w: seq<byte>)
      returns (ok: bool, c': Cursor)
      requires Holds(c, buf, end, w) && 0 <= x
      requires |w| <= HEAD_SIZE || x <= if c.inHead then HEAD_SIZE else |w|
      modifies `state, `stateBytes, headBuf
      ensures ok <==> x <= |w|
      ensures ok ==> Holds(c', buf, end, w) && unchanged(`state, `stateBytes)
      ensures ok ==> c'.inHead == c.inHead && c'.bytes == if c.inHead then Max(c.bytes, x) else |w|
      ensures !ok ==> Carried(w)
    {
      ok, c' := true, c;
      var missing := x - c.bytes;
      if missing > 0 {
        if c.inHead {
          if missing <= end - c.pos {
            assert buf[c.pos..end] == buf[c.pos..c.pos + missing] + buf[c.pos + missing..end];
            CopyToHead(c.bytes, buf, c.pos, missing);
            c' := Cursor(c.pos + missing, true, x);
          } else {
            CopyToHead(c.bytes, buf, c.pos, end - c.pos);
            stateBytes := c.bytes + end - c.pos;
            ok := false;
          }
        } else {
          CopyToHead(0, buf, c.pos, c.bytes);
          state := DemuxHeader;
          stateBytes := c.bytes;
          ok := false;
        }
      }
    }

    // Where the chunk goes on after a header of len bytes.
    function DoneBytes(c: Cursor, buf: array<byte>, end: int, len: int): (next: int)
      requires At(c, buf, end) && (!c.inHead ==> 0 <= len <= c.bytes)
      reads `state, headBuf, buf
      ensures c.pos <= next <= end
      ensures buf[next..end] == Window(c, buf, end)[if c.inHead then c.bytes else len..]
    {
      if c.inHead then c.pos else c.pos + len
    }

    // A header that is all there: where it lies, its length, and what follows from it.
    twostate predicate Measured(w: seq<byte>, v: Verdict, inHead: bool, buf: array<byte>, end: int, m: Measure)
      reads this, headBuf, buf
    {
      match v
      case Need(_) => m == Short && Carried(w)
      case Resync => false
      case Halt(code) => m == Bad(code) && unchanged(`state, `stateBytes)
      case Take(fetched, header, body, data, unit) =>
        && m.Done? && Holds(m.c, buf, end, w) && unchanged(`state, `stateBytes)
        && m.c.inHead == inHead && m.c.bytes == (if inHead then fetched else |w|)
        && m.len == header && m.body == body && m.data == data && m.unit == unit
    }

    method PackHeader(c0: Cursor, buf: array<byte>, end: int, ghost w: seq<byte>) returns (m: Measure)
      requires |w| >= 4 && Holds(c0, buf, end, w) && Room(c0, w, ScanPack(w))
      modifies `state, `stateBytes, headBuf
      ensures Measured(w, ScanPack(w), c0.inHead, buf, end, m)
    {
      var ok, c := NeedBytes(c0, 12, buf, end, w);
      if !ok { return Short; }
      if Hdr(c, buf, end, 4) as int / 64 == 1 {
        ok, c := NeedBytes(c, 14, buf, end, w);
        if !ok { return Short; }
        var len := 14 + Hdr(c, buf, end, 13) as int % 8;
        ok, c := NeedBytes(c, len, buf, end, w);
        if !ok { return Short; }
        return Done(c, len, 0, false, Pack(true));
      } else if Hdr(c, buf, end, 4) as int / 16 == 2 {
        return Done(c, 12, 0, false, Pack(false));
      } else {
        return Bad(-1);
      }
    }

    method AudioPacket(c0: Cursor, buf: array<byte>, end: int, ghost w: seq<byte>) returns (m: Measure)
      requires 4 <= c0.bytes <= |w| && Holds(c0, buf, end, w) && Room(c0, w, ScanAudio(w))
      modifies `state, `stateBytes, headBuf
      ensures Measured(w, ScanAudio(w), c0.inHead, buf, end, m)
    {
      var ok, c := NeedBytes(c0, 9, buf, end, w);
      if !ok { return Short; }
      var length := Hdr(c, buf, end, 4) as int * 256 + Hdr(c, buf, end, 5) as int;
      ok, c := NeedBytes(c, length + 6, buf, end, w);
      if !ok { return Short; }
      return Done(c, length + 6, 0, false, Audio(Hdr(c, buf, end, 3), length));
    }

    method OtherPacket(c0: Cursor, buf: array<byte>, end: int, ghost w: seq<byte>) returns (m: Measure)
      requires |w| >= 4 && Holds(c0, buf, end, w) && Room(c0, w, ScanOther(w))
      modifies `state, `stateBytes, headBuf
      ensures Measured(w, ScanOther(w), c0.inHead, buf, end, m)
    {
      var ok, c := NeedBytes(c0, 6, buf, end, w);
      if !ok { return Short; }
      var length := Hdr(c, buf, end, 4) as int * 256 + Hdr(c, buf, end, 5) as int;
      return Done(c, 6, length, false, Other(Hdr(c, buf, end, 3), length));
    }

    method VideoPacket(c0: Cursor, buf: array<byte>, end: int, ghost w: seq<byte>) returns (m: Measure)
      requires |w| >= 4 && Holds(c0, buf, end, w) && Room(c0, w, ScanVideo(w))
      modifies `state, `stateBytes, headBuf
      ensures Measured(w, ScanVideo(w), c0.inHead, buf, end, m)
    {
      var ok, c := NeedBytes(c0, 7, buf, end, w);
      if !ok { return Short; }
      if Hdr(c, buf, end, 6) as int / 64 == 2 {
        m := Mpeg2Header(c, buf, end, w);
      } else {
        m := Mpeg1Header(c, buf, end, w);
      }
    }

    method ReadMpeg2Pts(c: Cursor, buf: array<byte>, end: int, ghost w: seq<byte>) returns (pts: Pts)
      requires Holds(c, buf, end, w) && 9 <= c.bytes <= |w| && 9 + w[8] as int <= c.bytes
      ensures pts == Mpeg2Pts(w)
    {
      pts := NoPts;
      if Hdr(c, buf, end, 7) >= 128 {
        if Hdr(c, buf, end, 8) < 5 {
          pts := PtsOutside;
        } else {
          var ticks := Hdr(c, buf, end, 9) as int / 2 % 8 * 0x4000_0000;
          ticks := ticks + Hdr(c, buf, end, 10) as int * 0x40_0000;
          ticks := ticks + Hdr(c, buf, end, 11) as int / 2 * 0x8000;
          ticks := ticks + Hdr(c, buf, end, 12) as int * 0x80;
          ticks := ticks + Hdr(c, buf, end, 13) as int / 2;
          pts := Ticks(ticks);
        }
      }
    }

    method ReadMpeg1Pts(c: Cursor, buf: array<byte>, end: int, ghost w: seq<byte>, skip: int) returns (pts: Pts)
      requires Holds(c, buf, end, w) && 1 <= skip <= c.bytes <= |w| && skip + Mpeg1Skip(w[skip - 1]) <= c.bytes
      ensures pts == Mpeg1Pts(w, skip)
    {
      pts := NoPts;
      if Hdr(c, buf, end, skip - 1) as int / 32 % 2 == 1 {
        if Mpeg1Skip(Hdr(c, buf, end, skip - 1)) < 4 {
          pts := PtsOutside;
        } else {
          var field := [Hdr(c, buf, end, skip - 1), Hdr(c, buf, end, skip), Hdr(c, buf, end, skip + 1),
                        Hdr(c, buf, end, skip + 2), Hdr(c, buf, end, skip + 3)];
          assert field == w[skip - 1..skip + 4];
          pts := Mpeg1Field(field);
        }
      }
    }

    method Mpeg2Header(c0: Cursor, buf: array<byte>, end: int, ghost w: seq<byte>) returns (m: Measure)
      requires |w| >= 7 && Holds(c0, buf, end, w) && Room(c0, w, ScanMpeg2(w))
      modifies `state, `stateBytes, headBuf
      ensures Measured(w, ScanMpeg2(w), c0.inHead, buf, end, m)
    {
      hide Mpeg2Pts, Window;
      var ok, c := NeedBytes(c0, 9, buf, end, w);
      if !ok { return Short; }
      var len := 9 + Hdr(c, buf, end, 8) as int;
      ok, c := NeedBytes(c, len, buf, end, w);
      if !ok { return Short; }
      var pts := ReadMpeg2Pts(c, buf, end, w);
      var length := Hdr(c, buf, end, 4) as int * 256 + Hdr(c, buf, end, 5) as int;
      return Done(c, len, 6 + length - len, true, Video(length, pts));
    }

    // Steps over the stuffing bytes of an MPEG-1 header.
    method Stuffing(c0: Cursor, buf: array<byte>, end: int, ghost w: seq<byte>) returns (ok: bool, c: Cursor, len: int)
      requires |w| >= 7 && 7 <= c0.bytes && Holds(c0, buf, end, w)
      requires StuffEnd(w, 7).Need? ==> |w| <= HEAD_SIZE
      modifies `state, `stateBytes, headBuf
      ensures ok <==> StuffEnd(w, 7).Take?
      ensures ok ==> len == StuffEnd(w, 7).fetched && Holds(c, buf, end, w) && unchanged(`state, `stateBytes)
      ensures ok ==> c.inHead == c0.inHead && c.bytes == if c.inHead then Max(c0.bytes, len) else |w|
      ensures !ok ==> Carried(w)
    {
      ok, c, len := true, c0, 7;
      while len < 23 && Hdr(c, buf, end, len - 1) == 0xff
        invariant 7 <= len <= 23 && len <= c.bytes && len <= |w|
        invariant Holds(c, buf, end, w) && unchanged(`state, `stateBytes)
        invariant c.inHead == c0.inHead && c.bytes == if c.inHead then Max(c0.bytes, len) else |w|
        invariant if len < 23 then StuffEnd(w, len) == StuffEnd(w, 7) else StuffEnd(w, 7) == Take(23, 23, 0, true, Junk)
      {
        ok, c := NeedBytes(c, len + 1, buf, end, w);
        if !ok { return; }
        len := len + 1;
      }
    }

    method Mpeg1Header(c0: Cursor, buf: array<byte>, end: int, ghost w: seq<byte>) returns (m: Measure)
      requires |w| >= 7 && 7 <= c0.bytes && Holds(c0, buf, end, w) && w[6] as int / 64 != 2
      requires Room(c0, w, ScanVideo(w))
      modifies `state, `stateBytes, headBuf
      ensures Measured(w, ScanVideo(w), c0.inHead, buf, end, m)
    {
      hide Mpeg1Pts, StuffEnd, Window;
      var ok, c, len := Stuffing(c0, buf, end, w);
      if !ok { return Short; }
      if Hdr(c, buf, end, len - 1) as int / 64 == 1 {
        len := len + 2;
        ok, c := NeedBytes(c, len, buf, end, w);
        if !ok { return Short; }
      }
      var skip := len;
      len := len + Mpeg1Skip(Hdr(c, buf, end, len - 1));
      ok, c := NeedBytes(c, len, buf, end, w);
      if !ok { return Short; }
      var pts := ReadMpeg1Pts(c, buf, end, w, skip);
      var length := Hdr(c, buf, end, 4) as int * 256 + Hdr(c, buf, end, 5) as int;
      return Done(c, len, 6 + length - len, true, Video(length, pts));
    }

    // Steps over the header that has been measured and over its body; an unfinished body is remembered.
    method PassOver(m: Measure, buf: array<byte>, end: int, ghost w: seq<byte>, ghost v: Verdict)
      returns (r: Exit, next: int)
      requires m.Done? && v.Take? && Holds(m.c, buf, end, w) && v.header <= v.fetched <= |w|
      requires m.c.bytes == if m.c.inHead then v.fetched else |w|
      requires m.len == v.header && m.body == v.body && m.data == v.data && m.unit == v.unit
      modifies `state, `stateBytes, `videopts, `log
      ensures log == old(log) + [Step(v, m.c.inHead)] && videopts == PtsAfter(old(videopts), v.unit)
      ensures var rest := w[Used(v, m.c.inHead)..];
        if v.body > |rest| then
          r == Return(0) && state == (if v.data then DemuxData else DemuxSkip) && stateBytes == v.body - |rest|
        else
          && r == Continue && unchanged(`state, `stateBytes)
          && 0 <= next <= end && buf[next..end] == rest[Max(v.body, 0)..]
    {
      hide Window;
      log := log + [Entry(m.unit, (if m.c.inHead then m.c.bytes else m.len) + Max(m.body, 0))];
      if m.unit.Video? && m.unit.pts != NoPts { videopts := m.unit.pts; }
      next := DoneBytes(m.c, buf, end, m.len);
      ghost var rest := w[Used(v, m.c.inHead)..];
      assert buf[next..end] == rest;
      if m.body > end - next {
        state := if m.data then DemuxData else DemuxSkip;
        stateBytes := m.body - (end - next);
        return Return(0), end;
      } else if m.body > 0 {
        next := next + m.body;
        assert buf[next..end] == rest[m.body..];
      }
      return Continue, next;
    }

    // Looks at the header behind the start code.
    method MeasureHeader(c: Cursor, buf: array<byte>, end: int, ghost w: seq<byte>) returns (m: Measure)
      requires Holds(c, buf, end, w) && 4 <= c.bytes <= |w| && !Scan(track, w).Resync? && Room(c, w, Scan(track, w))
      modifies `state, `stateBytes, headBuf
      ensures Measured(w, Scan(track, w), c.inHead, buf, end, m)
    {
      hide ScanPack, ScanAudio, ScanVideo, ScanOther, Window;
      var id := Hdr(c, buf, end, 3);
      if id == 0xb9 {
        m := Bad(1);
      } else if id == 0xba {
        m := PackHeader(c, buf, end, w);
      } else if id == 0xbd || id == 0xc0 {
        m := AudioPacket(c, buf, end, w);
      } else if id == track {
        m := VideoPacket(c, buf, end, w);
      } else if id < 0xb9 {
        m := Bad(-1);
      } else {
        m := OtherPacket(c, buf, end, w);
      }
    }

    // What one round of the loop does with the window w, on which the verdict is v.
    twostate predicate Advanced(w: seq<byte>, v: Verdict, inHead: bool, buf: array<byte>, end: int, r: Exit, c: Cursor)
      requires v.Take? ==> v.header <= v.fetched <= |w|
      requires v.Resync? ==> |w| >= 1
      reads this, headBuf, buf
    {
      match v
      case Need(_) => r == Return(0) && Carried(w) && unchanged(`log, `videopts)
      case Halt(code) => r == Return(code) && unchanged(`log, `videopts, `state, `stateBytes)
      case Resync =>
        && r == Continue && Holds(c, buf, end, w[1..]) && c.inHead == inHead && (inHead ==> c.bytes < 4)
        && log == old(log) + [Entry(Junk, 1)] && unchanged(`videopts, `state, `stateBytes)
      case Take(_, _, body, data, unit) =>
        var rest := w[Used(v, inHead)..];
        && log == old(log) + [Step(v, inHead)] && videopts == PtsAfter(old(videopts), unit)
        && (if body > |rest| then
              r == Return(0) && state == (if data then DemuxData else DemuxSkip) && stateBytes == body - |rest|
            else
              r == Continue && unchanged(`state, `stateBytes) && !c.inHead && Holds(c, buf, end, rest[Max(body, 0)..]))
    }

    // No start code at the cursor: give up the first byte of the header.
    method Resynchronise(c0: Cursor, buf: array<byte>, end: int, ghost w: seq<byte>) returns (c: Cursor)
      requires Holds(c0, buf, end, w) && |w| >= 4 && (c0.inHead ==> c0.bytes == 4)
      modifies headBuf
      ensures Holds(c, buf, end, w[1..]) && c.inHead == c0.inHead && (c.inHead ==> c.bytes == 3)
    {
      if c0.inHead {
        headBuf[0] := headBuf[1];
        headBuf[1] := headBuf[2];
        headBuf[2] := headBuf[3];
        c := Cursor(c0.pos, true, 3);
        assert Window(c, buf, end) == w[1..];
      } else {
        c := Cursor(c0.pos + 1, false, end - (c0.pos + 1));
      }
    }

    method OneUnit(c0: Cursor, buf: array<byte>, end: int, ghost w: seq<byte>) returns (r: Exit, c: Cursor)
      requires Holds(c0, buf, end, w) && Fits(track, w, c0.inHead)
      requires Open(c0)
      modifies `state, `stateBytes, `videopts, `log, headBuf
      ensures Advanced(w, Scan(track, w), c0.inHead, buf, end, r, c)
    {
      hide Scan, Window;
      AskedFor(c0, buf, end, w);
      var ok;
      ok, c := NeedBytes(c0, 4, buf, end, w);
      if !ok { return Return(0), c; }
      assert Hdr(c, buf, end, 0) == w[0] && Hdr(c, buf, end, 1) == w[1] && Hdr(c, buf, end, 2) == w[2];
      if Hdr(c, buf, end, 0) != 0 || Hdr(c, buf, end, 1) != 0 || Hdr(c, buf, end, 2) != 1 {
        log := log + [Entry(Junk, 1)];
        c := Resynchronise(c, buf, end, w);
        return Continue, c;
      }
      r, c := TakeUnit(c, buf, end, w);
    }

    // A start code at the cursor: deal with the unit it begins.
    method TakeUnit(c0: Cursor, buf: array<byte>, end: int, ghost w: seq<byte>) returns (r: Exit, c: Cursor)
      requires Holds(c0, buf, end, w) && 4 <= c0.bytes && !Scan(track, w).Resync? && Room(c0, w, Scan(track, w))
      modifies `state, `stateBytes, `videopts, `log, headBuf
      ensures Advanced(w, Scan(track, w), c0.inHead, buf, end, r, c)
    {
      hide Scan;
      c := c0;
      var m := MeasureHeader(c, buf, end, w);
      match m
      case Short => return Return(0), c;
      case Bad(code) => return Return(code), c;
      case Done(_, _, _, _, _) =>
        var next;
        r, next := PassOver(m, buf, end, w, Scan(track, w));
        c := Cursor(next, false, end - next);
    }

    // The verdict on the window, as far as a round depends on it before it looks at the header.
    lemma AskedFor(c: Cursor, buf: array<byte>, end: int, w: seq<byte>)
      requires Holds(c, buf, end, w) && Fits(track, w, c.inHead)
      requires Open(c)
      ensures var v := Scan(track, w);
        && (|w| < 4 ==> v.Need?) && (v.Need? ==> |w| <= HEAD_SIZE)
        && (|w| >= 4 ==> (v.Resync? <==> w[0] != 0 || w[1] != 0 || w[2] != 1))
        && (c.inHead && v.Resync? ==> c.bytes < 4)
        && (c.inHead && v.Take? ==> c.bytes < v.fetched <= HEAD_SIZE)
    {
      if c.inHead { ScanExtend(track, headBuf[..c.bytes], buf[c.pos..end]); }
    }

    // What a call leaves behind when the rest of its chunk has the outcome o.
    twostate predicate Finished(o: Outcome, ret: int)
      reads this, headBuf
    {
      && log == old(log) + o.log && videopts == PtsAfterAll(old(videopts), o.log)
      && ret == (if o.More? then 0 else o.code)
      && (o.More? ==> Stands(o.st))
    }

    ghost predicate Stands(st: State)
      reads this, headBuf
    {
      Valid() && Abs() == st
    }

    // One round of the parser's loop.
    method Round(c0: Cursor, buf: array<byte>, end: int, ghost w: seq<byte>) returns (r: Exit, c: Cursor)
      requires Holds(c0, buf, end, w) && Fits(track, w, c0.inHead)
      requires Open(c0)
      modifies `state, `stateBytes, `videopts, `log, headBuf
      ensures var v := Scan(track, w);
        if Last(w, v, c0.inHead) then r.Return? && Finished(Run(track, w, c0.inHead), r.code)
        else
          && r == Continue && Holds(c, buf, end, Next(w, v, c0.inHead)) && c.inHead == (c0.inHead && v.Resync?)
          && Open(c)
          && log == old(log) + [EntryOf(v, c0.inHead)]
          && videopts == PtsAfterAll(old(videopts), [EntryOf(v, c0.inHead)])
    {
      hide Scan, Window, Run;
      RunRound(track, w, c0.inHead);
      r, c := OneUnit(c0, buf, end, w);
      if c.inHead && r == Continue { ScanShort(track, headBuf[..c.bytes]); }
      ghost var o := Run(track, w, c0.inHead);
      if r.Return? {
        assert log == old(log) + o.log;
        assert videopts == PtsAfterAll(old(videopts), o.log);
        assert o.More? ==> Abs() == o.st;
      }
    }

    // The parser's loop, over the window w.
    method Parse(c0: Cursor, buf: array<byte>, end: int, ghost w0: seq<byte>) returns (ret: int)
      requires Holds(c0, buf, end, w0) && Fits(track, w0, c0.inHead)
      requires Open(c0)
      modifies `state, `stateBytes, `videopts, `log, headBuf
      ensures Finished(Run(track, w0, c0.inHead), ret)
    {
      hide Scan, Window, Run, Fits, Next, PtsAfterAll, Holds, Open;
      ghost var goal := Run(track, w0, c0.inHead);
      ghost var w, done: seq<Entry> := w0, [];
      var c := c0;
      AfterAfter(goal, [], []);
      assert PtsAfterAll(videopts, []) == videopts by { PtsAfterNone(videopts); }
      while true
        invariant Holds(c, buf, end, w) && Fits(track, w, c.inHead)
        invariant Open(c)
        invariant Run(track, w, c.inHead).After(done) == goal
        invariant log == old(log) + done && videopts == PtsAfterAll(old(videopts), done)
        decreases |w|
      {
        ghost var v, o := Scan(track, w), Run(track, w, c.inHead);
        RunRound(track, w, c.inHead);
        var r, c' := Round(c, buf, end, w);
        if r.Return? {
          PtsAfterBoth(old(videopts), done, o.log);
          return r.code;
        }
        ghost var e := EntryOf(v, c.inHead);
        PtsAfterBoth(old(videopts), done, [e]);
        w := Next(w, v, c.inHead);
        AfterAfter(Run(track, w, c'.inHead), done, [e]);
        done := done + [e];
        c := c';
      }
    }

    // The state a call starts from.
    ghost function Entered(flags: Flags): State
      requires Valid() || flags.reset || flags.payloadStart
      reads this, headBuf
    {
      if flags.reset || flags.payloadStart then Skip(0) else Abs()
    }

    // One call of the demuxer on the chunk buf[start..end]. It returns 0 when it waits for more, and
    // another code when it gives up, after which only a call with a reset may follow.
    method DemuxPes(buf: array<byte>, start: int, end: int, flags: Flags) returns (ret: int)
      requires headBuf.Length == HEAD_SIZE && buf != headBuf && 0 <= start <= end <= buf.Length
      requires Valid() || flags.reset || flags.payloadStart
      requires FeedFits(track, Entered(flags), buf[start..end])
      modifies this, headBuf
      ensures Finished(old(Feed(track, Entered(flags), buf[start..end])), ret)
      ensures var o := old(
          if flags.reset || flags.payloadStart then Feed(track, Skip(0), buf[start..end])
          else Feed(track, Abs(), buf[start..end]));
        && log == old(log) + o.log && Remembers(videopts, old(videopts), o.log)
        && ret == (if o.More? then 0 else o.code) && (o.More? ==> Valid() && Abs() == o.st)
    {
      hide Scan, Run, Fits;
      ghost var chunk := buf[start..end];
      ghost var st := Entered(flags);
      var c := Cursor(start, false, end - start);
      if flags.reset { state, stateBytes := DemuxSkip, 0; }
      if flags.payloadStart {
        state := DemuxSkip;
      } else if state == DemuxHeader {
        if stateBytes > 0 { c := Cursor(start, true, stateBytes); }
      } else if stateBytes > end - start {
        stateBytes := stateBytes - (end - start);
        return 0;
      } else {
        c := Cursor(start + stateBytes, false, end - (start + stateBytes));
      }
      ghost var w := Window(c, buf, end);
      assert w == if st.Header? then st.carry + chunk else chunk[st.n..];
      LastIsRemembered(videopts, Feed(track, st, chunk).log);
      hide Remembers, PtsAfterAll;
      ret := Parse(c, buf, end, w);
    }

    // The calls for a whole stream: the first chunk with a reset, the others as they come, up to the first
    // return value other than 0. However the stream is cut, the units, the time stamp and the state are
    // those of the whole stream, and the carry buffer is never overrun.
    method DemuxAll(chunks: seq<array<byte>>) returns (ret: int)
      requires headBuf.Length == HEAD_SIZE && chunks != [] && headBuf !in chunks
      requires var o := Feed(track, Skip(0), Flatten(Contents(chunks))); NoShortAudio(o.log) && Roomy(o)
      modifies this, headBuf
      ensures Finished(old(Feed(track, Skip(0), Flatten(Contents(chunks)))), ret)
      ensures Remembers(videopts, old(videopts), log[|old(log)|..])
    {
      hide Remembers, Scan, Run, Feed, FeedFits, PtsAfterAll, Stands, Roomy, NoShortAudio, Flatten;
      ghost var cs := Contents(chunks);
      ghost var s, done := Flatten(cs), [];
      var i := 0;
      StartOfStream(track, videopts);
      assert cs[0..] == cs && done + s == s;
      while i < |chunks|
        invariant 0 <= i <= |chunks| && Contents(chunks) == cs && s == done + Flatten(cs[i..])
        invariant Feed(track, Skip(0), done).More?
        invariant i > 0 ==> Stands(Feed(track, Skip(0), done).st)
        invariant i == 0 ==> done == []
        invariant log == old(log) + Feed(track, Skip(0), done).log
        invariant videopts == PtsAfterAll(old(videopts), Feed(track, Skip(0), done).log)
      {
        ghost var o, chunk := Feed(track, Skip(0), done), cs[i];
        FlattenStep(cs, i);
        NextChunk(track, s, done, chunk);
        FirstCall(track, chunk);
        ghost var st := if i == 0 then Skip(0) else o.st;
        ret := Call(chunks[i], Flags(false, i == 0), st, chunk);
        ghost var p := Feed(track, st, chunk);
        PtsAfterBoth(old(videopts), o.log, p.log);
        if ret != 0 {
          LastIsRemembered(old(videopts), Feed(track, Skip(0), s).log);
          return;
        }
        done := done + chunk;
        i := i + 1;
      }
      FlattenEnd(cs, done);
      LastIsRemembered(old(videopts), Feed(track, Skip(0), s).log);
      ret := 0;
    }

    // One of these calls.
    method Call(buf: array<byte>, flags: Flags, ghost st: State, ghost chunk: seq<byte>) returns (ret: int)
      requires headBuf.Length == HEAD_SIZE && buf != headBuf && chunk == buf[..] && !flags.payloadStart
      requires if flags.reset then st == Skip(0) else Stands(st)
      requires FeedFits(track, st, chunk)
      modifies this, headBuf
      ensures Finished(Feed(track, st, chunk), ret)
      ensures ret != 0 <==> Feed(track, st, chunk).Stop?
    {
      hide Scan, Run, FeedFits;
      assert buf[0..buf.Length] == buf[..];
      ret := DemuxPes(buf, 0, buf.Length, flags);
      StopIsNotZero(track, st, chunk);
    }
  }

  ghost function Contents(chunks: seq<array<byte>>): (cs: seq<seq<byte>>)
    reads chunks
    ensures |cs| == |chunks| && forall i :: 0 <= i < |cs| ==> cs[i] == chunks[i][..]
  {
    seq(|chunks|, i requires 0 <= i < |chunks| reads chunks => chunks[i][..])
  }

  lemma StopIsNotZero(track: byte, st: State, chunk: seq<byte>)
    ensures var o := Feed(track, st, chunk); o.Stop? ==> o.code != 0
  {
    hide Run;
  }

  lemma StartOfStream(track: byte, pts: Pts)
    ensures Feed(track, Skip(0), []) == More([], Header([])) && PtsAfterAll(pts, []) == pts
  {
  }

  // A call on nothing leaves an empty carry, which is as good as no state.
  lemma FirstCall(track: byte, chunk: seq<byte>)
    ensures Feed(track, Header([]), chunk) == Feed(track, Skip(0), chunk)
    ensures Feed(track, Skip(0), []).st == Header([])
    ensures FeedFits(track, Header([]), chunk) == FeedFits(track, Skip(0), chunk)
  {
    assert [] + chunk == chunk == chunk[0..];
    hide Fits;
  }

  lemma FlattenEnd(cs: seq<seq<byte>>, done: seq<byte>)
    ensures done + Flatten(cs[|cs|..]) == done
  {
  }

  lemma FlattenStep(cs: seq<seq<byte>>, i: nat)
    requires i < |cs|
    ensures Flatten(cs[i..]) == cs[i] + Flatten(cs[i + 1..])
  {
    assert cs[i..][0] == cs[i] && cs[i..][1..] == cs[i + 1..];
  }
}
