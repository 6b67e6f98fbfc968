/** Writing a program stream, and reading it back. */
module PesPrint {
  import opened Bytes
  import opened PesStream
  import opened PesCuts

  datatype Packet =
    // a header with its clock and rate fields, the reserved bits in front of the stuffing length, the stuffing
    | Pack2(clock: seq<byte>, reserved: nat, stuffing: seq<byte>)
    | Pack1(clock1: seq<byte>)
    | AudioPacket(id: byte, payload: seq<byte>)
    // an MPEG-2 header: its first flag byte, the other flags, the bits in front of the time stamp, the time
    // stamp (none if ticks < 0) and the rest of the header data; the length field of a packet without payload
    // may be too small by some missing bytes
    | VideoPacket(flags: byte, more: nat, prefix: nat, ticks: int, extra: seq<byte>, payload: seq<byte>, missing: nat)
    // an MPEG-1 header: stuffing bytes, the buffer size if it is there, the time stamps or the byte in their place
    | Video1Packet(stuffed: nat, buffer: seq<byte>, stamps: seq<byte>, payload: seq<byte>, missing: nat)
    | OtherPacket(id: byte, payload: seq<byte>)

  // The packets that have a form in the stream.
  predicate Printable(track: byte, p: Packet) {
    match p
    case Pack2(clock, reserved, stuffing) =>
      |clock| == 9 && clock[0] as int / 64 == 1 && reserved < 32 && |stuffing| < 8
    case Pack1(clock) => |clock| == 8 && clock[0] as int / 16 == 2
    case AudioPacket(id, payload) => (id == 0xbd || id == 0xc0) && 3 <= |payload| < 0x1_0000
    case VideoPacket(flags, more, prefix, ticks, extra, payload, missing) =>
      && flags as int / 64 == 2 && more < 128 && prefix < 16 && ticks < 0x2_0000_0000
      && |extra| <= (if ticks < 0 then 255 else 250) && |payload| + |extra| + (if ticks < 0 then 3 else 8) < 0x1_0000
      && (missing > 0 ==> payload == [] && missing <= |extra| + if ticks < 0 then 3 else 8)
    case Video1Packet(stuffed, buffer, stamps, payload, missing) =>
      && stuffed <= 16 && (buffer == [] || (|buffer| == 2 && buffer[0] as int / 64 == 1))
      && (stamps == [0x0f] || (|stamps| == 5 && stamps[0] as int / 16 == 2)
          || (|stamps| == 10 && stamps[0] as int / 16 == 3))
      && stuffed + |buffer| + |stamps| + |payload| < 0x1_0000
      && (missing > 0 ==> payload == [] && missing <= stuffed + |buffer| + |stamps|)
    case OtherPacket(id, payload) => id > 0xba && id != 0xbd && id != 0xc0 && id != track && |payload| < 0x1_0000
  }

  // Tracks whose start code the demuxer does not claim for something else.
  predicate VideoTrack(track: byte) {
    track != 0xb9 && track != 0xba && track != 0xbd && track != 0xc0
  }

  function StartCode(id: byte, length: nat): (s: seq<byte>)
    requires length < 0x1_0000
    ensures |s| == 6
  {
    [0, 0, 1, id, length / 256, length % 256]
  }

  // The 33 bits of a time stamp with their marker bits, behind four bits that tell which one it is.
  function TicksField(prefix: nat, t: nat): seq<byte>
    requires prefix < 16 && t < 0x2_0000_0000
  {
    [prefix * 16 + 1 + t / 0x4000_0000 * 2, t / 0x40_0000 % 256, t / 0x8000 % 128 * 2 + 1, t / 0x80 % 256,
     t % 128 * 2 + 1]
  }

  // The second flag byte, the header length and the header data of a video packet.
  function VideoHeader(more: nat, prefix: nat, ticks: int, extra: seq<byte>): seq<byte>
    requires more < 128 && prefix < 16 && ticks < 0x2_0000_0000 && |extra| <= if ticks < 0 then 255 else 250
  {
    if ticks < 0 then [more, |extra|] + extra else [0x80 + more, 5 + |extra|] + TicksField(prefix, ticks) + extra
  }

  function Stuffing(n: nat): (s: seq<byte>)
    ensures |s| == n && forall i :: 0 <= i < n ==> s[i] == 0xff
  {
    seq(n, i => 0xff)
  }

  function Print(track: byte, p: Packet): seq<byte>
    requires Printable(track, p)
  {
    match p
    case Pack2(clock, reserved, stuffing) => [0, 0, 1, 0xba] + clock + [reserved * 8 + |stuffing|] + stuffing
    case Pack1(clock) => [0, 0, 1, 0xba] + clock
    case AudioPacket(id, payload) => StartCode(id, |payload|) + payload
    case VideoPacket(flags, more, prefix, ticks, extra, payload, missing) =>
      var h := [flags] + VideoHeader(more, prefix, ticks, extra);
      StartCode(track, |h| + |payload| - missing) + h + payload
    case Video1Packet(stuffed, buffer, stamps, payload, missing) =>
      var h := Stuffing(stuffed) + buffer + stamps;
      StartCode(track, |h| + |payload| - missing) + h + payload
    case OtherPacket(id, payload) => StartCode(id, |payload|) + payload
  }

  function UnitOf(track: byte, p: Packet): Unit
    requires Printable(track, p)
  {
    match p
    case Pack2(_, _, _) => Pack(true)
    case Pack1(_) => Pack(false)
    case AudioPacket(id, payload) => Audio(id, |payload|)
    case VideoPacket(_, more, prefix, ticks, extra, payload, missing) =>
      Video(1 + |VideoHeader(more, prefix, ticks, extra)| + |payload| - missing,
            if ticks < 0 then NoPts else Ticks(ticks))
    case Video1Packet(stuffed, buffer, stamps, payload, missing) =>
      Video(stuffed + |buffer| + |stamps| + |payload| - missing,
            if |stamps| == 1 then NoPts else Mpeg1Field(stamps[..5]))
    case OtherPacket(id, payload) => Other(id, |payload|)
  }

  // A packet behind bytes that hold no start code.
  datatype Item = Item(lead: seq<byte>, packet: Packet)

  predicate CodeAt(s: seq<byte>, i: nat) { i + 3 <= |s| && s[i] == 0 && s[i + 1] == 0 && s[i + 2] == 1 }

  // No start code begins before the one behind these bytes.
  ghost predicate NoStart(lead: seq<byte>) {
    forall i: nat :: i < |lead| ==> !CodeAt(lead + [0, 0, 1], i)
  }

  ghost predicate Writable(track: byte, items: seq<Item>) {
    items != [] ==>
      NoStart(items[0].lead) && Printable(track, items[0].packet) && Writable(track, items[1..])
  }

  // How a stream ends: just so, with a program end code, with the start code of something that is no system
  // stream, or with a header of neither kind; with anything behind it.
  datatype Ending =
    | Nothing
    | EndCode(behind: seq<byte>)
    | NoSystem(id: byte, behind: seq<byte>)
    | Weird(behind: seq<byte>)

  predicate Possible(track: byte, e: Ending) {
    match e
    case Nothing => true
    case EndCode(_) => true
    case NoSystem(id, _) => id < 0xb9 && id != track
    case Weird(behind) => |behind| >= 8 && behind[0] as int / 64 != 1 && behind[0] as int / 16 != 2
  }

  function PrintEnding(e: Ending): seq<byte> {
    match e
    case Nothing => []
    case EndCode(behind) => [0, 0, 1, 0xb9] + behind
    case NoSystem(id, behind) => [0, 0, 1, id] + behind
    case Weird(behind) => [0, 0, 1, 0xba] + behind
  }

  ghost function PrintAll(track: byte, items: seq<Item>, e: Ending): seq<byte>
    requires Writable(track, items)
  {
    if items == [] then PrintEnding(e)
    else items[0].lead + (Print(track, items[0].packet) + PrintAll(track, items[1..], e))
  }

  function Junks(n: nat): (log: seq<Entry>)
    ensures |log| == n
  {
    seq(n, i => Entry(Junk, 1))
  }

  // The bytes in front of a packet are given up one by one.
  ghost function EntriesOf(track: byte, items: seq<Item>): seq<Entry>
    requires Writable(track, items)
  {
    if items == [] then []
    else
      var p := items[0].packet;
      Junks(|items[0].lead|) + ([Entry(UnitOf(track, p), |Print(track, p)|)] + EntriesOf(track, items[1..]))
  }

  // What reading such a stream comes to. An end code is no fault.
  ghost function OutcomeOf(track: byte, items: seq<Item>, e: Ending): Outcome
    requires Writable(track, items)
  {
    match e
    case Nothing => More(EntriesOf(track, items), Header([]))
    case EndCode(_) => Stop(EntriesOf(track, items), 1)
    case NoSystem(_, _) => Stop(EntriesOf(track, items), -1)
    case Weird(_) => Stop(EntriesOf(track, items), -1)
  }

  // All 33 bits of a time stamp come back from its five bytes.
  lemma TicksBack(prefix: nat, t: nat, h: seq<byte>)
    requires prefix < 16 && t < 0x2_0000_0000 && |h| >= 14 && h[9..14] == TicksField(prefix, t)
    ensures PtsTicks(h) == t
  {
    assert h[9] == h[9..14][0] && h[10] == h[9..14][1] && h[11] == h[9..14][2]
        && h[12] == h[9..14][3] && h[13] == h[9..14][4];
    TopBits(prefix, t / 0x4000_0000);
    PartsOfTicks(t);
  }

  lemma TopBits(prefix: nat, d: nat)
    requires prefix < 16 && d < 8
    ensures (prefix * 16 + 1 + d * 2) / 2 % 8 == d
  {
    assert (prefix * 16 + 1 + d * 2) / 2 == prefix * 8 + d;
  }

  lemma PartsOfTicks(t: nat)
    ensures t / 0x4000_0000 * 0x4000_0000 + t / 0x40_0000 % 256 * 0x40_0000 + t / 0x8000 % 128 * 0x8000
            + t / 0x80 % 256 * 0x80 + t % 128 == t
  {
    var a, b, c, d := t / 0x80, t / 0x8000, t / 0x40_0000, t / 0x4000_0000;
    assert t == a * 0x80 + t % 128;
    assert b == a / 256 && a == b * 256 + a % 256;
    assert c == b / 128 && b == c * 128 + b % 128;
    assert d == c / 256 && c == d * 256 + c % 256;
  }

  // A verdict that steps over exactly the first n bytes and logs unit u. An unfinished video packet is
  // remembered as data.
  predicate Exactly(v: Verdict, n: nat, u: Unit) {
    v.Take? && v.unit == u && v.header == v.fetched && v.header + Max(v.body, 0) == n && (v.data <==> u.Video?)
  }

  lemma ScanPacks(track: byte, p: Packet, rest: seq<byte>)
    requires Printable(track, p) && (p.Pack2? || p.Pack1?)
    ensures Exactly(Scan(track, Print(track, p) + rest), |Print(track, p)|, UnitOf(track, p))
  {
    var h := Print(track, p) + rest;
    if p.Pack2? {
      assert h[4] == p.clock[0] && h[13] == p.reserved * 8 + |p.stuffing|;
    } else {
      assert h[4] == p.clock1[0];
    }
  }

  lemma ScanVideoPacket(track: byte, p: Packet, rest: seq<byte>)
    requires Printable(track, p) && p.VideoPacket? && VideoTrack(track)
    ensures Exactly(Scan(track, Print(track, p) + rest), |Print(track, p)|, UnitOf(track, p))
  {
    var vh := VideoHeader(p.more, p.prefix, p.ticks, p.extra);
    var n := 1 + |vh| + |p.payload| - p.missing;
    var h := Print(track, p) + rest;
    assert h[0] == 0 && h[1] == 0 && h[2] == 1 && h[3] == track;
    assert h[4] == n / 256 && h[5] == n % 256 && h[6] == p.flags && h[7] == vh[0] && h[8] == vh[1];
    assert Word(h, 4) == n;
    if p.ticks >= 0 {
      assert h[9..14] == TicksField(p.prefix, p.ticks);
      TicksBack(p.prefix, p.ticks, h);
    }
    hide PtsTicks, TicksField;
    assert ScanMpeg2(h) == Take(9 + h[8] as int, 9 + h[8] as int, |p.payload| - p.missing, true, Video(n, Mpeg2Pts(h)));
  }

  // A run of stuffing ends where it should.
  lemma {:induction false} StuffRun(h: seq<byte>, len: nat, n: nat)
    requires 7 <= len <= 22 && len + n <= 23 && len + n <= |h|
    requires forall i {:trigger h[i]} :: len - 1 <= i < len - 1 + n ==> h[i] == 0xff
    requires len + n < 23 ==> h[len + n - 1] != 0xff
    ensures StuffEnd(h, len) == Take(len + n, len + n, 0, true, Junk)
    decreases n
  {
    if n > 0 && len < 22 { StuffRun(h, len + 1, n - 1); }
  }

  // The parts of an MPEG-1 header: n is the length field, skip where the time stamps begin.
  predicate Mpeg1Parts(h: seq<byte>, track: byte, n: nat, stuffed: nat, buffered: bool, marker: byte) {
    var skip := 6 + stuffed + if buffered then 2 else 0;
    && stuffed <= 16 && |h| > skip + Mpeg1Skip(marker)
    && h[0] == 0 && h[1] == 0 && h[2] == 1 && h[3] == track && Word(h, 4) == n
    && (forall i {:trigger h[i]} :: 6 <= i < 6 + stuffed ==> h[i] == 0xff)
    && (buffered ==> h[6 + stuffed] / 64 == 1)
    && h[skip] == marker && marker < 64
  }

  lemma ScanParts(h: seq<byte>, track: byte, n: nat, stuffed: nat, buffered: bool, marker: byte)
    requires Mpeg1Parts(h, track, n, stuffed, buffered, marker) && VideoTrack(track)
    ensures var skip := 7 + stuffed + if buffered then 2 else 0; var end := skip + Mpeg1Skip(marker);
      && end <= |h| && h[skip - 1] == marker
      && Scan(track, h) == Take(end, end, 6 + n - end, true, Video(n, Mpeg1Pts(h, skip)))
  {
    StuffRun(h, 7, stuffed);
    hide StuffEnd;
    assert h[6] / 64 != 2;
    assert ScanVideo(h) == ScanMpeg1(h, 7 + stuffed);
  }

  lemma ScanVideo1Packet(track: byte, p: Packet, rest: seq<byte>)
    requires Printable(track, p) && p.Video1Packet? && VideoTrack(track)
    ensures Exactly(Scan(track, Print(track, p) + rest), |Print(track, p)|, UnitOf(track, p))
  {
    var h := Print(track, p) + rest;
    var n, skip := p.stuffed + |p.buffer| + |p.stamps| + |p.payload| - p.missing, 6 + p.stuffed + |p.buffer|;
    PartsPrinted(track, p, rest);
    MarkerOf(track, p);
    hide Print, Scan, Mpeg1Parts;
    ScanParts(h, track, n, p.stuffed, p.buffer != [], p.stamps[0]);
    if |p.stamps| >= 5 { assert h[skip..skip + 5] == h[skip..skip + |p.stamps|][..5]; }
  }

  lemma PartsPrinted(track: byte, p: Packet, rest: seq<byte>)
    requires Printable(track, p) && p.Video1Packet?
    ensures var h, n := Print(track, p) + rest, p.stuffed + |p.buffer| + |p.stamps| + |p.payload| - p.missing;
      Mpeg1Parts(h, track, n, p.stuffed, p.buffer != [], p.stamps[0])
    ensures var h, skip := Print(track, p) + rest, 6 + p.stuffed + |p.buffer|;
      skip + |p.stamps| <= |h| && h[skip..skip + |p.stamps|] == p.stamps
  {
    hide *;
    MarkerOf(track, p);
    var n := p.stuffed + |p.buffer| + |p.stamps| + |p.payload| - p.missing;
    PrintedParts(track, p, rest);
    CodeFields(track, n);
    PartsJoined(track, n, StartCode(track, n), Stuffing(p.stuffed), p.buffer, p.stamps, p.payload + rest);
  }

  lemma PartsJoined(
    track: byte, n: nat, code: seq<byte>, stuffing: seq<byte>, buffer: seq<byte>, stamps: seq<byte>, tail: seq<byte>)
    requires |code| == 6 && code[0] == 0 && code[1] == 0 && code[2] == 1 && code[3] == track && Word(code, 4) == n
    requires |stuffing| <= 16 && forall i :: 0 <= i < |stuffing| ==> stuffing[i] == 0xff
    requires buffer == [] || (|buffer| == 2 && buffer[0] as int / 64 == 1)
    requires stamps != [] && |stamps| == 1 + Mpeg1Skip(stamps[0]) && stamps[0] < 64
    ensures var h := code + (stuffing + (buffer + (stamps + tail)));
      Mpeg1Parts(h, track, n, |stuffing|, buffer != [], stamps[0])
    ensures var h, skip := code + (stuffing + (buffer + (stamps + tail))), 6 + |stuffing| + |buffer|;
      skip + |stamps| <= |h| && h[skip..skip + |stamps|] == stamps
  {
    var h := code + (stuffing + (buffer + (stamps + tail)));
    Layout(code, stuffing, buffer, stamps, tail);
    assert h[0] == code[0] && h[1] == code[1] && h[2] == code[2];
    assert h[3] == code[3] && h[4] == code[4] && h[5] == code[5];
  }

  lemma PrintedParts(track: byte, p: Packet, rest: seq<byte>)
    requires Printable(track, p) && p.Video1Packet?
    ensures var n := p.stuffed + |p.buffer| + |p.stamps| + |p.payload| - p.missing;
      Print(track, p) + rest
      == StartCode(track, n) + (Stuffing(p.stuffed) + (p.buffer + (p.stamps + (p.payload + rest))))
  {
    hide StartCode, Stuffing;
  }

  lemma CodeFields(track: byte, n: nat)
    requires n < 0x1_0000
    ensures var h := StartCode(track, n); h[0] == 0 && h[1] == 0 && h[2] == 1 && h[3] == track && Word(h, 4) == n
  {
  }

  lemma MarkerOf(track: byte, p: Packet)
    requires Printable(track, p) && p.Video1Packet?
    ensures p.stamps[0] < 64 && |p.stamps| == 1 + Mpeg1Skip(p.stamps[0])
    ensures p.stamps[0] / 32 % 2 == 0 <==> |p.stamps| == 1
    ensures |Print(track, p)| == 6 + p.stuffed + |p.buffer| + |p.stamps| + |p.payload|
    ensures 0 <= p.stuffed + |p.buffer| + |p.stamps| + |p.payload| - p.missing < 0x1_0000
    ensures p.stuffed <= 16 && (p.buffer == [] || (|p.buffer| == 2 && p.buffer[0] as int / 64 == 1))
  {
  }

  lemma Layout(a: seq<byte>, b: seq<byte>, c: seq<byte>, d: seq<byte>, e: seq<byte>)
    ensures var h := a + (b + (c + (d + e)));
      && |h| == |a| + |b| + |c| + |d| + |e| && h[..|a|] == a
      && (forall i {:trigger h[i]} :: |a| <= i < |a| + |b| ==> h[i] == b[i - |a|])
      && (c != [] ==> h[|a| + |b|] == c[0])
      && (d != [] ==> h[|a| + |b| + |c|] == d[0])
      && h[|a| + |b| + |c|..|a| + |b| + |c| + |d|] == d
  {
  }

  lemma ScanPacket(track: byte, p: Packet, rest: seq<byte>)
    requires Printable(track, p) && VideoTrack(track)
    ensures Exactly(Scan(track, Print(track, p) + rest), |Print(track, p)|, UnitOf(track, p))
  {
    match p
    case Pack2(_, _, _) => ScanPacks(track, p, rest);
    case Pack1(_) => ScanPacks(track, p, rest);
    case VideoPacket(_, _, _, _, _, _, _) => ScanVideoPacket(track, p, rest);
    case Video1Packet(_, _, _, _, _) => ScanVideo1Packet(track, p, rest);
    case AudioPacket(id, payload) =>
      var h := Print(track, p) + rest;
      assert h[3] == id && h[4] == |payload| / 256 && h[5] == |payload| % 256;
    case OtherPacket(id, payload) =>
      var h := Print(track, p) + rest;
      assert h[3] == id && h[4] == |payload| / 256 && h[5] == |payload| % 256;
  }

  lemma {:induction false} RunLead(track: byte, lead: seq<byte>, s: seq<byte>)
    requires NoStart(lead) && |s| >= 4 && CodeAt(s, 0)
    ensures Run(track, lead + s, false) == Run(track, s, false).After(Junks(|lead|))
  {
    hide *;
    if lead == [] {
      assert lead + s == s && Junks(0) == [];
      AfterAfter(Run(track, s, false), [], []);
    } else {
      var t := lead[1..];
      GivesUp(track, lead, s);
      RunLead(track, t, s);
      assert (lead + s)[1..] == t + s;
      AfterAfter(Run(track, s, false), [Entry(Junk, 1)], Junks(|t|));
      MoreJunks(|t|);
    }
  }

  lemma MoreJunks(n: nat)
    ensures Junks(n + 1) == [Entry(Junk, 1)] + Junks(n)
  {
  }

  lemma GivesUp(track: byte, lead: seq<byte>, s: seq<byte>)
    requires NoStart(lead) && lead != [] && |s| >= 4 && CodeAt(s, 0)
    ensures NoStart(lead[1..])
    ensures Run(track, lead + s, false) == Run(track, (lead + s)[1..], false).After([Entry(Junk, 1)])
  {
    var t, h := lead[1..], lead + s;
    forall i: nat | i < |t| ensures !CodeAt(t + [0, 0, 1], i) {
      assert !CodeAt(lead + [0, 0, 1], i + 1);
    }
    assert !CodeAt(lead + [0, 0, 1], 0);
    assert forall i :: 0 <= i < 3 ==> h[i] == (lead + [0, 0, 1])[i];
    assert h[0] != 0 || h[1] != 0 || h[2] != 1;
    assert Scan(track, h) == Resync;
  }

  lemma RunEnding(track: byte, e: Ending)
    requires VideoTrack(track) && Possible(track, e)
    ensures Run(track, PrintEnding(e), false) == OutcomeOf(track, [], e)
  {
    var s := PrintEnding(e);
    match e
    case Nothing => assert Scan(track, s).Need?;
    case EndCode(_) => assert Scan(track, s) == Halt(1);
    case NoSystem(id, _) => assert Scan(track, s) == Halt(-1);
    case Weird(behind) =>
      assert s[4] == behind[0];
      assert Scan(track, s) == Halt(-1);
  }

  // One packet, and what follows.
  lemma RunPacket(track: byte, p: Packet, rest: seq<byte>)
    requires Printable(track, p) && VideoTrack(track)
    ensures Run(track, Print(track, p) + rest, false)
         == Run(track, rest, false).After([Entry(UnitOf(track, p), |Print(track, p)|)])
    ensures |Print(track, p)| >= 4 && CodeAt(Print(track, p) + rest, 0)
  {
    hide *;
    ScanPacket(track, p, rest);
    PrintStarts(track, p, rest);
    RunExactly(track, Print(track, p), rest, UnitOf(track, p));
  }

  lemma RunExactly(track: byte, first: seq<byte>, rest: seq<byte>, u: Unit)
    requires Exactly(Scan(track, first + rest), |first|, u)
    ensures Run(track, first + rest, false) == Run(track, rest, false).After([Entry(u, |first|)])
  {
    hide Scan;
    var s := first + rest;
    var v := Scan(track, s);
    assert s[v.header..][Max(v.body, 0)..] == s[|first|..] == rest;
  }

  lemma PrintStarts(track: byte, p: Packet, rest: seq<byte>)
    requires Printable(track, p)
    ensures |Print(track, p)| >= 4 && CodeAt(Print(track, p) + rest, 0)
  {
  }

  // The demuxer reads back what was printed: all packets, in order, time stamps included, with every byte in
  // front of them given up, and then the ending.
  lemma {:induction false} RunPrinted(track: byte, items: seq<Item>, e: Ending)
    requires VideoTrack(track) && Possible(track, e) && Writable(track, items)
    ensures Run(track, PrintAll(track, items, e), false) == OutcomeOf(track, items, e)
    ensures NoShortAudio(EntriesOf(track, items))
  {
    if items == [] {
      RunEnding(track, e);
      assert PrintAll(track, items, e) == PrintEnding(e) && EntriesOf(track, items) == [];
    } else {
      hide *;
      WritableFirst(track, items);
      var lead, p, rest := items[0].lead, items[0].packet, PrintAll(track, items[1..], e);
      RunPrinted(track, items[1..], e);
      RunPacket(track, p, rest);
      RunLead(track, lead, Print(track, p) + rest);
      FirstOutcome(track, items, e);
    }
  }

  lemma WritableFirst(track: byte, items: seq<Item>)
    requires Writable(track, items) && items != []
    ensures NoStart(items[0].lead) && Printable(track, items[0].packet) && Writable(track, items[1..])
  {
  }

  lemma FirstOutcome(track: byte, items: seq<Item>, e: Ending)
    requires Writable(track, items) && items != []
    requires NoShortAudio(EntriesOf(track, items[1..]))
    ensures var p, rest := items[0].packet, items[1..];
      && PrintAll(track, items, e) == items[0].lead + (Print(track, p) + PrintAll(track, rest, e))
      && OutcomeOf(track, items, e) == OutcomeOf(track, rest, e)
          .After([Entry(UnitOf(track, p), |Print(track, p)|)]).After(Junks(|items[0].lead|))
    ensures NoShortAudio(EntriesOf(track, items))
  {
    var p, rest := items[0].packet, items[1..];
    assert UnitOf(track, p).Audio? ==> UnitOf(track, p).length >= 3;
    hide Print, Printable, NoStart, UnitOf;
    FewJunks(|items[0].lead|, Entry(UnitOf(track, p), |Print(track, p)|), EntriesOf(track, rest));
  }

  lemma FewJunks(n: nat, e: Entry, log: seq<Entry>)
    requires NoShortAudio(log) && (e.unit.Audio? ==> e.unit.length >= 3)
    ensures NoShortAudio(Junks(n) + ([e] + log))
  {
  }

  // However the printed stream is cut into calls, the same packets come back.
  lemma PrintedRoundTrip(track: byte, items: seq<Item>, e: Ending, chunks: seq<seq<byte>>)
    requires VideoTrack(track) && Possible(track, e) && Writable(track, items)
    requires chunks != [] && Flatten(chunks) == PrintAll(track, items, e)
    ensures FeedAll(track, Skip(0), chunks) == OutcomeOf(track, items, e)
  {
    hide Scan, Run;
    RunPrinted(track, items, e);
    assert PrintAll(track, items, e)[0..] == PrintAll(track, items, e);
    FeedAllIsFeed(track, Skip(0), chunks);
  }

  // A packet that is cut in its payload: a video packet goes on as data, any other one is skipped.
  lemma CutInPayload(track: byte, p: Packet, m: nat)
    requires Printable(track, p) && VideoTrack(track)
    requires m < |Print(track, p)| && !Scan(track, Print(track, p)[..m]).Need?
    ensures Run(track, Print(track, p)[..m], false)
         == More([Entry(UnitOf(track, p), |Print(track, p)|)],
                 if UnitOf(track, p).Video? then Data(|Print(track, p)| - m) else Skip(|Print(track, p)| - m))
  {
    hide *;
    ScanPacket(track, p, []);
    var s := Print(track, p);
    assert s + [] == s && s[..m] + s[m..] == s;
    ScanExtend(track, s[..m], s[m..]);
    RunUnfinished(track, s[..m], |s|, UnitOf(track, p));
  }

  lemma RunUnfinished(track: byte, w: seq<byte>, n: nat, u: Unit)
    requires Exactly(Scan(track, w), n, u) && |w| < n
    ensures Run(track, w, false)
         == More([Entry(u, n)], if u.Video? then Data(n - |w|) else Skip(n - |w|))
  {
    hide Scan;
  }
}
