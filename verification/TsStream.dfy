/** Taking the payload of one program out of a transport stream, in place. The packet layout is that
    of ISO/IEC 13818-1, sections 2.4.3.2 (transport packet) and 2.4.3.4 (adaptation field). */
module TsStream {
  import opened Bytes

  const TS_SIZE: nat := 188
  const SYNC: byte := 0x47

  // The transport packets of a stream. A byte that should start one but is not the sync byte is skipped.
  function Split(s: seq<byte>): seq<seq<byte>> {
    if |s| < TS_SIZE then []
    else if s[0] != SYNC then Split(s[1..])
    else [s[..TS_SIZE]] + Split(s[TS_SIZE..])
  }

  function Pid(p: seq<byte>): nat
    requires |p| == TS_SIZE
  {
    p[1] as int % 32 * 256 + p[2] as int
  }

  predicate UnitStart(p: seq<byte>)
    requires |p| == TS_SIZE
  {
    p[1] as int / 64 % 2 == 1
  }

  // Where the payload starts: behind the header, and behind the adaptation field if there is one.
  function DataStart(p: seq<byte>): nat
    requires |p| == TS_SIZE
  {
    if p[3] as int / 32 % 2 == 1 then 5 + p[4] as int else 4
  }

  predicate Carries(p: seq<byte>, pid: nat) {
    |p| == TS_SIZE && Pid(p) == pid && DataStart(p) <= TS_SIZE && p[3] as int / 16 % 2 == 1
  }

  function Content(p: seq<byte>): seq<byte>
    requires |p| == TS_SIZE && DataStart(p) <= TS_SIZE
  {
    p[DataStart(p)..]
  }

  // A packet whose payload is taken. After a reset only one that starts a unit will do.
  predicate Taken(p: seq<byte>, pid: nat, reset: bool) {
    Carries(p, pid) && (reset ==> UnitStart(p))
  }

  // By the bits of the header: the packet is of the program, has a payload and an adaptation field that fits,
  // and starts a unit if that is asked for.
  lemma TakenIff(p: seq<byte>, pid: nat, reset: bool)
    requires |p| == 188
    ensures Taken(p, pid, reset) <==>
      && p[1] as int % 32 * 256 + p[2] as int == pid
      && p[3] as int / 16 % 2 == 1
      && (p[3] as int / 32 % 2 == 1 ==> 5 + p[4] as int <= 188)
      && (reset ==> p[1] as int / 64 % 2 == 1)
  {
  }

  // So no byte of another program is taken.
  lemma {:induction false} OnlyThisProgram(ps: seq<seq<byte>>, pid: nat, reset: bool)
    requires forall i :: 0 <= i < |ps| ==> |ps[i]| == 188 && ps[i][1] as int % 32 * 256 + ps[i][2] as int != pid
    ensures Extract(ps, pid, reset) == []
  {
    if ps != [] {
      TakenIff(ps[0], pid, reset);
      OnlyThisProgram(ps[1..], pid, reset);
    }
  }

  // The payloads taken from a run of packets.
  function Extract(ps: seq<seq<byte>>, pid: nat, reset: bool): seq<byte> {
    if ps == [] then []
    else if Taken(ps[0], pid, reset) then Content(ps[0]) + Extract(ps[1..], pid, false)
    else Extract(ps[1..], pid, reset)
  }

  // The first packet of a run that is taken, or the length of the run.
  function FirstTaken(ps: seq<seq<byte>>, pid: nat, reset: bool): (k: nat)
    ensures k <= |ps| && (k < |ps| ==> Taken(ps[k], pid, reset))
    ensures forall i :: 0 <= i < k ==> !Taken(ps[i], pid, reset)
  {
    if ps == [] || Taken(ps[0], pid, reset) then 0 else 1 + FirstTaken(ps[1..], pid, reset)
  }

  method Memmove(buf: array<byte>, dst: nat, src: nat, n: nat)
    requires dst + n <= buf.Length && src + n <= buf.Length
    modifies buf
    ensures buf[..dst + n] == old(buf[..dst]) + old(buf[src..src + n])
    ensures buf[dst + n..] == old(buf[dst + n..])
  {
    forall i | 0 <= i < n { buf[dst + i] := buf[src + i]; }
  }

  // Whether the packet at pos is taken, and where its payload starts.
  method Inspect(buf: array<byte>, pos: nat, pid: nat, reset: bool, ghost p: seq<byte>) returns (taken: bool, data: nat)
    requires pos + TS_SIZE <= buf.Length && p == buf[pos..pos + TS_SIZE]
    ensures taken <==> Taken(p, pid, reset)
    ensures taken ==> pos + 4 <= data <= pos + TS_SIZE && Content(p) == buf[data..pos + TS_SIZE]
  {
    data := pos + 4;
    if buf[pos + 1] as int % 32 * 256 + buf[pos + 2] as int != pid { return false, data; }
    if buf[pos + 3] as int / 32 % 2 == 1 {
      data := pos + 5 + buf[pos + 4] as int;
      if data > pos + TS_SIZE { return false, data; }
    }
    taken := buf[pos + 3] as int / 16 % 2 == 1;
    if reset {
      taken := taken && buf[pos + 1] as int / 64 % 2 == 1;
    }
  }

  // One packet put in front of a run of packets.
  lemma ExtractCons(p: seq<byte>, ps: seq<seq<byte>>, pid: nat, reset: bool, before: seq<byte>)
    ensures before + Extract([p] + ps, pid, reset) ==
      if Taken(p, pid, reset) then (before + Content(p)) + Extract(ps, pid, false) else before + Extract(ps, pid, reset)
  {
    assert ([p] + ps)[1..] == ps;
    if Taken(p, pid, reset) {
      assert before + (Content(p) + Extract(ps, pid, false)) == (before + Content(p)) + Extract(ps, pid, false);
    }
  }

  // From k on, the buffer still holds what it held in the beginning.
  ghost predicate Untouched(buf: array<byte>, s: seq<byte>, k: nat)
    reads buf
  {
    buf.Length == |s| && forall i :: k <= i < |s| ==> buf[i] == s[i]
  }

  // Moves the payload of the packet at pos, if it is taken, behind what has been collected.
  method Collect(buf: array<byte>, pos: nat, dest: nat, pid: nat, reset: bool, ghost s: seq<byte>)
    returns (dest': nat, taken: bool)
    requires dest <= pos && pos + TS_SIZE <= buf.Length && Untouched(buf, s, dest)
    modifies buf
    ensures dest <= dest' <= pos + TS_SIZE && Untouched(buf, s, dest')
    ensures taken <==> Taken(Slice(s, pos), pid, reset)
    ensures buf[..dest'] == if taken then old(buf[..dest]) + Content(Slice(s, pos)) else old(buf[..dest])
    ensures dest' < dest + TS_SIZE
  {
    ghost var p := s[pos..pos + TS_SIZE];
    var next, data := pos + TS_SIZE, 0;
    assert p == buf[pos..next];
    taken, data := Inspect(buf, pos, pid, reset, p);
    dest' := dest;
    if taken {
      Memmove(buf, dest, data, next - data);
      dest' := dest + (next - data);
      assert forall i :: dest' <= i < |s| ==> buf[i] == buf[dest'..][i - dest'];
    }
  }

  // The payloads of all packets, moved together to the start of the buffer. Nothing behind the result
  // is written, so no packet is overwritten before it has been read.
  method Ts2Pes(buf: array<byte>, end: nat, pid: nat, reset: bool) returns (size: nat)
    requires end <= buf.Length
    modifies buf
    ensures size <= end && buf[..size] == Extract(Split(old(buf[..end])), pid, reset)
    ensures buf[size..] == old(buf[size..])
  {
    hide *;
    ghost var s, goal := buf[..], Extract(Split(buf[..end]), pid, reset);
    var pos, gate := 0, reset;
    size := 0;
    Start(buf, s);
    JoinedStart(s, end, pid, gate);
    assert s[..end] == buf[..end] && buf[..0] == [];
    while pos + TS_SIZE <= end
      invariant size <= pos <= end && Untouched(buf, s, size)
      invariant Joined(s, pos, end, pid, gate, buf[..size]) == goal
      decreases end - pos
    {
      JoinedStep(s, pos, end, pid, gate, buf[..size]);
      Looks(buf, s, size, pos);
      if buf[pos] != SYNC {
        pos := pos + 1;
      } else {
        var taken;
        size, taken := Collect(buf, pos, size, pid, gate, s);
        if taken { gate := false; }
        pos := pos + TS_SIZE;
      }
    }
    JoinedStep(s, pos, end, pid, gate, buf[..size]);
    Looks(buf, s, size, size);
  }

  // What has been collected, followed by what the rest of the buffer will yield.
  function Joined(s: seq<byte>, pos: nat, end: nat, pid: nat, reset: bool, collected: seq<byte>): seq<byte>
    requires pos <= end <= |s|
  {
    collected + Extract(Tail(s, pos, end), pid, reset)
  }

  lemma JoinedStart(s: seq<byte>, end: nat, pid: nat, reset: bool)
    requires end <= |s|
    ensures Joined(s, 0, end, pid, reset, []) == Extract(Split(s[..end]), pid, reset)
  {
    hide Extract, Split;
    TailStart(s, end);
  }

  lemma JoinedStep(s: seq<byte>, pos: nat, end: nat, pid: nat, reset: bool, done: seq<byte>)
    requires pos <= end <= |s|
    ensures if pos + TS_SIZE <= end then pos < end else Joined(s, pos, end, pid, reset, done) == done
    ensures pos + TS_SIZE <= end && s[pos] != SYNC ==>
              Joined(s, pos, end, pid, reset, done) == Joined(s, pos + 1, end, pid, reset, done)
    ensures pos + TS_SIZE <= end && s[pos] == SYNC && Taken(Slice(s, pos), pid, reset) ==>
              Joined(s, pos, end, pid, reset, done)
              == Joined(s, pos + TS_SIZE, end, pid, false, done + Content(Slice(s, pos)))
    ensures pos + TS_SIZE <= end && s[pos] == SYNC && !Taken(Slice(s, pos), pid, reset) ==>
              Joined(s, pos, end, pid, reset, done) == Joined(s, pos + TS_SIZE, end, pid, reset, done)
  {
    hide Extract, Taken, Content, Tail, Slice;
    TailStep(s, pos, end);
    ExtractNone(pid, reset);
    if pos + TS_SIZE <= end {
      ExtractCons(Slice(s, pos), Tail(s, pos + TS_SIZE, end), pid, reset, done);
    }
  }

  // The packets between two positions of a buffer, and the packet at one position.
  function Tail(s: seq<byte>, pos: nat, end: nat): seq<seq<byte>>
    requires pos <= end <= |s|
  {
    Split(s[pos..end])
  }

  function Slice(s: seq<byte>, pos: nat): seq<byte>
    requires pos + TS_SIZE <= |s|
  {
    s[pos..pos + TS_SIZE]
  }

  lemma TailStart(s: seq<byte>, end: nat)
    requires end <= |s|
    ensures Tail(s, 0, end) == Split(s[..end])
  {
    assert s[0..end] == s[..end];
  }

  lemma TailStep(s: seq<byte>, pos: nat, end: nat)
    requires pos <= end <= |s|
    ensures if pos + TS_SIZE <= end then pos < end else Tail(s, pos, end) == []
    ensures pos + TS_SIZE <= end && s[pos] != SYNC ==> Tail(s, pos, end) == Tail(s, pos + 1, end)
    ensures pos + TS_SIZE <= end && s[pos] == SYNC ==>
              Tail(s, pos, end) == [Slice(s, pos)] + Tail(s, pos + TS_SIZE, end)
  {
    SplitStep(s, pos, end);
  }

  lemma Start(buf: array<byte>, s: seq<byte>)
    requires s == buf[..]
    ensures Untouched(buf, s, 0)
  {
  }

  lemma Looks(buf: array<byte>, s: seq<byte>, k: nat, i: nat)
    requires Untouched(buf, s, k) && k <= i <= |s|
    ensures buf.Length == |s| && buf[i..] == s[i..] && (i < |s| ==> buf[i] == s[i])
  {
  }

  lemma SplitStep(s: seq<byte>, pos: nat, end: nat)
    requires pos <= end <= |s|
    ensures if pos + TS_SIZE <= end then pos < end else Split(s[pos..end]) == []
    ensures pos + TS_SIZE <= end && s[pos] != SYNC ==> Split(s[pos..end]) == Split(s[pos + 1..end])
    ensures pos + TS_SIZE <= end && s[pos] == SYNC ==>
              Split(s[pos..end]) == [s[pos..pos + TS_SIZE]] + Split(s[pos + TS_SIZE..end])
  {
    if pos + TS_SIZE <= end {
      assert s[pos..end][1..] == s[pos + 1..end] && s[pos..end][..TS_SIZE] == s[pos..pos + TS_SIZE];
      assert s[pos..end][TS_SIZE..] == s[pos + TS_SIZE..end];
    }
  }

  lemma ExtractNone(pid: nat, reset: bool)
    ensures Extract([], pid, reset) == []
  {
  }

  // The packet to be read after packetNum packets of an aligned buffer.
  function From(s: seq<byte>, packetNum: nat): seq<byte> {
    if packetNum * TS_SIZE <= |s| then s[packetNum * TS_SIZE..] else []
  }

  // From `from` on, a sync byte follows after every TS_SIZE bytes.
  ghost predicate SyncedFrom(s: seq<byte>, from: nat) {
    forall n: nat {:trigger Slot(from, n)} :: Slot(from, n) < |s| ==> s[Slot(from, n)] == SYNC
  }

  function Slot(from: nat, n: nat): nat { from + n * TS_SIZE }

  lemma SyncedAt(s: seq<byte>, from: nat, n: nat)
    requires SyncedFrom(s, from)
    ensures from + n * TS_SIZE < |s| ==> s[from + n * TS_SIZE] == SYNC
    ensures SyncedFrom(s, from + n * TS_SIZE)
  {
    assert Slot(from, n) == from + n * TS_SIZE;
    forall m: nat {:trigger Slot(from + n * TS_SIZE, m)} | Slot(from + n * TS_SIZE, m) < |s|
      ensures s[Slot(from + n * TS_SIZE, m)] == SYNC
    {
      assert Slot(from + n * TS_SIZE, m) == Slot(from, n + m);
    }
  }

  // Every packet of the buffer starts where a whole number of packets ends.
  ghost predicate Aligned(s: seq<byte>) { SyncedFrom(s, 0) }

  // The unit start flag that is reported for a packet found at position `at` of the buffer. Except
  // after a reset it is read when the payload has already been moved to the start of the buffer.
  predicate SeenStart(p: seq<byte>, at: nat, reset: bool)
    requires |p| == TS_SIZE && DataStart(p) <= TS_SIZE
  {
    reset || (if at + 1 < |Content(p)| then Content(p)[at + 1] else p[1]) as int / 64 % 2 == 1
  }

  // Looks for the next packet that is taken, from position `from` on. `n` packets have been seen.
  method Search(buf: array<byte>, from: nat, end: nat, pid: nat, reset: bool)
    returns (found: bool, n: nat, at: nat, data: nat)
    requires from <= end <= buf.Length
    ensures var ps := Split(buf[..end][from..]);
      var k := FirstTaken(ps, pid, reset);
      && (found <==> k < |ps|) && n == k + (if found then 1 else 0)
      && (found ==> from <= at && at + TS_SIZE <= end && buf[..end][at..at + TS_SIZE] == ps[k])
      && (found ==> at + 4 <= data <= at + TS_SIZE && Content(ps[k]) == buf[data..at + TS_SIZE])
      && (found && SyncedFrom(buf[..end], from) ==> at == from + k * TS_SIZE)
  {
    hide Content, Split, FirstTaken, Taken, SyncedFrom;
    ghost var s := buf[..end];
    ghost var ps := Split(s[from..]);
    n, found, at, data := 0, false, from, 0;
    while at + TS_SIZE <= end
      invariant n <= |ps| && from <= at <= end && ps[n..] == Split(s[at..])
      invariant forall i :: 0 <= i < n ==> !Taken(ps[i], pid, reset)
      invariant SyncedFrom(s, from) ==> at == from + n * TS_SIZE
      decreases end - at
    {
      NextSlot(ps, n, s, at);
      if SyncedFrom(s, from) { SyncedAt(s, from, n); }
      if buf[at] != SYNC {
        at := at + 1;
      } else {
        n := n + 1;
        found, data := Inspect(buf, at, pid, reset, s[at..at + TS_SIZE]);
        if found {
          FirstTakenIs(ps, n - 1, pid, reset);
          return;
        }
        at := at + TS_SIZE;
      }
    }
    NextSlot(ps, n, s, at);
    FirstTakenIs(ps, n, pid, reset);
  }

  // Packet n of a run, where the run goes on at position `at` of the buffer.
  lemma NextSlot(ps: seq<seq<byte>>, n: nat, s: seq<byte>, at: nat)
    requires n <= |ps| && at <= |s| && ps[n..] == Split(s[at..])
    ensures at + TS_SIZE > |s| ==> n == |ps|
    ensures at + TS_SIZE <= |s| && s[at] != SYNC ==> ps[n..] == Split(s[at + 1..])
    ensures at + TS_SIZE <= |s| && s[at] == SYNC ==>
              n < |ps| && ps[n] == s[at..at + TS_SIZE] && ps[n + 1..] == Split(s[at + TS_SIZE..])
  {
    assert s[at..] == s[at..|s|];
    SplitStep(s, at, |s|);
    if at + TS_SIZE <= |s| {
      assert s[at + 1..] == s[at + 1..|s|] && s[at + TS_SIZE..] == s[at + TS_SIZE..|s|];
      if s[at] == SYNC {
        assert ps[n] == ps[n..][0] && ps[n + 1..] == ps[n..][1..];
      }
    }
  }

  lemma {:induction false} FirstTakenIs(ps: seq<seq<byte>>, n: nat, pid: nat, reset: bool)
    requires n <= |ps| && (n < |ps| ==> Taken(ps[n], pid, reset))
    requires forall i :: 0 <= i < n ==> !Taken(ps[i], pid, reset)
    ensures FirstTaken(ps, pid, reset) == n
  {
    if n > 0 { FirstTakenIs(ps[1..], n - 1, pid, reset); }
  }

  // The payload of the next packet that is taken, moved to the start of the buffer. `packetNum` counts
  // the packets seen, `at` is where the packet was found.
  method GetTsPacket(buf: array<byte>, end: nat, pid: nat, packetNum: nat, reset: bool)
    returns (size: nat, packetNum': nat, start: bool, ghost at: nat)
    requires end <= buf.Length
    modifies buf
    ensures size < TS_SIZE && size <= end && Untouched(buf, old(buf[..]), size)
    ensures var ps := Split(From(old(buf[..end]), packetNum));
      var k := FirstTaken(ps, pid, reset);
      if k < |ps| then
        && packetNum' == packetNum + k + 1 && buf[..size] == Content(ps[k])
        && at + TS_SIZE <= end && old(buf[..end])[at..at + TS_SIZE] == ps[k] && (start <==> SeenStart(ps[k], at, reset))
        && (Aligned(old(buf[..end])) ==> at == (packetNum + k) * TS_SIZE)
      else
        packetNum' == packetNum + k && size == 0 && !start
  {
    hide Split, FirstTaken, SyncedFrom, Taken, DataStart, Untouched, Content, SeenStart;
    ghost var s := buf[..end];
    size, packetNum', start, at := 0, packetNum, false, packetNum * TS_SIZE;
    Start(buf, buf[..]);
    if packetNum * TS_SIZE <= end {
      if Aligned(s) { SyncedAt(s, 0, packetNum); }
      var found, n, pos, data := Search(buf, packetNum * TS_SIZE, end, pid, reset);
      packetNum', at := packetNum + n, pos;
      if found {
        size, start := Deliver(buf, pos, data, pid, reset, s[pos..pos + TS_SIZE]);
      }
    } else {
      SplitNone();
      FirstTakenIs([], 0, pid, reset);
    }
  }

  // Moves the payload of a packet to the start of the buffer, and then looks at its unit start flag.
  method Deliver(buf: array<byte>, pos: nat, data: nat, pid: nat, reset: bool, ghost p: seq<byte>)
    returns (size: nat, start: bool)
    requires pos + TS_SIZE <= buf.Length && p == buf[pos..pos + TS_SIZE] && Taken(p, pid, reset)
    requires pos + 4 <= data <= pos + TS_SIZE && Content(p) == buf[data..pos + TS_SIZE]
    modifies buf
    ensures size < TS_SIZE && size <= pos + TS_SIZE && buf[..size] == Content(p)
    ensures Untouched(buf, old(buf[..]), size) && (start <==> SeenStart(p, pos, reset))
  {
    ghost var s := buf[..];
    size := pos + TS_SIZE - data;
    Memmove(buf, 0, data, size);
    MovedByte(buf, s, size);
    start := reset || buf[pos + 1] as int / 64 % 2 == 1;
  }

  lemma MovedByte(buf: array<byte>, s: seq<byte>, size: nat)
    requires size <= buf.Length == |s| && buf[size..] == s[size..]
    ensures Untouched(buf, s, size) && forall i :: 0 <= i < size ==> buf[i] == buf[..size][i]
  {
    assert forall i :: size <= i < |s| ==> buf[i] == buf[size..][i - size];
  }

  lemma SplitNone()
    ensures Split([]) == []
  {
  }

  function Slots(s: seq<byte>): nat { |s| / TS_SIZE }

  lemma SlotSplit(s: seq<byte>, n: nat)
    requires Aligned(s) && n <= Slots(s)
    ensures if n == Slots(s) then Split(From(s, n)) == []
            else Split(From(s, n)) == [Slice(s, n * TS_SIZE)] + Split(From(s, n + 1))
  {
    hide Split, SyncedFrom;
    assert n * TS_SIZE <= |s|;
    assert From(s, n) == s[n * TS_SIZE..|s|];
    SplitStep(s, n * TS_SIZE, |s|);
    SyncedAt(s, 0, n);
    if n < Slots(s) { assert From(s, n + 1) == s[n * TS_SIZE + TS_SIZE..|s|]; }
  }

  // In an aligned buffer the k-th packet from the n-th slot on is the one in slot n + k.
  lemma {:induction false} SlotsAligned(s: seq<byte>, n: nat, k: nat)
    requires Aligned(s) && n + k <= Slots(s)
    ensures |Split(From(s, n))| == Slots(s) - n && Split(From(s, n))[k..] == Split(From(s, n + k))
    decreases Slots(s) - n
  {
    hide *;
    SlotSplit(s, n);
    if n < Slots(s) {
      SlotsAligned(s, n + 1, if k == 0 then 0 else k - 1);
    }
  }

  lemma {:induction false} ExtractFirst(ps: seq<seq<byte>>, pid: nat, reset: bool)
    ensures var k := FirstTaken(ps, pid, reset);
      Extract(ps, pid, reset) == if k < |ps| then Content(ps[k]) + Extract(ps[k + 1..], pid, false) else []
  {
    if ps != [] && !Taken(ps[0], pid, reset) {
      ExtractFirst(ps[1..], pid, reset);
      var k := FirstTaken(ps[1..], pid, reset);
      if k < |ps[1..]| { assert ps[1..][k + 1..] == ps[k + 2..]; }
    }
  }

  // One call's share of the payloads of an aligned buffer.
  lemma OneCall(s: seq<byte>, n: nat, pid: nat, before: seq<byte>)
    requires Aligned(s) && n < Slots(s)
    ensures var ps := Split(From(s, n));
      var k := FirstTaken(ps, pid, false);
      var n' := n + k + if k < |ps| then 1 else 0;
      && n < n' <= Slots(s)
      && before + Extract(ps, pid, false)
         == (before + if k < |ps| then Content(ps[k]) else []) + Extract(Split(From(s, n')), pid, false)
  {
    hide *;
    var ps := Split(From(s, n));
    var k := FirstTaken(ps, pid, false);
    SlotsAligned(s, n, 0);
    SlotsAligned(s, n, if k < |ps| then k + 1 else k);
    ExtractFirst(ps, pid, false);
    ExtractNone(pid, false);
  }

  lemma SameFrom(a: seq<byte>, b: seq<byte>, n: nat)
    requires |a| == |b| && forall i :: n * TS_SIZE <= i < |a| ==> a[i] == b[i]
    ensures From(a, n) == From(b, n)
  {
  }

  // Packet after packet, until all have been seen. Although every call overwrites the start of the
  // buffer, an aligned buffer yields what Ts2Pes collects in one go.
  method DeliverAll(buf: array<byte>, end: nat, pid: nat) returns (delivered: seq<byte>)
    requires end <= buf.Length && Aligned(buf[..end])
    modifies buf
    ensures delivered == Extract(Split(old(buf[..end])), pid, false)
  {
    hide Split, Extract, FirstTaken, Aligned, Taken, Content, SeenStart, From;
    ghost var s := buf[..end];
    var packetNum := 0;
    delivered := [];
    assert From(s, 0) == s by { FromStart(s); }
    while packetNum < end / TS_SIZE
      invariant packetNum <= end / TS_SIZE
      invariant forall i :: packetNum * TS_SIZE <= i < end ==> buf[i] == s[i]
      invariant delivered + Extract(Split(From(s, packetNum)), pid, false) == Extract(Split(s), pid, false)
      decreases end / TS_SIZE - packetNum
    {
      SameFrom(buf[..end], s, packetNum);
      OneCall(s, packetNum, pid, delivered);
      var size, next, start, at := GetTsPacket(buf, end, pid, packetNum, false);
      delivered := delivered + buf[..size];
      packetNum := next;
    }
    SlotsAligned(s, packetNum, 0);
    ExtractNone(pid, false);
  }

  lemma FromStart(s: seq<byte>)
    ensures From(s, 0) == s
  {
  }

  // In an aligned buffer the reported unit start flag of a packet is the packet's own, but for the very
  // first slot, where it is a bit of the payload.
  lemma StartFlagIff(p: seq<byte>, pid: nat, slot: nat)
    requires Carries(p, pid)
    ensures (SeenStart(p, slot * TS_SIZE, false) <==> p[1] as int / 64 % 2 == 1)
       <==> slot > 0 || |Content(p)| < 2 || (Content(p)[1] as int / 64 % 2 == 1 <==> p[1] as int / 64 % 2 == 1)
    ensures SeenStart(p, slot * TS_SIZE, true)
  {
    assert slot > 0 ==> slot * TS_SIZE >= TS_SIZE;
  }

  // So the start of a PES packet is not reported as one when it lies in the first slot.
  lemma FirstStartLost(p: seq<byte>, pid: nat)
    requires Carries(p, pid) && p[1] as int / 64 % 2 == 1 && |Content(p)| >= 3 && Content(p)[..3] == [0, 0, 1]
    ensures !SeenStart(p, 0, false)
  {
    assert Content(p)[1] == Content(p)[..3][1];
  }
}

/** Writing a transport stream, and taking the program out of it again. */
module TsMux {
  import opened Bytes
  import opened TsStream

  // What a transport stream is put together from: payloads of the program, padded with an adaptation field
  // where they do not fill a packet; packets of other programs, without payload or with an adaptation field
  // that is too long; and single bytes between packets.
  datatype Item =
    | Ours(start: bool, error: bool, priority: bool, scrambling: nat, counter: nat, payload: seq<byte>, fill: seq<byte>)
    | Foreign(packet: seq<byte>)
    | Noise(b: byte)

  predicate Muxable(item: Item, pid: nat) {
    match item
    case Ours(_, _, _, scrambling, counter, payload, fill) =>
      scrambling < 4 && counter < 16 && ((|payload| == 184 && fill == []) || |payload| + |fill| == 183)
    case Foreign(packet) =>
      && |packet| == 188 && packet[0] == 0x47
      && (packet[1] as int % 32 * 256 + packet[2] as int != pid || packet[3] as int / 16 % 2 == 0
          || (packet[3] as int / 32 % 2 == 1 && 5 + packet[4] as int > 188))
    case Noise(b) => b != 0x47
  }

  // The error, unit start and priority bits.
  function Flags(item: Item): nat
    requires item.Ours?
  {
    (if item.error then 0x80 else 0) + (if item.start then 0x40 else 0) + if item.priority then 0x20 else 0
  }

  function MuxOne(item: Item, pid: nat): seq<byte>
    requires pid < 0x2000 && Muxable(item, pid)
  {
    match item
    case Ours(_, _, _, scrambling, counter, payload, fill) =>
      [0x47, Flags(item) + pid / 256, pid % 256]
      + (if |payload| == 184 then [64 * scrambling + 0x10 + counter]
         else [64 * scrambling + 0x30 + counter, |fill|] + fill)
      + payload
    case Foreign(packet) => packet
    case Noise(b) => [b]
  }

  function Mux(items: seq<Item>, pid: nat): seq<byte>
    requires pid < 0x2000 && forall i | i in items :: Muxable(i, pid)
  {
    if items == [] then [] else MuxOne(items[0], pid) + Mux(items[1..], pid)
  }

  // The payloads that were put in, from the first unit start on if there was a reset.
  function Payloads(items: seq<Item>, reset: bool): seq<byte> {
    if items == [] then []
    else if items[0].Ours? && (reset ==> items[0].start) then items[0].payload + Payloads(items[1..], false)
    else Payloads(items[1..], reset)
  }

  lemma OursTaken(item: Item, pid: nat)
    requires pid < 0x2000 && Muxable(item, pid) && item.Ours?
    ensures var p := MuxOne(item, pid);
      |p| == TS_SIZE && p[0] == SYNC && Carries(p, pid) && (UnitStart(p) <==> item.start) && Content(p) == item.payload
  {
    var p := MuxOne(item, pid);
    assert p[1] == Flags(item) + pid / 256 && p[2] == pid % 256;
    assert p[3] == 64 * item.scrambling + (if |item.payload| == 184 then 0x10 else 0x30) + item.counter;
    if |item.payload| != 184 { assert p[4] == |item.fill|; }
  }

  // Whatever else the stream carries, exactly the payloads of the program come out, in order.
  lemma {:induction false} MuxRoundTrip(items: seq<Item>, pid: nat, reset: bool)
    requires pid < 0x2000 && forall i | i in items :: Muxable(i, pid)
    ensures Extract(Split(Mux(items, pid)), pid, reset) == Payloads(items, reset)
  {
    if items != [] {
      assert items[0] in items;
      if items[0].Foreign? { TakenIff(items[0].packet, pid, false); }
      hide Carries, Content;
      var first, rest := MuxOne(items[0], pid), Mux(items[1..], pid);
      var s := first + rest;
      var reset' := reset && !(items[0].Ours? && items[0].start);
      MuxRoundTrip(items[1..], pid, reset');
      if items[0].Ours? { OursTaken(items[0], pid); }
      SplitFirst(first, rest);
      ExtractCons(first, Split(rest), pid, reset, []);
    }
  }

  lemma SplitFirst(first: seq<byte>, rest: seq<byte>)
    requires (|first| == TS_SIZE && first[0] == SYNC) || (|first| == 1 && first[0] != SYNC)
    ensures Split(first + rest) == if |first| == 1 then Split(rest) else [first] + Split(rest)
  {
    var s := first + rest;
    assert s[|first|..] == rest && s[..|first|] == first;
  }
}
