/** The two forms of an index entry and how one is turned into the other in the same eight bytes. */
module IndexEntry {
  // Eight bytes of an index, the first one the least significant.
  type Word64 = w: int | 0 <= w < 0x1_0000_0000_0000_0000

  const OFFSET_END := 0x100_0000_0000
  const PES_OFFSET_END := 0x1_0000_0000

  datatype Ts = Ts(offset: nat, reserved: nat, independent: bool, number: nat) {
    predicate Fits() { offset < OFFSET_END && reserved < 128 && number < 65536 }
  }

  datatype Pes = Pes(offset: nat, kind: nat, number: nat, reserved: nat) {
    predicate Fits() { offset < PES_OFFSET_END && kind < 256 && number < 256 && reserved < 65536 }
  }

  function TsBits(t: Ts): Word64
    requires t.Fits()
  {
    t.offset + OFFSET_END * (t.reserved + 128 * ((if t.independent then 1 else 0) + 2 * t.number))
  }

  function TsOf(w: Word64): (t: Ts)
    ensures t.Fits()
  {
    var q := w / OFFSET_END;
    var r := q / 128;
    Ts(w % OFFSET_END, q % 128, r % 2 == 1, r / 2)
  }

  function PesBits(p: Pes): Word64
    requires p.Fits()
  {
    p.offset + PES_OFFSET_END * (p.kind + 256 * (p.number + 256 * p.reserved))
  }

  function PesOf(w: Word64): (p: Pes)
    ensures p.Fits()
  {
    var q := w / PES_OFFSET_END;
    var r := q / 256;
    Pes(w % PES_OFFSET_END, q % 256, r % 256, r / 256)
  }

  lemma TsBack(t: Ts)
    requires t.Fits()
    ensures TsOf(TsBits(t)) == t
  {
    var r := (if t.independent then 1 else 0) + 2 * t.number;
    var q := t.reserved + 128 * r;
    assert TsBits(t) / OFFSET_END == q && TsBits(t) % OFFSET_END == t.offset;
    assert q / 128 == r && q % 128 == t.reserved;
  }

  lemma PesBack(p: Pes)
    requires p.Fits()
    ensures PesOf(PesBits(p)) == p
  {
    var r := p.number + 256 * p.reserved;
    var q := p.kind + 256 * r;
    assert PesBits(p) / PES_OFFSET_END == q && PesBits(p) % PES_OFFSET_END == p.offset;
    assert q / 256 == r && q % 256 == p.kind;
  }

  // What the entry of an old recording says, in the form of a new one. The reserved bits
  // keep what they can of the frame type.
  function FromPes(w: Word64): Word64 {
    var p := PesOf(w);
    TsBits(Ts(p.offset, p.kind % 128, p.kind == 1, p.number))
  }

  function ToPes(w: Word64): Word64 {
    var t := TsOf(w);
    PesBits(Pes(t.offset % PES_OFFSET_END, if t.independent then 1 else 2, t.number % 256, 0))
  }

  // Where the parts of an entry lie in its 64 bits: 40 bits of offset, 7 reserved ones, one that marks an
  // independent frame, and 16 bits of file number.
  lemma TsLayout(w: Word64)
    ensures var t := TsOf(w);
      && t.offset == w % 0x100_0000_0000
      && t.reserved == w / 0x100_0000_0000 % 128
      && (t.independent <==> w / 0x8000_0000_0000 % 2 == 1)
      && t.number == w / 0x1_0000_0000_0000
  {
    var q := w / 0x100_0000_0000;
    assert q / 128 == w / 0x8000_0000_0000;
    assert q / 128 / 2 == w / 0x1_0000_0000_0000;
  }

  // In the old form: 32 bits of offset, one byte each for frame type and file number.
  lemma PesLayout(w: Word64)
    ensures var p := PesOf(w);
      && p.offset == w % 0x1_0000_0000
      && p.kind == w / 0x1_0000_0000 % 256
      && p.number == w / 0x100_0000_0000 % 256
      && p.reserved == w / 0x1_0000_0000_0000
  {
    var q := w / 0x1_0000_0000;
    assert q / 256 == w / 0x100_0000_0000;
    assert q / 256 / 256 == w / 0x1_0000_0000_0000;
  }

  // The conversion, bit by bit: only frames of type 1 become independent ones.
  lemma FromPesBits(w: Word64)
    ensures var q, t := w / 0x1_0000_0000, TsOf(FromPes(w));
      && t.offset == w % 0x1_0000_0000
      && (t.independent <==> q % 256 == 1)
      && t.number == q / 256 % 256
      && t.reserved == q % 256 % 128
  {
    PesLayout(w);
    var p := PesOf(w);
    TsBack(Ts(p.offset, p.kind % 128, p.kind == 1, p.number));
    assert w / 0x1_0000_0000 / 256 == w / 0x100_0000_0000;
    hide TsBits, TsOf, PesOf;
  }

  // And the other way: type 1 for independent frames, type 2 for all others.
  lemma ToPesBits(w: Word64)
    ensures var v := ToPes(w);
      && v % 0x1_0000_0000 == w % 0x100_0000_0000 % 0x1_0000_0000
      && v / 0x1_0000_0000 % 256 == (if w / 0x8000_0000_0000 % 2 == 1 then 1 else 2)
      && v / 0x100_0000_0000 % 256 == w / 0x1_0000_0000_0000 % 256
      && v / 0x1_0000_0000_0000 == 0
  {
    TsLayout(w);
    PesLayout(ToPes(w));
    var t := TsOf(w);
    PesBack(Pes(t.offset % PES_OFFSET_END, if t.independent then 1 else 2, t.number % 256, 0));
    hide PesBits, TsOf, PesOf;
  }

  // An entry survives being written in the old form exactly when its numbers are small enough for it.
  lemma ThroughPesIff(t: Ts)
    requires t.Fits()
    ensures var u := TsOf(FromPes(ToPes(TsBits(t))));
      && u.independent == t.independent && u.reserved == (if t.independent then 1 else 2)
      && (u.offset == t.offset <==> t.offset < PES_OFFSET_END)
      && (u.number == t.number <==> t.number < 256)
  {
    TsBack(t);
    var p := Pes(t.offset % PES_OFFSET_END, if t.independent then 1 else 2, t.number % 256, 0);
    hide TsBits, TsOf, PesBits, PesOf;
    assert p.Fits();
    PesBack(p);
    TsBack(Ts(p.offset, p.kind % 128, p.kind == 1, p.number));
  }

  // An entry stays the same when it is converted a second time exactly when there is nothing in it but an
  // offset: no file number, and no frame type but 0 and 128.
  lemma ConvertedTwiceIff(w: Word64)
    ensures FromPes(FromPes(w)) == FromPes(w) <==> PesOf(w).number == 0 && (PesOf(w).kind == 0 || PesOf(w).kind == 128)
  {
    var p := PesOf(w);
    var t := Ts(p.offset, p.kind % 128, p.kind == 1, p.number);
    var p2 := Pes(p.offset, 0, p.kind % 128 + (if p.kind == 1 then 128 else 0), p.number);
    SameBits(t, p2);
    PesBack(p2);
    TsBack(t);
    TsBack(Ts(p2.offset, 0, false, p2.number));
    hide TsBits, PesBits, TsOf, PesOf;
  }

  // What an entry of the new form means in the old one.
  lemma SameBits(t: Ts, p: Pes)
    requires t.Fits() && t.offset < PES_OFFSET_END
    requires p == Pes(t.offset, 0, t.reserved + (if t.independent then 128 else 0), t.number)
    ensures TsBits(t) == PesBits(p)
  {
  }

  // For example, the first frame of a recording no longer counts as independent.
  lemma ConvertedTwice()
    ensures var w := PesBits(Pes(0, 1, 1, 0)); TsOf(FromPes(w)).independent && !TsOf(FromPes(FromPes(w))).independent
  {
    PesBack(Pes(0, 1, 1, 0));
    SameBits(Ts(0, 1, true, 1), Pes(0, 0, 129, 1));
    PesBack(Pes(0, 0, 129, 1));
    TsBack(Ts(0, 1, true, 1));
    TsBack(Ts(0, 0, false, 129));
    hide TsBits, PesBits, TsOf, PesOf;
  }
}

/** The index in memory, which follows a file that a recorder goes on writing. */
module IndexFile {
  import opened IndexEntry

  // One more than the number of seconds a call waits for the file.
  const ROUNDS := 9
  // How many frames to stay off the end.
  const SAFETY := 150

  datatype Option<T> = None | Some(value: T)

  // A file as a sequence of whole entries, and how many bytes of a further one it has.
  datatype File = File(entries: seq<Word64>, rest: nat) {
    predicate Valid() { rest < 8 }

    function Size(): nat { 8 * |entries| + rest }

    function Whole(): int { Size() / 8 - 1 }
  }

  ghost predicate Grown(a: File, b: File) { a.entries <= b.entries && a.Valid() && b.Valid() && a.Size() <= b.Size() }

  ghost predicate Growing(files: seq<File>) {
    && (forall i :: 0 <= i < |files| ==> files[i].Valid())
    && (forall i, j :: 0 <= i <= j < |files| ==> Grown(files[i], files[j]))
  }

  function Decoded(pes: bool, w: Word64): Word64 { if pes then FromPes(w) else w }

  // Number of the last entry after the first n states of the file have been seen.
  function Newest(last: int, files: seq<File>, n: nat): int
    requires n <= |files|
  {
    if n == 0 then last
    else
      var before := Newest(last, files, n - 1);
      if files[n - 1].Whole() > before then files[n - 1].Whole() else before
  }

  // The last state seen decides.
  lemma {:induction false} NewestOfGrowing(last: int, files: seq<File>, n: nat)
    requires 0 < n <= |files| && Growing(files)
    ensures Newest(last, files, n) == if files[n - 1].Whole() > last then files[n - 1].Whole() else last
  {
    if n > 1 {
      NewestOfGrowing(last, files, n - 1);
      assert Grown(files[n - 2], files[n - 1]);
    }
  }

  lemma NewestIs(last: int, files: seq<File>, n: nat)
    requires 0 < n <= |files| && Growing(files)
    ensures var m := |files[n - 1].entries| - 1; Newest(last, files, n) == if m > last then m else last
  {
    NewestOfGrowing(last, files, n);
    hide Newest;
  }

  // What the first n + 1 words should be: every entry of the file, converted once.
  ghost predicate Follows(a: seq<Word64>, n: int, entries: seq<Word64>, pes: bool, torn: int) {
    n < |a| && forall k :: 0 <= k <= n && k != torn ==> RightAt(a, entries, pes, k)
  }

  predicate RightAt(a: seq<Word64>, entries: seq<Word64>, pes: bool, k: nat) {
    k < |a| && k < |entries| && a[k] == Decoded(pes, entries[k])
  }

  lemma FollowsOn(
    a: seq<Word64>, n: int, entries: seq<Word64>, b: seq<Word64>, m: int, more: seq<Word64>, pes: bool, torn: int)
    requires Follows(a, n, entries, pes, torn) && entries <= more && n <= m < |b| && (n < m ==> m < |more|)
    requires forall k :: 0 <= k <= n ==> b[k] == a[k]
    requires forall k :: 0 <= k <= m && n < k ==> b[k] == Decoded(pes, more[k])
    ensures Follows(b, m, more, pes, torn)
  {
    forall k | 0 <= k <= m && k != torn
      ensures RightAt(b, more, pes, k)
    {
      if k <= n { assert RightAt(a, entries, pes, k) && b[k] == a[k]; }
    }
  }

  // When following a file ends, and how far it gets.
  lemma RoundsAre(idx: int, before: int, files: seq<File>, rounds: nat)
    requires before >= 0 && |files| == ROUNDS && rounds <= ROUNDS && Growing(files)
    requires forall r: nat :: r < rounds ==> Waits(idx, Newest(before, files, r), r)
    requires rounds < ROUNDS ==> !Waits(idx, Newest(before, files, rounds), rounds)
    ensures idx < 0 ==> rounds == 1
    ensures idx >= 0 ==>
      && (idx < Newest(before, files, rounds) || rounds == 9) && (idx < before ==> rounds == 0)
      && (rounds > 1 ==> idx > |files[rounds - 2].entries| - 2)
    ensures rounds > 0 ==>
      var m := |files[rounds - 1].entries| - 1; Newest(before, files, rounds) == if m > before then m else before
  {
    assert Newest(before, files, 0) == before;
    if rounds > 0 {
      NewestIs(before, files, rounds);
      assert Waits(idx, Newest(before, files, 0), 0);
    }
    if rounds > 1 {
      NewestIs(before, files, rounds - 1);
      assert Waits(idx, Newest(before, files, rounds - 1), rounds - 1);
    }
  }

  // Whether another round is needed when the wanted entry is idx.
  predicate Waits(idx: int, last: int, rounds: nat) { if idx < 0 then rounds == 0 else idx >= last }

  class Index {
    const pes: bool
    var index: array?<Word64>
    var size: nat
    var last: int
    // Set by the first call of GetVideoFileSize, -1 before.
    var fileSize: int
    // If an interval is set, only the frames up to lastGetValue are used.
    var interval: int
    var lastGetValue: int
    ghost var file: File
    // The entry that was not yet complete when the file was opened, or -1, and what it was decoded to.
    ghost var torn: int
    ghost var tornWord: Word64

    ghost predicate Valid()
      reads this, OrNone(index)
    {
      && file.Valid()
      && (index == null ==> last == -1)
      && -1 <= lastGetValue <= (if last < 0 then 0 else last)
      && (index != null ==> 0 <= last < size == index.Length && Follows(index[..], last, file.entries, pes, torn))
      && (index != null ==> torn <= last && (torn >= 0 ==> index[torn] == tornWord))
    }

    // Every entry that the file has is in the index as it is in the file.
    ghost predicate Right()
      reads this, OrNone(index)
      requires Valid()
    {
      index != null ==> forall k :: 0 <= k <= last && k < |file.entries| ==> RightAt(index[..], file.entries, pes, k)
    }

    // Whatever has been done with the index, it is right exactly when no entry was incomplete when the
    // file was opened, or that one is not complete yet, or memory happened to hold what was missing.
    lemma RightIff()
      requires Valid() && index != null
      ensures Right() <==> torn < 0 || torn >= |file.entries| || tornWord == Decoded(pes, file.entries[torn])
    {
      hide Decoded;
      if 0 <= torn < |file.entries| { assert Right() ==> RightAt(index[..], file.entries, pes, torn); }
    }

    ghost function OrNone(a: array?<Word64>): set<object> { if a == null then {} else {a} }

    // Opens the index for reading; junk is what the array holds at an incomplete entry: the bytes of the
    // file that are there, and behind them whatever memory held.
    constructor (now: File, isPes: bool, junk: Word64)
      requires now.Valid()
      ensures Valid() && pes == isPes && file == now
      ensures index == null <==> now.Size() == 0
      ensures torn == (if now.rest > 0 then last else -1) && fileSize == -1 && interval == 0
      ensures last == (if now.rest > 0 then |now.entries| else |now.entries| - 1)
      ensures index != null ==> fresh(index)
      ensures torn >= 0 ==> tornWord == Decoded(isPes, junk)
    {
      pes, index, size, file, fileSize := isPes, null, 0, now, -1;
      interval, lastGetValue := 0, 0;
      last := (if now.rest > 0 then |now.entries| + 1 else |now.entries|) - 1;
      torn, tornWord := if now.rest > 0 then |now.entries| else -1, Decoded(isPes, junk);
      new;
      if last >= 0 {
        size := last + 1;
        index := new Word64[size](k => if 0 <= k < |now.entries| then now.entries[k] else junk);
        if pes { ConvertFromPes(index, 0, size); }
      }
    }

    // Converts count entries in place.
    static method ConvertFromPes(a: array<Word64>, from: nat, count: nat)
      requires from + count <= a.Length
      modifies a
      ensures forall k :: 0 <= k < a.Length ==>
        a[k] == if from <= k < from + count then FromPes(old(a[k])) else old(a[k])
    {
      hide FromPes;
      for i := 0 to count
        invariant forall k :: 0 <= k < a.Length ==>
          a[k] == if from <= k < from + i then FromPes(old(a[k])) else old(a[k])
      {
        a[from + i] := FromPes(a[from + i]);
      }
    }

    // An array of n entries that begins as a does.
    static method Realloc(a: array<Word64>, n: nat) returns (b: array<Word64>)
      requires n >= a.Length
      ensures fresh(b) && b.Length == n
      ensures forall k :: 0 <= k < a.Length ==> b[k] == a[k]
    {
      b := new Word64[n];
      for i := 0 to a.Length
        invariant forall k :: 0 <= k < i ==> b[k] == a[k]
      {
        b[i] := a[i];
      }
    }

    // Reads the entries first .. first + count of the file into the array.
    static method ReadEntries(a: array<Word64>, now: File, first: nat, count: nat)
      requires first + count <= a.Length && first + count <= |now.entries|
      modifies a
      ensures forall k :: 0 <= k < a.Length ==>
        a[k] == if first <= k < first + count then now.entries[k] else old(a[k])
    {
      for i := 0 to count
        invariant forall k :: 0 <= k < a.Length ==>
          a[k] == if first <= k < first + i then now.entries[k] else old(a[k])
      {
        a[first + i] := now.entries[first + i];
      }
    }

    // Reads entries and decodes them.
    method Fill(a: array<Word64>, now: File, first: nat, count: nat)
      requires first + count <= a.Length && first + count <= |now.entries|
      modifies a
      ensures forall k :: first <= k < first + count ==> a[k] == Decoded(pes, now.entries[k])
      ensures forall k :: 0 <= k < first ==> a[k] == old(a[k])
    {
      hide FromPes;
      ReadEntries(a, now, first, count);
      if pes { ConvertFromPes(a, first, count); }
    }

    twostate predicate KeepsSettings()
      reads this
    {
      fileSize == old(fileSize) && interval == old(interval) && lastGetValue == old(lastGetValue)
    }

    // Makes the array larger until it has room for entry n.
    method MakeRoom(n: nat)
      requires index != null && 0 < size == index.Length
      modifies this`index, this`size
      ensures index != null && fresh(index) && size == index.Length && size > n && size >= old(size)
      ensures forall k :: 0 <= k < old(size) ==> index[k] == old(index[k])
    {
      if size <= n {
        size := 2 * size;
        if size <= n { size := n + 1; }
      }
      index := Realloc(index, size);
    }

    // One look at the file, in the state it has now.
    method Look(now: File)
      requires Valid() && index != null && Grown(file, now)
      modifies this, index
      ensures Valid() && index != null && (index == old(index) || fresh(index))
      ensures file == now && torn == old(torn) && tornWord == old(tornWord) && KeepsSettings()
      ensures last == if now.Whole() > old(last) then now.Whole() else old(last)
      ensures forall k :: 0 <= k <= old(last) ==> index[k] == old(index[k])
      ensures last == old(last) ==> index == old(index)
    {
      hide Decoded, Follows;
      file := now;
      var newLast := now.Whole();
      if newLast > last {
        MakeRoom(newLast);
        Fill(index, now, last + 1, newLast - last);
        last := newLast;
      }
      FollowsOn(old(index[..]), old(last), old(file.entries), index[..], last, now.entries, pes, torn);
    }

    // Follows the file until entry idx is there, for at most nine seconds; a negative idx asks
    // for one look. files are the states of the file second by second.
    method CatchUp(idx: int, files: seq<File>) returns (ok: bool, ghost rounds: nat)
      requires Valid() && |files| == ROUNDS && Growing(files) && Grown(file, files[0])
      modifies this, OrNone(index)
      ensures Valid() && torn == old(torn) && tornWord == old(tornWord) && KeepsSettings()
      ensures ok == (index != null) == (old(index) != null)
      ensures index == null ==> rounds == 0
      ensures index == old(index) || fresh(index)
      ensures rounds <= ROUNDS && last == Newest(old(last), files, rounds)
      ensures file == if rounds == 0 then old(file) else files[rounds - 1]
      ensures index != null ==>
        && (forall r: nat :: r < rounds ==> Waits(idx, Newest(old(last), files, r), r))
        && (rounds < ROUNDS ==> !Waits(idx, last, rounds))
        && last >= old(last) && (forall k :: 0 <= k <= old(last) ==> index[k] == old(index[k]))
      ensures index != null && idx < 0 ==> rounds == 1
      ensures index != null && idx >= 0 ==>
        && (idx < last || rounds == 9) && (idx < old(last) ==> rounds == 0)
        && (rounds > 1 ==> idx > |files[rounds - 2].entries| - 2)
      ensures rounds > 0 ==>
        last == if |files[rounds - 1].entries| - 1 > old(last) then |files[rounds - 1].entries| - 1 else old(last)
    {
      hide Follows, Waits;
      rounds := 0;
      if index == null { return false, 0; }
      var i := 0;
      while i < ROUNDS && Waits(idx, last, i)
        invariant 0 <= i <= ROUNDS && rounds == i
        invariant Valid() && index != null
        invariant torn == old(torn) && tornWord == old(tornWord) && KeepsSettings()
        invariant index == old(index) || fresh(index)
        invariant last == Newest(old(last), files, i) >= old(last)
        invariant file == if i == 0 then old(file) else files[i - 1]
        invariant forall r: nat :: r < i ==> Waits(idx, Newest(old(last), files, r), r)
        invariant forall k :: 0 <= k <= old(last) ==> index[k] == old(index[k])
      {
        Look(files[i]);
        i, rounds := i + 1, i + 1;
      }
      RoundsAre(idx, old(last), files, rounds);
      ok := true;
    }

    // The frames of the recording as they are known now.
    ghost function Frames(): (t: seq<Ts>)
      reads this`index, this`last, OrNone(index)
    {
      if index != null && 0 <= last < index.Length then FramesOf(index[..last + 1]) else []
    }

    // Place and length of a frame that is not the last one.
    method Get(idx: int) returns (frame: Option<(Ts, int)>)
      requires Valid()
      ensures frame == if 0 <= idx < last then Some((Frames()[idx], Length(Frames(), idx))) else None
      ensures 0 <= idx < last ==>
        var t, next := Frames()[idx], Frames()[idx + 1];
        frame.value.1 == if t.number == next.number then next.offset - t.offset else -1
    {
      if index == null || idx < 0 || idx >= last { return None; }
      hide TsOf;
      var t, next := TsOf(index[idx]), TsOf(index[idx + 1]);
      return Some((t, if t.number == next.number then next.offset - t.offset else -1));
    }

    // The first frame, other than the last one, at or behind an offset of a file.
    method FrameFrom(number: nat, offset: nat, now: File) returns (i: int)
      requires Valid() && Grown(file, now)
      modifies this, OrNone(index)
      ensures Valid() && file == (if old(index) == null then old(file) else now)
      ensures torn == old(torn) && tornWord == old(tornWord) && KeepsSettings()
      ensures index == null ==> i == -1
      ensures index != null ==>
        && 0 <= i <= last
        && (i < last ==>
            Frames()[i].number > number || (Frames()[i].number == number && Frames()[i].offset >= offset))
        && forall j :: 0 <= j < i ==>
             Frames()[j].number < number || (Frames()[j].number == number && Frames()[j].offset < offset)
    {
      if index == null { return -1; }
      Look(now);
      hide TsOf;
      i := 0;
      while i < last
        invariant 0 <= i <= last
        invariant forall j :: 0 <= j < i ==> !Reaches(Frames()[j], number, offset)
      {
        if Reaches(TsOf(index[i]), number, offset) { break; }
        i := i + 1;
      }
    }

    // The number of the last frame that is used.
    function GetLast(): int
      reads this`interval, this`lastGetValue, this`last
    {
      if interval != 0 then lastGetValue else last
    }

    // The frames that are used.
    ghost function Used(): seq<Ts>
      reads this`interval, this`lastGetValue, this`index, this`last, OrNone(index)
    {
      if 0 <= GetLast() < |Frames()| then Frames()[..GetLast() + 1] else []
    }

    method SetInterval(n: int)
      requires Valid()
      modifies this`interval
      ensures Valid() && interval == n
    {
      interval := n;
    }

    // The next independent frame in one direction, if there is one, and on the way forward one that is far
    // enough from the end if that is asked for.
    method GetNextIFrame(idx: int, forward: bool, stayOffEnd: bool) returns (r: int)
      requires Valid()
      ensures var limit := last - if forward && stayOffEnd then 150 else 0;
        && (forward && idx < -1 ==> r == -1) && (!forward && idx > limit ==> r == -1)
        && (r != -1 ==> 0 <= r < |Frames()| && Frames()[r].independent)
        && (r == -1 || (r < limit && Independent(Frames(), r)))
        && (r != -1 ==> NoneBetween(Frames(), if forward then idx else r, if forward then r else idx))
        && (r == -1 && forward && idx >= -1 ==> NoneBetween(Frames(), idx, limit))
        && (r == -1 && !forward && idx <= limit ==> NoneBetween(Frames(), -1, idx))
        && (if forward then r == -1 || r > idx else r == -1 || r < idx)
    {
      hide TsOf;
      if index == null { return -1; }
      r := idx;
      var limit := Limit(forward && stayOffEnd);
      ghost var t := Frames();
      while true
        invariant forward ==> r >= idx && NoneBetween(t, idx, r + 1)
        invariant !forward ==> r <= idx && NoneBetween(t, r - 1, idx)
        invariant r == idx || (0 <= r < limit && (if forward then idx >= -1 else idx <= limit))
        decreases if forward then limit - r else r
      {
        r := if forward then r + 1 else r - 1;
        if r < 0 || r >= limit { return -1; }
        if TsOf(index[r]).independent { return r; }
        assert !t[r].independent;
      }
    }

    function Limit(stayOffEnd: bool): int
      reads this`last
    {
      last - if stayOffEnd then SAFETY else 0
    }

    // Moves the end of the frames that are used on by two intervals and up to the next independent frame, or
    // to the end if there is none.
    method MoveOn()
      requires Valid() && interval != 0
      modifies this`lastGetValue
      ensures Valid()
      ensures lastGetValue != last ==>
        && lastGetValue + 1 < Limit(true) && Independent(Frames(), lastGetValue + 1)
        && NoneBetween(Frames(), old(lastGetValue) + 2 * interval, lastGetValue + 1)
      ensures lastGetValue == last && old(lastGetValue) + 2 * interval >= 0 ==>
        NoneBetween(Frames(), old(lastGetValue) + 2 * interval, Limit(true))
    {
      hide NoneBetween;
      ghost var t := Frames();
      var next := GetNextIFrame(lastGetValue + interval + interval, true, true);
      lastGetValue := next - 1;
      if lastGetValue > last || lastGetValue < 0 { lastGetValue := last; }
      assert Frames() == t;
    }

    // Follows the file; if an interval is set, moves on.
    method CatchUpInterval(idx: int, files: seq<File>) returns (ok: bool, ghost rounds: nat)
      requires Valid() && |files| == ROUNDS && Growing(files) && Grown(file, files[0])
      modifies this, OrNone(index)
      ensures Valid() && interval == old(interval) && fileSize == old(fileSize)
      ensures torn == old(torn) && tornWord == old(tornWord)
      ensures ok == (index != null) == (old(index) != null)
      ensures rounds <= ROUNDS && last == Newest(old(last), files, rounds)
      ensures interval == 0 ==> lastGetValue == old(lastGetValue)
      ensures interval != 0 && lastGetValue != last ==>
        && lastGetValue + 1 < Limit(true) && Independent(Frames(), lastGetValue + 1)
        && NoneBetween(Frames(), old(lastGetValue) + 2 * interval, lastGetValue + 1)
      ensures interval != 0 && lastGetValue == last && old(lastGetValue) + 2 * interval >= 0 ==>
        NoneBetween(Frames(), old(lastGetValue) + 2 * interval, Limit(true))
    {
      hide Frames, NoneBetween, Newest, Waits;      hide NoneBetween, Newest, Waits;
      ok, rounds := CatchUp(idx, files);
      if interval != 0 { MoveOn(); }
    }

    // Length of all the frames but the last one, as it was when it was first asked for.
    method GetVideoFileSize() returns (n: int)
      requires Valid()
      modifies this`fileSize
      ensures n == fileSize
      ensures fileSize
           == if old(fileSize) == -1 then Position(Used(), if GetLast() < 0 then 0 else GetLast()) else old(fileSize)
    {
      hide Position, Length, Follows, FramesOf;
      ghost var t := Used();
      PositionStart(t);
      if fileSize == -1 {
        fileSize := 0;
        var i := 0;
        while i < GetLast()
          invariant 0 <= i && (i <= GetLast() || i == 0)
          invariant Used() == t && fileSize == Position(t, i)
        {
          var frame := Get(i);
          LengthInPart(Frames(), GetLast() + 1, i);
          PositionStep(t, i);
          i := i + 1;
          fileSize := fileSize + frame.value.1;
        }
      }
      return fileSize;
    }

    // The frame at a position in the recording; first is the first frame that begins at or behind it.
    method GetIndexForFilepos(pos: int) returns (r: int, ghost first: nat)
      requires Valid()
      ensures first <= |Used()| && FirstFrom(Used(), pos, first)
      ensures r == AtOrBefore(Used(), pos, first)
      ensures r >= 0 ==> r < GetLast() && Position(Used(), r) <= pos
      ensures r >= 0 && r + 1 < GetLast() && Position(Used(), r) != pos ==> pos < Position(Used(), r + 1)
    {
      hide Position, Length, Follows, FramesOf;
      ghost var t := Used();
      PositionStart(t);
      var filePos, i := 0, 0;
      while i < GetLast()
        invariant 0 <= i && (i <= GetLast() || i == 0)
        invariant filePos == Position(t, i)
        invariant forall j :: 0 <= j < i ==> Position(t, j) < pos
      {
        if filePos > pos { return i - 1, i; }
        if filePos == pos { return i, i; }
        var frame := Get(i);
        LengthInPart(Frames(), GetLast() + 1, i);
        PositionStep(t, i);
        i := i + 1;
        filePos := filePos + frame.value.1;
      }
      return -1, i;
    }
  }

  predicate Independent(t: seq<Ts>, k: int) { 0 <= k < |t| && t[k].independent }

  // No frame between two numbers is independent.
  predicate NoneBetween(t: seq<Ts>, low: int, high: int) {
    forall k :: low < k < high && 0 <= k < |t| ==> !t[k].independent
  }

  function FramesOf(words: seq<Word64>): (t: seq<Ts>)
    ensures |t| == |words|
    ensures forall k :: 0 <= k < |words| ==> t[k] == TsOf(words[k])
  {
    seq(|words|, k requires 0 <= k < |words| => TsOf(words[k]))
  }

  // For example: four bytes of an entry are there when the index is opened, and memory holds a 5 behind them.
  // The other four bytes of the file are zero, and the file is followed up to its next entry.
  method TornExample() returns (x: Index)
    ensures x.Valid() && x.index != null && x.last == 1 && x.file.entries == [9, 10]
    ensures x.index[1] == 10 && x.index[0] == 9 + 5 * PES_OFFSET_END && !x.Right()
  {
    var before, after := File([], 4), File([9, 10], 0);
    x := new Index(before, false, 9 + 5 * PES_OFFSET_END);
    var files := seq(ROUNDS, i => after);
    assert Newest(0, files, 1) == 1 by { assert Newest(0, files, 0) == 0; }
    var ok, rounds := x.CatchUp(-1, files);
    assert rounds == 1 && RightAt(x.index[..], x.file.entries, false, 1);
    x.RightIff();
  }

  // Whether a frame lies at or behind an offset of a file.
  predicate Reaches(t: Ts, number: nat, offset: nat) { t.number > number || (t.number == number && t.offset >= offset) }

  // Length of a frame; the last one of a file counts as -1.
  function Length(t: seq<Ts>, k: nat): int
    requires k + 1 < |t|
  {
    if t[k].number == t[k + 1].number then t[k + 1].offset - t[k].offset else -1
  }

  // Sum of the lengths of the first n frames.
  function Position(t: seq<Ts>, n: nat): int
    requires n < |t| || n == 0
  {
    if n == 0 then 0 else Position(t, n - 1) + Length(t, n - 1)
  }

  lemma LengthInPart(t: seq<Ts>, n: nat, k: nat)
    requires k + 1 < n <= |t|
    ensures Length(t[..n], k) == Length(t, k)
  {
  }

  lemma PositionStart(t: seq<Ts>)
    ensures Position(t, 0) == 0
  {
  }

  lemma PositionStep(t: seq<Ts>, n: nat)
    requires n + 1 < |t|
    ensures Position(t, n + 1) == Position(t, n) + Length(t, n)
  {
  }

  // n is the first frame but the last one that begins at or behind pos, if there is one.
  ghost predicate FirstFrom(t: seq<Ts>, pos: int, n: nat) {
    && (n + 1 < |t| ==> Position(t, n) >= pos)
    && (forall j: nat :: j < n && j < |t| ==> Position(t, j) < pos)
  }

  function AtOrBefore(t: seq<Ts>, pos: int, n: nat): int {
    if n + 1 >= |t| then -1 else if Position(t, n) == pos then n else n - 1
  }

  // A recording in one file.
  ghost predicate OneFile(t: seq<Ts>) {
    && (forall i, j :: 0 <= i < |t| && 0 <= j < |t| ==> t[i].number == t[j].number)
    && (forall i, j :: 0 <= i < j < |t| ==> t[i].offset < t[j].offset)
  }

  lemma {:induction false} Telescopes(t: seq<Ts>, n: nat)
    requires OneFile(t) && n < |t|
    ensures Position(t, n) == t[n].offset - t[0].offset
  {
    if n > 0 { Telescopes(t, n - 1); }
  }

  // In a recording in one file the search finds the frame a position lies in, up to the
  // beginning of the last but one frame, and nothing anywhere else.
  lemma FilePosition(t: seq<Ts>, pos: int, n: nat, r: int)
    requires OneFile(t) && FirstFrom(t, pos, n) && n <= |t| && r == AtOrBefore(t, pos, n)
    ensures r == -1 || (0 <= r && r + 1 < |t|)
    ensures r != -1 <==> |t| > 1 && 0 <= pos <= t[|t| - 2].offset - t[0].offset
    ensures r != -1 ==> forall k :: 0 <= k < |t| - 1 ==>
      (t[k].offset <= t[0].offset + pos < t[k + 1].offset <==> k == r)
  {
    forall k | 0 <= k < |t| ensures Position(t, k) == t[k].offset - t[0].offset { Telescopes(t, k); }
    hide Position;
    if r != -1 {
      forall k | 0 <= k < |t| - 1
        ensures t[k].offset <= t[0].offset + pos < t[k + 1].offset <==> k == r
      {
        OneFrame(t, pos, r, k);
      }
    }
    hide OneFile;
  }

  lemma OneFrame(t: seq<Ts>, pos: int, r: int, k: int)
    requires OneFile(t) && 0 <= r < |t| - 1 && 0 <= k < |t| - 1
    requires t[r].offset <= t[0].offset + pos < t[r + 1].offset
    ensures t[k].offset <= t[0].offset + pos < t[k + 1].offset <==> k == r
  {
  }

  // The search through the offsets finds the same frame where one begins and the next one elsewhere.
  lemma FilePositionAndOffset(t: seq<Ts>, pos: nat, n: nat, r: int, i: nat)
    requires OneFile(t) && FirstFrom(t, pos, n) && n <= |t| && r == AtOrBefore(t, pos, n) && r != -1
    requires i < |t| && (i + 1 < |t| ==> Reaches(t[i], t[0].number, t[0].offset + pos))
    requires forall j :: 0 <= j < i ==> !Reaches(t[j], t[0].number, t[0].offset + pos)
    ensures i == if t[r].offset == t[0].offset + pos then r else r + 1
  {
    forall k | 0 <= k < |t| ensures Position(t, k) == t[k].offset - t[0].offset { Telescopes(t, k); }
    hide Position;
  }

  // What a recorder writes for a frame.
  function Written(pes: bool, offset: nat, independent: bool, number: nat): Word64
    requires number < 65536
  {
    var w := TsBits(Ts(offset % OFFSET_END, 0, independent, number));
    if pes then ToPes(w) else w
  }

  // What the reader makes of it.
  lemma WrittenBackIff(pes: bool, offset: nat, independent: bool, number: nat)
    requires number < 65536
    ensures var t := TsOf(Decoded(pes, Written(pes, offset, independent, number)));
      && t.independent == independent
      && (t.offset == offset <==> offset < if pes then PES_OFFSET_END else OFFSET_END)
      && (t.number == number <==> !pes || number < 256)
  {
    var t := Ts(offset % OFFSET_END, 0, independent, number);
    hide TsBits, TsOf, ToPes, FromPes;
    if pes { ThroughPesIff(t); } else { TsBack(t); }
    Remainder(offset);
  }

  lemma Remainder(n: nat)
    ensures n % OFFSET_END < PES_OFFSET_END && n % OFFSET_END == n <==> n < PES_OFFSET_END
    ensures n % OFFSET_END == n <==> n < OFFSET_END
  {
  }
}
