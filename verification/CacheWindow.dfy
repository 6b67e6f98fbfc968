/** A file that is read with its own read-ahead, and that tells the system which of the bytes
    it has read can be dropped from the cache. */
module CacheWindow {
  const PAGE := 4096
  const READCHUNK := 8 * 1024 * 1024
  const FIRST_READAHEAD := 128 * 1024

  // The offsets of the bytes that are in the cache because of this file object.
  type Cache = iset<int>

  function PageOf(b: int): int { b / PAGE * PAGE }

  // The range [a, a + len).
  ghost function Span(a: int, len: int): Cache { iset b | Within(b, a, len) }

  predicate Within(b: int, a: int, len: int) { a <= b < a + len }

  // What is left when a range is not needed: whole pages inside of it are dropped. Of a range that begins
  // below offset 0 no more is known than that; below is what the system may keep then.
  ghost function NotNeeded(c: Cache, a: int, len: int, below: Cache): Cache {
    iset b | b in c && !(a <= PageOf(b) && PageOf(b) + PAGE <= a + len) && (a < 0 ==> b in below)
  }

  // The range is rounded up on both sides.
  ghost function Dropped(c: Cache, a: int, len: int, below: Cache): Cache {
    NotNeeded(c, a - (PAGE - 1), len + (PAGE - 1) * 2, below)
  }

  lemma PageAround(b: int)
    ensures PageOf(b) <= b < PageOf(b) + PAGE
  {
  }

  // Dropping a range drops all of it, and no byte a page or more away from it unless the rounded range begins
  // below offset 0.
  lemma DropsAll(c: Cache, a: int, len: int, below: Cache, b: int)
    requires b in Dropped(c, a, len, below)
    ensures b in c && !(a <= b < a + len)
  {
    PageAround(b);
  }

  lemma DropsNoMore(c: Cache, a: int, len: int, below: Cache, b: int)
    requires a >= PAGE - 1 && b in c && (b <= a - PAGE || b >= a + len + PAGE - 1)
    ensures b in Dropped(c, a, len, below)
  {
    PageAround(b);
  }

  // The window may grow, and more of it may be in the cache.
  lemma AddInside(c: Cache, start: int, end: int, a: int, len: int, end': int)
    requires c <= Span(start, end - start) && end' >= end && start <= a && a + len <= end'
    ensures c + Span(a, len) <= Span(start, end' - start)
  {
  }

  lemma DropsOnly(c: Cache, a: int, len: int, below: Cache)
    ensures Dropped(c, a, len, below) <= c
    ensures a >= PAGE - 1 ==>
      forall b :: b in c && (b <= a - PAGE || b >= a + len + PAGE - 1) ==> b in Dropped(c, a, len, below)
  {
    forall b | a >= PAGE - 1 && b in c && (b <= a - PAGE || b >= a + len + PAGE - 1)
      ensures b in Dropped(c, a, len, below)
    {
      DropsNoMore(c, a, len, below, b);
    }
  }

  lemma DropInside(c: Cache, start: int, end: int, a: int, len: int, below: Cache, start': int, end': int)
    requires c <= Span(start, end - start)
    requires (a == start && start' == a + len && end' == end) || (a + len == end && end' == a && start' == start)
    ensures Dropped(c, a, len, below) <= Span(start', end' - start')
  {
    forall b | b in Dropped(c, a, len, below)
      ensures start' <= b < end'
    {
      DropsAll(c, a, len, below, b);
      assert b in Span(start, end - start);
    }
  }

  // How far the file has been asked for in advance, after a read that has ended at cur and
  // began jumped bytes behind the end of the one before it.
  function NewAhead(cur: int, jumped: int, ahead: int, readahead: nat): int {
    if jumped < 0 || jumped > readahead then cur
    else if ahead - cur < readahead / 2 then cur + readahead
    else ahead
  }

  // How much will be asked for at a time from now on.
  function Tuned(jumped: int, size: nat, readahead: nat): nat {
    if 0 <= jumped <= readahead && size * 32 > readahead then size * 32 else readahead
  }

  class UnbufferedFile {
    var open: bool
    var curpos: int
    var lastpos: int
    var ahead: int
    var cachedstart: int
    var cachedend: int
    var readahead: nat
    ghost var cached: Cache
    ghost const below: Cache

    // Everything in the cache lies in the window.
    ghost predicate Valid()
      reads this
    {
      && 0 <= cachedstart <= cachedend && curpos >= 0
      && cached <= Span(cachedstart, cachedend - cachedstart)
    }

    constructor (ghost below: Cache)
      ensures Valid() && !open && cached == iset{} && this.below == below
    {
      this.below := below;
      open, curpos, lastpos, ahead, cachedstart, cachedend, readahead := false, 0, 0, 0, 0, 0, 0;
      cached := iset{};
    }

    method Open(ok: bool)
      modifies this
      ensures Valid() && open == ok && cached == iset{}
      ensures curpos == lastpos == ahead == cachedstart == cachedend == 0 && readahead == 0x2_0000
    {
      Close();
      open := ok;
      curpos, lastpos, ahead, cachedstart, cachedend := 0, 0, 0, 0, 0;
      readahead := FIRST_READAHEAD;
    }

    method Close()
      modifies this`open, this`cached
      ensures !open && cached == iset{}
    {
      cached := iset{};
      open := false;
    }

    method SetReadAhead(n: nat)
      requires Valid()
      modifies this`readahead
      ensures Valid() && readahead == n
    {
      readahead := n;
    }

    // to is the position the system moves to.
    method Seek(to: nat)
      requires Valid()
      modifies this`curpos
      ensures Valid() && curpos == to
    {
      curpos := to;
    }

    // Whether the position has not left the window.
    predicate Near()
      reads this
    {
      cachedstart >= cachedend || cachedstart <= curpos <= cachedend
    }

    // Where the window begins when the position has been taken into it.
    function Start(): int
      reads this
    {
      if Near() && cachedstart < curpos then cachedstart else curpos
    }

    // The window does not reach far back, nor far ahead of what was asked for in advance,
    // unless it has just been cut behind.
    predicate Bounded()
      reads this`curpos, this`cachedstart, this`cachedend, this`ahead
    {
      && curpos - cachedstart <= 2 * READCHUNK
      && (cachedend > ahead && cachedend - curpos > 2 * READCHUNK ==> curpos - cachedstart == READCHUNK)
    }

    // Nothing of c is lost close to the position.
    ghost predicate Keeps(c: Cache)
      reads this`curpos, this`cached
    {
      forall b :: b in c && curpos - READCHUNK + PAGE - 1 <= b <= curpos + READCHUNK - PAGE ==> b in cached
    }

    // A position outside of the window starts a new one.
    method Invalidate()
      requires Valid()
      modifies this`cached, this`cachedstart, this`cachedend
      ensures Valid() && cachedstart <= curpos && (cachedstart < cachedend ==> curpos <= cachedend)
      ensures cachedstart == old(Start())
      ensures old(Near()) ==> cached == old(cached) && cachedend == old(cachedend)
      ensures !old(Near()) ==> cached == iset{} && cachedstart == cachedend == curpos
    {
      if cachedstart < cachedend && (curpos < cachedstart || curpos > cachedend) {
        DropInside(cached, cachedstart, cachedend, cachedstart, cachedend - cachedstart, below, cachedend, cachedend);
        assert Span(cachedend, 0) == iset{};
        cached := Dropped(cached, cachedstart, cachedend - cachedstart, below);
        cachedstart := curpos;
        cachedend := curpos;
      }
      cachedstart := if cachedstart < curpos then cachedstart else curpos;
      assert forall b :: b in cached ==> b in Span(cachedstart, cachedend - cachedstart);
    }

    // Asks for the bytes ahead, unless the position has jumped.
    method AskAhead(jumped: int, size: nat)
      requires Valid() && cachedstart <= curpos <= cachedend
      modifies this`cached, this`cachedend, this`ahead, this`readahead
      ensures Valid() && cachedend >= curpos && (cachedend == old(cachedend) || cachedend == ahead)
      ensures old(cached) <= cached <= old(cached) + Span(curpos, old(readahead))
      ensures ahead == NewAhead(curpos, jumped, old(ahead), old(readahead))
      ensures readahead == Tuned(jumped, size, old(readahead))
      ensures 0 <= jumped <= old(readahead) ==>
        && ahead - curpos >= old(readahead) / 2 && readahead >= 32 * size && readahead >= old(readahead)
        && (ahead == old(ahead) || (ahead == curpos + old(readahead) && Span(curpos, old(readahead)) <= cached))
      ensures jumped < 0 || jumped > old(readahead) ==> ahead == curpos && readahead == old(readahead)
      ensures jumped < 0 || jumped > old(readahead) || ahead == old(ahead) ==> cached == old(cached)
    {
      if 0 <= jumped <= readahead {
        if ahead - curpos < readahead / 2 {
          cached := cached + Span(curpos, readahead);
          ahead := curpos + readahead;
          cachedend := if cachedend > ahead then cachedend else ahead;
          assert forall b :: b in cached ==> b in Span(cachedstart, cachedend - cachedstart);
        }
        if readahead < size * 32 { readahead := size * 32; }
      } else {
        ahead := curpos;
      }
    }

    // Cuts the window behind or ahead of the position.
    method Shrink()
      requires Valid() && cachedstart <= curpos && (cachedstart < cachedend ==> curpos <= cachedend)
      modifies this`cached, this`cachedstart, this`cachedend
      ensures Valid() && cached <= old(cached)
      ensures old(cachedstart) >= PAGE - 1 || curpos - old(cachedstart) <= 2 * READCHUNK ==> Keeps(old(cached))
      ensures cachedstart >= old(cachedstart) && cachedend <= old(cachedend)
      ensures old(cachedstart < cachedend) ==> Bounded()
    {
      if cachedstart < cachedend {
        if curpos - cachedstart > 2 * READCHUNK {
          var n := curpos - READCHUNK - cachedstart;
          DropInside(cached, cachedstart, cachedend, cachedstart, n, below, curpos - READCHUNK, cachedend);
          DropsOnly(cached, cachedstart, n, below);
          cached := Dropped(cached, cachedstart, n, below);
          cachedstart := curpos - READCHUNK;
        } else if cachedend > ahead && cachedend - curpos > 2 * READCHUNK {
          var a := curpos + READCHUNK;
          DropInside(cached, cachedstart, cachedend, a, cachedend - a, below, cachedstart, a);
          DropsOnly(cached, a, cachedend - a, below);
          cached := Dropped(cached, a, cachedend - a, below);
          cachedend := a;
        }
      }
    }

    // The position behind what has been read, and the window with it.
    method TakeIn(n: nat)
      requires Valid() && n > 0 && cachedstart <= curpos
      modifies this`cached, this`curpos, this`cachedend
      ensures Valid() && curpos == old(curpos) + n && cached == old(cached) + Span(old(curpos), n)
      ensures cachedend == if old(cachedend) > curpos then old(cachedend) else curpos
    {
      ghost var was, end := cached, cachedend;
      cached := cached + Span(curpos, n);
      curpos := curpos + n;
      cachedend := if cachedend > curpos then cachedend else curpos;
      AddInside(was, cachedstart, end, curpos - n, n, cachedend);
    }

    // Reads up to size bytes; got is what the system gives, 0 at the end of the file, negative for an error.
    method Read(size: nat, got: int) returns (bytesRead: int)
      requires Valid() && got <= size
      modifies this
      ensures Valid() && open == old(open)
      ensures bytesRead == if open then got else -1
      ensures curpos == (if open && got > 0 then old(curpos) + got else old(curpos))
      ensures if open then lastpos == curpos else cached == old(cached)
      ensures cached <= old(cached) + Span(old(curpos), bytesRead) + Span(curpos, old(readahead))
      ensures open ==> cachedstart >= old(Start())
      ensures cachedend <= old(cachedend) || cachedend <= curpos || cachedend <= ahead
      ensures bytesRead > 0 ==>
        var jumped := old(curpos - lastpos);
        && ahead == NewAhead(curpos, jumped, old(ahead), old(readahead))
        && readahead == Tuned(jumped, size, old(readahead))
      // Whoever reads on has at least half of the read-ahead in front of him, and nothing more is asked for
      // before that is used up; behind a jump nothing is.
      ensures bytesRead > 0 && 0 <= old(curpos - lastpos) <= old(readahead) ==>
        && ahead - curpos >= old(readahead) / 2 && readahead >= 32 * size && readahead >= old(readahead)
        && (ahead != old(ahead) ==> ahead == curpos + old(readahead))
      ensures bytesRead > 0 && !(0 <= old(curpos - lastpos) <= old(readahead)) ==>
        ahead == curpos && readahead == old(readahead)
      ensures bytesRead > 0 && (!(0 <= old(curpos - lastpos) <= old(readahead)) || ahead == old(ahead)) ==>
        cached <= old(cached) + Span(old(curpos), bytesRead)
      // A position outside of the window leaves nothing of it.
      ensures open && old(cachedstart < cachedend && (curpos < cachedstart || curpos > cachedend)) ==>
        cachedstart >= old(curpos) && cached <= Span(old(curpos), bytesRead) + Span(curpos, old(readahead))
      ensures bytesRead > 0 ==> Bounded() && curpos - cachedstart <= 0x100_0000
      // What lies within 8 MB of the position, but for a page, stays.
      ensures bytesRead > 0 && old(cachedstart) >= 4095 && old(curpos) >= 4095 ==>
        && (forall b :: b in Span(old(curpos), got) && b >= curpos - 0x80_0000 + 4095 ==> b in cached)
        && (ahead != old(ahead) ==>
            forall b :: b in Span(curpos, ahead - curpos) && b <= curpos + 0x80_0000 - 4096 ==> b in cached)
        && (old(cachedstart <= curpos <= cachedend) ==>
            forall b :: b in old(cached) && curpos - 0x80_0000 + 4095 <= b <= curpos + 0x80_0000 - 4096 ==> b in cached)
      ensures bytesRead > 0 && (old(Start()) >= PAGE - 1 || curpos - old(Start()) <= 2 * READCHUNK) ==>
        Keeps(Span(old(curpos), got)) && (old(Near()) ==> Keeps(old(cached)))
    {
      if !open { return -1; }
      hide Span, NewAhead, Tuned, Bounded;
      var jumped := curpos - lastpos;
      Invalidate();
      bytesRead := got;
      if bytesRead > 0 {
        TakeIn(bytesRead);
        AskAhead(jumped, size);
      }
      Shrink();
      lastpos := curpos;
    }
  }
}
