/** Whole runs of the flash engine: resumed erases, retried and chunked writes, and the round trip. */
module FlashRuns {
  import opened Words
  import opened Errors
  import opened ErasePlan
  import opened NorContent
  import opened WritePlan
  import opened NorDevice
  import opened Flash

  /** Where an erase run that began at (addr, size) stands after n commands. */
  ghost predicate Resumable(s0: Snap, s: Snap, addr: nat, size: nat, n: nat, next: nat, left: nat) {
    var plan, (a, l) := Plan(addr, size), CursorAfter(addr, size, n);
    && n <= |plan| && next == Wrap(a) && left == l && a + l <= 0x1_0000_0000
    && s.erases == s0.erases + plan[..n]
    && s.settled == EraseAll(s0.settled, plan[..n])
  }

  lemma ResumableStep(s0: Snap, s: Snap, s': Snap, addr: nat, size: nat, n: nat, next: nat, left: nat)
    requires Resumable(s0, s, addr, size, n, next, left) && left > 0
    requires s'.erases == s.erases + [First(next, left)]
    requires s'.settled == Filled(s.settled, First(next, left).addr, First(next, left).Size())
    requires addr % SECTOR == 0
    ensures next + First(next, left).Size() <= 0x1_0000_0000 ==>
              Resumable(s0, s', addr, size, n + 1, Wrap(next + First(next, left).Size()), Rest(next, left))
  {
    hide EraseAll, Filled, Plan, RoundUp, First, Tiles;
    var plan := Plan(addr, size);
    var (a, l) := CursorAfter(addr, size, n);
    ResumableAligned(s0, s, addr, size, n, next, left);
    CursorStep(addr, size, n);
    EraseAllAppend(s0.settled, plan[..n], plan[n]);
    assert plan[..n + 1] == plan[..n] + [plan[n]];
  }

  /** A run with something left stands at a sector and has a command to come. */
  lemma ResumableAligned(s0: Snap, s: Snap, addr: nat, size: nat, n: nat, next: nat, left: nat)
    requires Resumable(s0, s, addr, size, n, next, left) && left > 0 && addr % SECTOR == 0
    ensures next % SECTOR == 0 && n < |Plan(addr, size)|
    ensures (next, left) == CursorAfter(addr, size, n)
  {
    hide EraseAll, Filled, Plan, RoundUp, First, Tiles;
    var (a, l) := CursorAfter(addr, size, n);
    assert a == next && l == left;
    PrefixTiles(addr, size, n);
    EmptyPlan(next, left);
    assert Plan(addr, size)[n..] != [];
  }

  /**
   * A caller that keeps asking for the next erase with any timeouts, whatever the device
   * answers: the commands issued are the plan up to the cursors, and once nothing is left
   * the region, rounded up to whole sectors, will read 0xFF and nothing else has changed.
   * With a device that is always idle within the limit and refuses nothing, as many calls
   * as the plan has commands leave nothing to erase.
   */
  method KeepErasing(lib: FlashLib, next: Cursor, remaining: Cursor, timeouts: seq<nat>, ghost limit: nat)
    requires lib.Valid() && next != remaining && next.v % SECTOR == 0 && next.v + remaining.v <= lib.dev.size
    modifies next, remaining, lib.dev
    ensures lib.Valid()
    ensures var plan, n := Plan(old(next.v), old(remaining.v)), |lib.dev.erases| - |old(lib.dev.erases)|;
            && 0 <= n <= |plan| && lib.dev.erases == old(lib.dev.erases) + plan[..n]
            && Tiles(plan[..n], old(next.v), CursorAfter(old(next.v), old(remaining.v), n).0)
            && next.v == Wrap(CursorAfter(old(next.v), old(remaining.v), n).0)
            && remaining.v == CursorAfter(old(next.v), old(remaining.v), n).1
            && lib.dev.Settled() == EraseAll(old(lib.dev.Settled()), plan[..n])
    ensures remaining.v > 0 ==> next.v as int + remaining.v as int == old(next.v as int + remaining.v as int)
    ensures remaining.v == 0 ==>
              && lib.dev.erases == old(lib.dev.erases) + Plan(old(next.v), old(remaining.v))
              && lib.dev.Settled() == Filled(old(lib.dev.Settled()), old(next.v), RoundUp(old(remaining.v)))
    ensures && old(lib.dev.busy) < limit && (forall i :: lib.dev.answers.timing(i) < limit)
            && (lib.large ==> forall i :: !lib.dev.answers.refuses(i))
            && (forall i :: 0 <= i < |timeouts| ==> timeouts[i] >= limit)
            && |timeouts| >= |Plan(old(next.v), old(remaining.v))|
            ==> remaining.v == 0
  {
    hide Plan, First, Rest, Filled, EraseAll, Tiles, CursorAfter, Resumable, RoundUp;
    ghost var addr: nat, size: nat := next.v, remaining.v;
    ghost var s0, n := lib.Now(), 0;
    ghost var smooth := && lib.dev.busy < limit && (forall i :: lib.dev.answers.timing(i) < limit)
                        && (lib.large ==> forall i :: !lib.dev.answers.refuses(i))
                        && (forall i :: 0 <= i < |timeouts| ==> timeouts[i] >= limit);
    ResumableStart(s0, addr, size);
    for i := 0 to |timeouts|
      invariant lib.Valid() && Resumable(s0, lib.Now(), addr, size, n, next.v, remaining.v)
      invariant next.v + remaining.v <= lib.dev.size
      invariant remaining.v > 0 ==> next.v as int + remaining.v as int == addr + size
      invariant smooth ==> lib.dev.busy < limit && (remaining.v > 0 ==> n == i)
    {
      ghost var s, a, left := lib.Now(), next.v, remaining.v;
      if left > 0 { ResumableAligned(s0, s, addr, size, n, a, left); }
      var st := lib.StartNextErase(next, remaining, timeouts[i]);
      if st == Ok && left > 0 {
        ResumableStep(s0, s, lib.Now(), addr, size, n, a, left);
        StaysInside(a, left, lib.dev.size);
        n := n + 1;
      } else {
        ResumableSame(s0, s, lib.Now(), addr, size, n, a, left);
      }
    }
    ResumableEnd(s0, lib.Now(), addr, size, n, next.v, remaining.v);
    if remaining.v > 0 { ResumableAligned(s0, lib.Now(), addr, size, n, next.v, remaining.v); }
  }

  lemma ResumableStart(s: Snap, addr: nat, size: nat)
    requires addr + size <= 0x1_0000_0000 && addr < 0x1_0000_0000
    ensures Resumable(s, s, addr, size, 0, addr, size)
  {
  }

  lemma ResumableSame(s0: Snap, s: Snap, s': Snap, addr: nat, size: nat, n: nat, next: nat, left: nat)
    requires Resumable(s0, s, addr, size, n, next, left)
    requires s'.erases == s.erases && s'.settled == s.settled
    ensures Resumable(s0, s', addr, size, n, next, left)
  {
  }

  lemma StaysInside(a: nat, left: nat, size: nat)
    requires left > 0 && a % SECTOR == 0 && a + left <= size <= 0x1_0000_0000 && size % SECTOR == 0
    ensures a + First(a, left).Size() <= 0x1_0000_0000
    ensures Wrap(a + First(a, left).Size()) + Rest(a, left) <= size
    ensures Rest(a, left) > 0 ==> Wrap(a + First(a, left).Size()) + Rest(a, left) == a + left
  {
    AlignedFits(a, left, size);
  }

  lemma ResumableEnd(s0: Snap, s: Snap, addr: nat, size: nat, n: nat, next: nat, left: nat)
    requires Resumable(s0, s, addr, size, n, next, left) && addr % SECTOR == 0
    ensures var plan := Plan(addr, size);
            && n <= |plan| && n == |s.erases| - |s0.erases| && s.erases == s0.erases + plan[..n]
            && Tiles(plan[..n], addr, CursorAfter(addr, size, n).0)
            && next == Wrap(CursorAfter(addr, size, n).0) && left == CursorAfter(addr, size, n).1
            && s.settled == EraseAll(s0.settled, plan[..n])
    ensures left == 0 ==> s.erases == s0.erases + Plan(addr, size) && s.settled == Filled(s0.settled, addr, RoundUp(size))
  {
    hide EraseAll, Filled, Plan, RoundUp, First, Rest, Tiles;
    var plan := Plan(addr, size);
    PrefixTiles(addr, size, n);
    if left == 0 {
      EmptyPlan(CursorAfter(addr, size, n).0, 0);
      assert plan[..n] == plan by { assert plan[n..] == []; }
      PlanTiles(addr, size);
      TilesFill(s0.settled, plan, addr, addr + RoundUp(size));
    }
  }

  // ---- Writes

  /**
   * A caller that retries a failing write: after the first success the flash is as after a
   * single good write, and until then between the old and the intended contents. Every
   * failed attempt uses up a call, so a device that stops failing at some call is written
   * by as many attempts.
   */
  method RetryWrite(lib: FlashLib, addr: uint32, buffer: seq<byte>, attempts: nat, ghost good: nat) returns (st: Status)
    requires lib.Valid() && |buffer| <= UINT32_MAX && addr + |buffer| <= lib.dev.size
    modifies lib.dev
    ensures lib.Valid()
    ensures st == Ok ==> lib.dev.Settled() == Program(old(lib.dev.Settled()), addr, buffer)
    ensures st != Ok ==> Between(Program(old(lib.dev.Settled()), addr, buffer), lib.dev.Settled(), old(lib.dev.Settled()))
    ensures && attempts > 0 && old(lib.dev.written) + attempts > good
            && (forall i: nat :: good <= i ==> lib.dev.answers.writes(i))
            ==> st == Ok
  {
    hide Program, Between, FailedAttempts, WriteOps;
    st := Fail;
    ghost var states := [lib.dev.Settled()];
    FirstAttempt(lib.dev.Settled(), addr, buffer);
    for i := 0 to attempts
      invariant lib.Valid() && states != [] && FailedAttempts(states, addr, buffer)
      invariant states[0] == old(lib.dev.Settled()) && states[|states| - 1] == lib.dev.Settled()
      invariant st != Ok && lib.dev.written >= old(lib.dev.written) + i
      invariant i > 0 && (forall i: nat :: good <= i ==> lib.dev.answers.writes(i)) ==> old(lib.dev.written) + i <= good
    {
      st := lib.WriteBuff(addr, buffer, false);
      if st == Ok {
        RetriesConverge(states, addr, buffer);
        return;
      }
      NextAttempt(states, lib.dev.Settled(), addr, buffer);
      states := states + [lib.dev.Settled()];
    }
    AttemptsBetween(states, addr, buffer);
  }

  /** Failed attempts do not leave the way from the old to the intended contents. */
  lemma {:induction false} AttemptsBetween(states: seq<seq<byte>>, addr: nat, data: seq<byte>)
    requires FailedAttempts(states, addr, data)
    ensures Between(Program(states[0], addr, data), states[|states| - 1], states[0])
  {
    hide Program, Between;
    var n := |states| - 1;
    ProgramBetween(states[0], addr, data);
    if n > 0 {
      AttemptsBetween(states[..n], addr, data);
      RetriesConverge(states[..n], addr, data);
      Reflexive(states[0]);
      BetweenShrinks(Program(states[0], addr, data), Program(states[0], addr, data), states[n], states[n - 1], states[0]);
    }
  }

  lemma NextAttempt(states: seq<seq<byte>>, x: seq<byte>, addr: nat, data: seq<byte>)
    requires FailedAttempts(states, addr, data)
    requires Between(Program(states[|states| - 1], addr, data), x, states[|states| - 1])
    ensures FailedAttempts(states + [x], addr, data)
  {
    hide Program, Between;
  }

  lemma FirstAttempt(cells: seq<byte>, addr: nat, data: seq<byte>)
    ensures FailedAttempts([cells], addr, data)
  {
  }

  /** A caller that writes a buffer in consecutive pieces, cut anywhere; it succeeds unless a call of the device fails. */
  method WritePieces(lib: FlashLib, addr: uint32, pieces: seq<seq<byte>>) returns (st: Status)
    requires lib.Valid() && addr + |Flatten(pieces)| <= lib.dev.size
    requires forall p :: p in pieces ==> |p| <= UINT32_MAX
    modifies lib.dev
    ensures lib.Valid()
    ensures st == Ok ==> lib.dev.Settled() == Program(old(lib.dev.Settled()), addr, Flatten(pieces))
    ensures (forall i: nat :: old(lib.dev.written) <= i ==> lib.dev.answers.writes(i)) ==> st == Ok
  {
    hide Program, ProgramAll, WriteOps, Flatten, Between, WriteChunks;
    ghost var cells := lib.dev.Settled();
    var at: nat := addr;
    st := Ok;
    ghost var end := addr + |Flatten(pieces)|;
    for i := 0 to |pieces|
      invariant lib.Valid() && st == Ok && lib.dev.written >= old(lib.dev.written)
      invariant at + |Flatten(pieces[i..])| == end
      invariant WriteChunks(lib.dev.Settled(), at, pieces[i..]) == WriteChunks(cells, addr, pieces)
    {
      ghost var before := lib.dev.Settled();
      PiecesStep(before, at, pieces[i..]);
      assert pieces[i..][0] == pieces[i] && pieces[i..][1..] == pieces[i + 1..];
      st := WritePiece(lib, at, pieces[i]);
      if st != Ok {
        return;
      }
      at := at + |pieces[i]|;
    }
    assert pieces[|pieces|..] == [];
    NoPieces(lib.dev.Settled(), at);
    ChunkingIndependent(cells, addr, pieces);
    WriteRefines(cells, addr, Flatten(pieces));
  }

  /** One piece; an empty one may stand at the end of the address space. */
  method WritePiece(lib: FlashLib, at: nat, piece: seq<byte>) returns (st: Status)
    requires lib.Valid() && at + |piece| <= lib.dev.size && |piece| <= UINT32_MAX
    modifies lib.dev
    ensures lib.Valid() && lib.dev.written >= old(lib.dev.written)
    ensures st == Ok ==> lib.dev.Settled() == ProgramAll(old(lib.dev.Settled()), WriteOps(at, piece))
    ensures (forall i: nat :: old(lib.dev.written) <= i ==> lib.dev.answers.writes(i)) ==> st == Ok
  {
    hide Program, ProgramAll, WriteOps, Between;
    WriteRefines(lib.dev.Settled(), at, piece);
    if |piece| > 0 {
      st := lib.WriteBuff(at, piece, false);
    } else {
      ProgramNothing(lib.dev.Settled(), at);
      st := Ok;
    }
  }

  lemma PiecesStep(cells: seq<byte>, at: nat, pieces: seq<seq<byte>>)
    requires pieces != []
    ensures WriteChunks(cells, at, pieces) == WriteChunks(ProgramAll(cells, WriteOps(at, pieces[0])), at + |pieces[0]|, pieces[1..])
    ensures |Flatten(pieces)| == |pieces[0]| + |Flatten(pieces[1..])|
  {
  }

  lemma NoPieces(cells: seq<byte>, at: nat)
    ensures WriteChunks(cells, at, []) == cells && Flatten([]) == []
  {
  }

  // ---- Erase, write, read

  /** The bytes of an erased area after a write inside it. */
  function Expected(areaStart: nat, areaSize: nat, addr: nat, data: seq<byte>): seq<byte> {
    seq(areaSize, i requires 0 <= i => if addr <= areaStart + i < addr + |data| then data[areaStart + i - addr] else 0xFF)
  }

  lemma OnesAnd(d: byte)
    ensures Both(0xFF, d) == d
  {
  }

  lemma ErasedThenWritten(cells: seq<byte>, areaStart: nat, areaSize: nat, addr: nat, data: seq<byte>)
    requires areaStart + areaSize <= |cells|
    ensures Program(Filled(cells, areaStart, areaSize), addr, data)[areaStart..areaStart + areaSize]
         == Expected(areaStart, areaSize, addr, data)
  {
    hide Both;
    forall i | 0 <= i < areaSize
      ensures Program(Filled(cells, areaStart, areaSize), addr, data)[areaStart + i] == Expected(areaStart, areaSize, addr, data)[i]
    {
      if addr <= areaStart + i < addr + |data| { OnesAnd(data[areaStart + i - addr]); }
    }
  }

  /**
   * Erase an area, write inside it and read it back, in either addressing mode. The three
   * succeed together exactly when the area is whole sectors and the device does what it is
   * asked in time; then the read shows the written bytes and 0xFF around them.
   */
  method RoundTrip(lib: FlashLib, areaStart: uint32, areaSize: uint32, addr: uint32, data: seq<byte>, buffer: array<byte>)
    returns (st: Status)
    requires lib.Valid() && areaStart + areaSize <= lib.dev.size && areaSize <= buffer.Length
    requires areaStart <= addr && addr + |data| <= areaStart + areaSize
    modifies lib.dev, buffer
    ensures lib.Valid()
    ensures st == Ok ==> forall i :: 0 <= i < areaSize ==>
              buffer[i] == if addr <= areaStart + i < addr + |data| then data[areaStart + i - addr] else 0xFF
    ensures st == Ok ==> lib.dev.Settled() == Program(Filled(old(lib.dev.Settled()), areaStart, areaSize), addr, data)
    ensures var answers := lib.dev.answers;
            st == Ok <==>
              && areaStart % 0x1000 == 0 && areaSize % 0x1000 == 0
              && old(lib.dev.busy) < 1_000_000
              && (forall i: nat :: old(lib.dev.issued) <= i < old(lib.dev.issued) + |Plan(areaStart, areaSize)| ==>
                    answers.timing(i) < 1_000_000)
              && (lib.large ==> forall i: nat :: old(lib.dev.offered) <= i < old(lib.dev.offered) + |Plan(areaStart, areaSize)| ==>
                    !answers.refuses(i))
              && (forall i: nat :: old(lib.dev.written) <= i < old(lib.dev.written) + |WriteOps(addr, data)| ==> answers.writes(i))
              && answers.fetches(old(lib.dev.fetched))
  {
    hide Program, Filled, Expected, Between, EraseAll, Plan, WriteOps, FirstTrouble, InTime, Accepted, Both, First, Rest;
    ghost var cells := lib.dev.Settled();
    SettledSize(lib.dev);
    st := lib.EraseArea(areaStart, areaSize);
    if st != Ok {
      return;
    }
    st := lib.WriteBuff(addr, data, false);
    if st != Ok {
      return;
    }
    SectorsAreWords(areaStart);
    SectorsAreWords(areaSize);
    st := lib.ReadBuff(areaStart, buffer, areaSize);
    ErasedThenWritten(cells, areaStart, areaSize, addr, data);
    ExpectedBytes(areaStart, areaSize, addr, data);
  }

  lemma SectorsAreWords(x: nat)
    requires x % SECTOR == 0
    ensures x % 4 == 0
  {
    assert x == 4 * (1024 * (x / SECTOR));
  }

  lemma ExpectedBytes(areaStart: nat, areaSize: nat, addr: nat, data: seq<byte>)
    ensures |Expected(areaStart, areaSize, addr, data)| == areaSize
    ensures forall i :: 0 <= i < areaSize ==>
              Expected(areaStart, areaSize, addr, data)[i] ==
                if addr <= areaStart + i < addr + |data| then data[areaStart + i - addr] else 0xFF
  {
  }
}
