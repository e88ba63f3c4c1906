/** src/mmu.c: reading flash through a temporary MMU mapping. */
module Mmu {
  import opened Words
  import opened BitUtils
  import opened Errors
  import opened SocModel
  import opened MmuPlan
  import opened Borrowing

  // The hardware calls of one read, in order.

  function InvalidateLog(c: Chip, lo: nat, size: nat): seq<Command> {
    if c.invalidatesByAddr then [InvalidateAddr(lo, size)] else [WritebackAll, InvalidateAll]
  }

  function ReadsLog(start: nat, n: nat): seq<Command> {
    seq(n, i requires 0 <= i => Read(start + i))
  }

  function WritesLog(start: nat, page: nat, n: nat): seq<Command> {
    seq(n, i requires 0 <= i => Write(start + i, Wrap(page + i)))
  }

  function RestoresLog(start: nat, raws: seq<uint32>): seq<Command> {
    seq(|raws|, i requires 0 <= i < |raws| => Restore(start + i, raws[i]))
  }

  lemma RestoresStep(start: nat, raws: seq<uint32>, i: nat)
    ensures RestoresLog(start, raws[..0]) == []
    ensures i < |raws| ==> RestoresLog(start, raws[..i + 1]) == RestoresLog(start, raws[..i]) + [Restore(start + i, raws[i])]
  {
  }

  function LoadsLog(v: nat, n: nat): seq<Command> {
    seq(n, i requires 0 <= i => Load(v + i))
  }

  function MapLog(c: Chip, m: Plan): seq<Command>
    requires m.Mapped?
  {
    [Stop] + ReadsLog(m.entryStart, m.count) + WritesLog(m.entryStart, m.flashPage, m.count)
    + InvalidateLog(c, m.vaddrBase, c.Bytes(m.count)) + [Start]
  }

  function UnmapLog(c: Chip, m: Plan, raws: seq<uint32>): seq<Command>
    requires m.Mapped?
  {
    [Stop] + RestoresLog(m.entryStart, raws) + InvalidateLog(c, m.vaddrBase, c.Bytes(m.count)) + [Start]
  }

  function ReadLog(c: Chip, m: Plan, size: nat, raws: seq<uint32>): seq<Command>
    requires m.Mapped?
  {
    MapLog(c, m) + LoadsLog(m.vaddrBase + m.offset, size) + UnmapLog(c, m, raws)
  }

  lemma ReadLogParts(c: Chip, m: Plan, size: nat, raws: seq<uint32>, log: seq<Command>)
    requires m.Mapped?
    ensures log + MapLog(c, m) + LoadsLog(m.vaddrBase + m.offset, size) + UnmapLog(c, m, raws) == log + ReadLog(c, m, size, raws)
  {
    hide MapLog, LoadsLog, UnmapLog;
  }

  /**
   * The hardware calls of a read, phase by phase: the entries are saved before they are
   * rewritten, the stale lines go before the cache starts again, every byte is loaded once
   * and in order, and the saved values come back. A chip with the capability is only ever
   * asked to invalidate by address, any other one writes everything back first.
   */
  lemma ReadPhases(c: Chip, m: Plan, size: nat, raws: seq<uint32>)
    returns (saves: seq<Command>, writes: seq<Command>, flush: seq<Command>, loads: seq<Command>, restores: seq<Command>)
    requires m.Mapped? && |raws| == m.count
    ensures ReadLog(c, m, size, raws)
         == [Stop] + saves + writes + flush + [Start] + loads + ([Stop] + restores + flush + [Start])
    ensures |saves| == |writes| == |restores| == m.count && |loads| == size
    ensures forall k: nat :: k < m.count ==> saves[k] == Read(m.entryStart + k)
    ensures forall k: nat :: k < m.count ==> writes[k] == Write(m.entryStart + k, Wrap(m.flashPage + k))
    ensures flush == if c.invalidatesByAddr then [InvalidateAddr(m.vaddrBase, c.Bytes(m.count))] else [WritebackAll, InvalidateAll]
    ensures forall k: nat :: k < size ==> loads[k] == Load(m.vaddrBase + m.offset + k)
    ensures forall k: nat :: k < m.count ==> restores[k] == Restore(m.entryStart + k, raws[k])
  {
    saves, writes := ReadsLog(m.entryStart, m.count), WritesLog(m.entryStart, m.flashPage, m.count);
    flush := InvalidateLog(c, m.vaddrBase, c.Bytes(m.count));
    loads, restores := LoadsLog(m.vaddrBase + m.offset, size), RestoresLog(m.entryStart, raws);
  }

  /** A chip that can invalidate by address never gets a whole-cache call, and one that cannot never gets the other. */
  lemma InvalidationByCapability(c: Chip, m: Plan, size: nat, raws: seq<uint32>)
    requires m.Mapped?
    ensures c.invalidatesByAddr ==> forall x :: x in ReadLog(c, m, size, raws) ==> !x.WritebackAll? && !x.InvalidateAll?
    ensures !c.invalidatesByAddr ==> forall x :: x in ReadLog(c, m, size, raws) ==> !x.InvalidateAddr?
  {
    hide Chip.Bytes;
  }

  /** Cells of the window are clean copies of the flash bytes they now map to. */
  ghost predicate Fetched(c: Chip, flash: seq<byte>, h: Hw, lo: nat, base: nat)
    requires c.dromStart <= c.dromEnd
  {
    forall v: nat :: v in h.cache && InWindow(c, lo, v) ==> h.cache[v] == Cell(At(flash, base + (v - lo)), false)
  }

  /** The borrowed entries map n consecutive flash pages. */
  ghost predicate MapsFlash(c: Chip, t: seq<uint32>, start: nat, page: nat, n: nat) {
    && start + n <= |t|
    && (forall e: nat :: start <= e < start + n ==> t[e] == c.encode(Wrap(page + (e - start))))
  }

  /** The plan borrows the last entries and fits the page arithmetic. */
  ghost predicate PlanShape(c: Chip, entries: nat, flashSize: nat, m: Plan)
    requires m.Mapped?
  {
    && Window(c, entries, flashSize, m.entryStart, m.vaddrBase)
    && m.entryStart + m.count == c.dromEnd <= entries && m.count <= MAX_PAGES
    && m.vaddrBase + c.Bytes(m.count) == c.DromTop()
  }

  lemma PlanFits(c: Chip, entries: nat, flashSize: nat, addr: uint32, size: uint32)
    requires c.Valid(entries, flashSize) && MapPlan(c, addr, size).Mapped?
    ensures PlanShape(c, entries, flashSize, MapPlan(c, addr, size))
  {
    WindowShape(c, entries, flashSize, addr, size);
  }

  /** An accepted request that does not wrap and lies in the flash maps existing pages and stays in its window. */
  lemma AcceptedPlan(c: Chip, entries: nat, flashSize: nat, addr: uint32, size: uint32)
    requires c.Valid(entries, flashSize)
    requires MapPlan(c, addr, size).Mapped? ==> !SumWraps(c.pageSize, addr, size) && addr + size <= flashSize
    ensures var m := MapPlan(c, addr, size);
            PagesExist(c, m, flashSize) && (m.Mapped? ==>
              && PlanShape(c, entries, flashSize, m) && m.count > 0
              && c.Bytes(m.flashPage) + m.offset == addr
              && m.vaddrBase + m.offset + size <= c.DromTop())
  {
    var m := MapPlan(c, addr, size);
    if m.Mapped? {
      WindowShape(c, entries, flashSize, addr, size);
      RequestFits(c, addr, size);
      MulSum(m.flashPage, m.count - 1, c.pageSize);
      ShiftIsLog(c.pageSize);
      QuotientBelow(c.Bytes(m.flashPage), c.pageSize, m.flashPage);
    }
  }

  lemma NothingFetched(c: Chip, flash: seq<byte>, h: Hw, lo: nat, base: nat)
    requires c.dromStart <= c.dromEnd && forall v: nat :: v in h.cache ==> !InWindow(c, lo, v)
    ensures Fetched(c, flash, h, lo, base)
  {
  }

  lemma FetchedHarmless(c: Chip, flash: seq<byte>, h: Hw, lo: nat, base: nat)
    requires c.dromStart <= c.dromEnd && Fetched(c, flash, h, lo, base)
    ensures WindowHarmless(c, h, lo)
  {
  }

  /** Rewriting the table touches neither PSRAM nor the cache. */
  lemma KeptAnyTable(c: Chip, flash: seq<byte>, h0: Hw, h: Hw, h': Hw, lo: nat, base: nat)
    requires c.dromStart <= c.dromEnd && h'.psram == h.psram && h'.cache == h.cache
    requires Kept(c, h0, h, lo) && Fetched(c, flash, h, lo, base)
    ensures Kept(c, h0, h', lo) && Fetched(c, flash, h', lo, base)
  {
  }

  lemma BorrowedTable(c: Chip, before: seq<uint32>, t: seq<uint32>, start: nat, n: nat)
    requires |t| == |before| && start + n == c.dromEnd <= |t|
    requires t[..start] == before[..start] && t[start + n..] == before[start + n..]
    ensures Remapped(c, before, t, start)
  {
    forall e: nat | e < |t| && !(start <= e < c.dromEnd)
      ensures t[e] == before[e]
    {
      if e < start {
        assert t[e] == t[..start][e];
      } else {
        assert t[e] == t[start + n..][e - (start + n)];
      }
    }
  }

  lemma SameTable(c: Chip, t: seq<uint32>, start: nat)
    ensures Remapped(c, t, t, start)
  {
  }

  lemma TableReturned(c: Chip, before: seq<uint32>, t: seq<uint32>, t': seq<uint32>, start: nat, n: nat)
    requires |t| == |before| == |t'| && start + n == c.dromEnd <= |t|
    requires Remapped(c, before, t, start)
    requires t'[..start] == t[..start] && t'[start + n..] == t[start + n..]
    requires t'[start..start + n] == before[start..start + n]
    ensures t' == before
  {
    BorrowedTable(c, t, t', start, n);
    forall e: nat | e < |t|
      ensures t'[e] == before[e]
    {
      if start <= e < c.dromEnd { assert t'[e] == t'[start..start + n][e - start]; }
    }
  }

  /** Every page that the plan maps starts inside the flash. */
  predicate PagesExist(c: Chip, m: Plan, flashSize: nat) {
    m.Mapped? ==> m.flashPage + m.count < 0x1_0000_0000 && (m.count > 0 ==> c.Bytes(m.flashPage + m.count - 1) < flashSize)
  }

  /** Through the borrowed entries the window is a consecutive stretch of flash. */
  lemma WindowFlash(c: Chip, entries: nat, flashSize: nat, t: seq<uint32>, start: nat, lo: nat, page: nat, n: nat, v: nat)
    requires Window(c, entries, flashSize, start, lo) && start + n == c.dromEnd
    requires MapsFlash(c, t, start, page, n) && page + n < 0x1_0000_0000
    requires n > 0 ==> c.Bytes(page + n - 1) < flashSize
    requires InWindow(c, lo, v)
    ensures Translate(c, t, v) == FlashAt(c.Bytes(page) + (v - lo))
  {
    hide Chip.Bytes, Chip.DromSlot;
    WindowBus(c, entries, flashSize, start, lo, v);
    var i := c.bus(v).entry - start;
    BytesSum(c, page + i, n - 1 - i);
    BytesSum(c, page, i);
    assert c.decode(c.encode(Wrap(page + i))) == Flash(c.Bytes(page + i));
  }

  /** What a load brings into the cache is a clean copy of the flash behind the window. */
  lemma LoadFetches(c: Chip, entries: nat, flash: seq<byte>, h: Hw, h': Hw, v: nat, s: set<nat>, m: Plan)
    requires m.Mapped? && Window(c, entries, |flash|, m.entryStart, m.vaddrBase)
    requires m.entryStart + m.count == c.dromEnd && PagesExist(c, m, |flash|)
    requires MapsFlash(c, h.table, m.entryStart, m.flashPage, m.count)
    requires Fetched(c, flash, h, m.vaddrBase, c.Bytes(m.flashPage))
    requires InWindow(c, m.vaddrBase, v) && Loaded(c, flash, h, h', v, s)
    ensures Fetched(c, flash, h', m.vaddrBase, c.Bytes(m.flashPage))
    ensures Stepped(c, h, h', s, m.vaddrBase)
  {
    hide Chip.Bytes, Chip.Valid, MapsFlash, Translate, WroteBack;
    forall w: nat | w in h'.cache && !(w in h.cache && w !in s && h'.cache[w] == h.cache[w])
      ensures InWindow(c, m.vaddrBase, w)
      ensures h'.cache[w] == Cell(At(flash, c.Bytes(m.flashPage) + (w - m.vaddrBase)), false)
    {
      LineInWindow(c, entries, |flash|, m.entryStart, m.vaddrBase, v, w);
      WindowFlash(c, entries, |flash|, h'.table, m.entryStart, m.vaddrBase, m.flashPage, m.count, w);
    }
  }

  /** A load from the window leaves the mapping and the rest of the machine as they were. */
  lemma LoadKept(c: Chip, entries: nat, flash: seq<byte>, h0: Hw, h: Hw, h': Hw, v: nat, s: set<nat>, m: Plan)
    requires m.Mapped? && Window(c, entries, |flash|, m.entryStart, m.vaddrBase)
    requires m.entryStart + m.count == c.dromEnd && PagesExist(c, m, |flash|)
    requires Sound(c, flash, h0) && Kept(c, h0, h, m.vaddrBase) && Remapped(c, h0.table, h.table, m.entryStart)
    requires MapsFlash(c, h.table, m.entryStart, m.flashPage, m.count)
    requires Fetched(c, flash, h, m.vaddrBase, c.Bytes(m.flashPage))
    requires InWindow(c, m.vaddrBase, v) && Loaded(c, flash, h, h', v, s)
    ensures Kept(c, h0, h', m.vaddrBase) && Fetched(c, flash, h', m.vaddrBase, c.Bytes(m.flashPage))
    ensures v in h'.cache && h'.cache[v].value == At(flash, c.Bytes(m.flashPage) + (v - m.vaddrBase))
  {
    hide Chip.Bytes, Chip.Valid, Sound, Kept, Remapped, MapsFlash, WroteBack, Stepped, WindowHarmless;
    LoadFetches(c, entries, flash, h, h', v, s, m);
    FetchedHarmless(c, flash, h, m.vaddrBase, c.Bytes(m.flashPage));
    StepKept(c, entries, flash, h0, h, h', s, m.entryStart, m.vaddrBase);
  }

  /** Just after the rewrite of the table: nothing else moved, and no dirty cell of the window can reach PSRAM. */
  lemma BorrowKept(c: Chip, entries: nat, flash: seq<byte>, h0: Hw, h: Hw, m: Plan)
    requires m.Mapped? && Window(c, entries, |flash|, m.entryStart, m.vaddrBase)
    requires m.entryStart + m.count == c.dromEnd && PagesExist(c, m, |flash|)
    requires Sound(c, flash, h0) && h.psram == h0.psram && h.cache == h0.cache
    requires Remapped(c, h0.table, h.table, m.entryStart)
    requires MapsFlash(c, h.table, m.entryStart, m.flashPage, m.count)
    ensures Kept(c, h0, h, m.vaddrBase) && WindowHarmless(c, h, m.vaddrBase) && OneOwner(c, h)
  {
    forall v: nat | InWindow(c, m.vaddrBase, v) && Dirty(h, v)
      ensures !Translate(c, h.table, v).PsramAt?
    {
      WindowFlash(c, entries, |flash|, h.table, m.entryStart, m.vaddrBase, m.flashPage, m.count, v);
    }
    KeptOneOwner(c, entries, flash, h0, h, m.entryStart, m.vaddrBase);
  }

  class MmuReader {
    const soc: Soc
    // s_mmap_state
    var vaddrBase: nat
    var entryStart: nat
    var pageCount: nat
    const saved: array<uint32>

    ghost predicate Valid() {
      soc.Valid() && soc.chip.dromStart <= soc.chip.dromEnd && saved.Length == MAX_PAGES && saved != soc.table
    }

    /** No mapping is active and the cache runs. */
    ghost predicate Idle()
      reads this, soc
    {
      pageCount == 0 && soc.running
    }

    constructor (soc: Soc)
      requires soc.Valid()
      ensures Valid() && this.soc == soc && pageCount == 0 && fresh(saved)
    {
      this.soc := soc;
      vaddrBase, entryStart, pageCount := 0, 0, 0;
      saved := new uint32[MAX_PAGES](_ => 0);
    }

    /** mmu_invalidate_region. */
    method InvalidateWindow(vaddr: nat, size: nat, ghost start: nat) returns (ghost s: set<nat>)
      requires Valid() && !soc.running
      requires Window(soc.chip, soc.table.Length, |soc.flash|, start, vaddr) && vaddr + size == soc.chip.DromTop()
      requires OneOwner(soc.chip, soc.Snapshot())
      modifies soc`psram, soc`cache, soc`log
      ensures Stepped(soc.chip, old(soc.Snapshot()), soc.Snapshot(), s, vaddr)
      ensures forall v: nat :: v in soc.cache ==> !InWindow(soc.chip, vaddr, v)
      ensures soc.chip.invalidatesByAddr ==> soc.log == old(soc.log) + [InvalidateAddr(vaddr, size)]
      ensures !soc.chip.invalidatesByAddr ==> soc.log == old(soc.log) + [WritebackAll, InvalidateAll] && soc.cache == map[]
      ensures soc.log == old(soc.log) + InvalidateLog(soc.chip, vaddr, size)
    {
      ghost var c := soc.chip;
      if soc.chip.invalidatesByAddr {
        soc.InvalidateRegion(vaddr, size);
        s := {};
        forall v: nat | v in old(soc.cache)
          ensures v in soc.cache <==> !InWindow(c, vaddr, v)
        {
          LinesOfWindow(c, soc.table.Length, |soc.flash|, start, vaddr, size, v);
        }
      } else {
        s := soc.cache.Keys;
        soc.WritebackCache();
        soc.InvalidateCache();
      }
    }

    /** The save loop of mmu_mmap. */
    method SaveEntries(start: nat, n: nat)
      requires Valid() && !soc.running && n <= MAX_PAGES && start + n <= soc.table.Length
      modifies soc`log, saved
      ensures saved[..n] == soc.table[start..start + n]
      ensures soc.log == old(soc.log) + ReadsLog(start, n)
    {
      for i := 0 to n
        invariant saved[..i] == soc.table[start..start + i]
        invariant soc.log == old(soc.log) + ReadsLog(start, i)
        invariant soc.table[..] == old(soc.table[..])
      {
        saved[i] := soc.ReadEntry(start + i);
      }
    }

    /** The rewrite loop of mmu_mmap. */
    method WriteEntries(start: nat, page: nat, n: nat)
      requires Valid() && !soc.running && start + n <= soc.table.Length
      modifies soc.table, soc`log
      ensures MapsFlash(soc.chip, soc.table[..], start, page, n)
      ensures soc.table[..start] == old(soc.table[..start]) && soc.table[start + n..] == old(soc.table[start + n..])
      ensures soc.log == old(soc.log) + WritesLog(start, page, n)
    {
      ghost var before := soc.table[..];
      for i := 0 to n
        invariant MapsFlash(soc.chip, soc.table[..], start, page, i)
        invariant forall e :: 0 <= e < soc.table.Length && !(start <= e < start + i) ==> soc.table[e] == before[e]
        invariant soc.log == old(soc.log) + WritesLog(start, page, i)
      {
        soc.WriteEntry(start + i, Wrap(page + i));
      }
    }

    /** The restore loop of mmu_munmap. */
    method PutBack(start: nat, n: nat)
      requires Valid() && !soc.running && n <= MAX_PAGES && start + n <= soc.table.Length
      modifies soc.table, soc`log
      ensures soc.table[start..start + n] == saved[..n]
      ensures soc.table[..start] == old(soc.table[..start]) && soc.table[start + n..] == old(soc.table[start + n..])
      ensures soc.log == old(soc.log) + RestoresLog(start, saved[..n])
    {
      hide RestoresLog;
      ghost var raws, before := saved[..n], soc.table[..];
      RestoresStep(start, raws, 0);
      for i := 0 to n
        invariant saved[..n] == raws
        invariant forall e :: start <= e < start + i ==> soc.table[e] == raws[e - start]
        invariant forall e :: 0 <= e < soc.table.Length && !(start <= e < start + i) ==> soc.table[e] == before[e]
        invariant soc.log == old(soc.log) + RestoresLog(start, raws[..i])
      {
        RestoresStep(start, raws, i);
        soc.RestoreEntry(start + i, saved[i]);
      }
      assert raws[..n] == raws;
    }

    /** mmu_mmap. */
    method Map(addr: uint32, size: uint32) returns (st: Status, vaddr: nat)
      requires Valid() && Idle() && Sound(soc.chip, soc.flash, soc.Snapshot())
      requires PagesExist(soc.chip, MapPlan(soc.chip, addr, size), |soc.flash|)
      modifies this, saved, soc, soc.table
      ensures st == if MapPlan(soc.chip, addr, size).Mapped? then Ok else InvalidArg
      ensures !st.Ok? ==> Idle() && soc.Snapshot() == old(soc.Snapshot()) && soc.log == old(soc.log)
      ensures soc.running
      ensures st.Ok? ==>
                var m := MapPlan(soc.chip, addr, size);
                && vaddr == m.vaddrBase + m.offset
                && Active(m, old(soc.Snapshot()))
                && Fetched(soc.chip, soc.flash, soc.Snapshot(), m.vaddrBase, soc.chip.Bytes(m.flashPage))
                && soc.log == old(soc.log) + MapLog(soc.chip, m)
    {
      hide PlanShape, PagesExist, MapPlan, MapLog, InWindow, Kept;
      var m := MapPlan(soc.chip, addr, size);
      if m.Rejected? {
        return InvalidArg, 0;
      }
      PlanFits(soc.chip, soc.table.Length, |soc.flash|, addr, size);
      Install(m);
      return Ok, m.vaddrBase + m.offset;
    }

    /** mmu_mmap from the first cache stop on: the entries are saved and rewritten, and the stale lines go. */
    method Install(m: Plan)
      requires Valid() && Idle() && Sound(soc.chip, soc.flash, soc.Snapshot())
      requires m.Mapped? && PlanShape(soc.chip, soc.table.Length, |soc.flash|, m) && PagesExist(soc.chip, m, |soc.flash|)
      modifies this, saved, soc, soc.table
      ensures soc.running && Active(m, old(soc.Snapshot()))
      ensures Fetched(soc.chip, soc.flash, soc.Snapshot(), m.vaddrBase, soc.chip.Bytes(m.flashPage))
      ensures soc.log == old(soc.log) + MapLog(soc.chip, m)
    {
      hide ReadsLog, WritesLog, RestoresLog, InvalidateLog, InWindow, Chip.Bytes, Fetched;
      hide Sound, Kept, Remapped, MapsFlash, OneOwner, WindowHarmless, Stepped, WroteBack, Chip.Valid;
      var start, page, count, base := m.entryStart, m.flashPage, m.count, m.vaddrBase;
      ghost var c, h0, log0 := soc.chip, soc.Snapshot(), soc.log;
      soc.StopCache();
      SaveEntries(start, count);
      assert saved[..count] == h0.table[start..start + count];
      WriteEntries(start, page, count);
      vaddrBase, entryStart, pageCount := base, start, count;
      ghost var h1 := soc.Snapshot();
      BorrowedTable(c, h0.table, h1.table, start, count);
      BorrowKept(c, soc.table.Length, soc.flash, h0, h1, m);
      ghost var s := InvalidateWindow(base, soc.chip.Bytes(count), start);
      StepKept(c, soc.table.Length, soc.flash, h0, h1, soc.Snapshot(), s, start, base);
      NothingFetched(c, soc.flash, soc.Snapshot(), base, c.Bytes(page));
      soc.StartCache();
      assert soc.log == log0 + [Stop] + ReadsLog(start, count) + WritesLog(start, page, count)
                        + InvalidateLog(c, base, c.Bytes(count)) + [Start];
    }

    /** The mapping of plan m is in force since the state h0. */
    ghost predicate Active(m: Plan, h0: Hw)
      requires Valid()
      requires m.Mapped?
      reads this, saved, soc, soc.table
    {
      && vaddrBase == m.vaddrBase && entryStart == m.entryStart && pageCount == m.count <= MAX_PAGES
      && m.entryStart + m.count == soc.chip.dromEnd
      && |h0.table| == soc.table.Length
      && saved[..m.count] == h0.table[m.entryStart..m.entryStart + m.count]
      && Remapped(soc.chip, h0.table, soc.table[..], m.entryStart)
      && MapsFlash(soc.chip, soc.table[..], m.entryStart, m.flashPage, m.count)
      && Kept(soc.chip, h0, soc.Snapshot(), m.vaddrBase)
    }

    /** mmu_munmap. */
    method Unmap(ghost m: Plan, ghost h0: Hw)
      requires Valid() && soc.running && Sound(soc.chip, soc.flash, h0)
      requires m.Mapped? && PlanShape(soc.chip, soc.table.Length, |soc.flash|, m) && Active(m, h0)
      requires Fetched(soc.chip, soc.flash, soc.Snapshot(), m.vaddrBase, soc.chip.Bytes(m.flashPage))
      modifies this`pageCount, soc, soc.table
      ensures Idle() && soc.table[..] == h0.table
      ensures Kept(soc.chip, h0, soc.Snapshot(), m.vaddrBase)
      ensures m.count > 0 ==> forall v: nat :: v in soc.cache ==> !InWindow(soc.chip, m.vaddrBase, v)
      ensures soc.log == old(soc.log) + if m.count == 0 then [] else UnmapLog(soc.chip, m, h0.table[m.entryStart..m.entryStart + m.count])
    {
      hide ReadsLog, WritesLog, RestoresLog, InvalidateLog, InWindow, Chip.Bytes, Window;
      hide Sound, Kept, Remapped, MapsFlash, OneOwner, WindowHarmless, Stepped, WroteBack, Chip.Valid, Fetched;
      ghost var c, log0, h := soc.chip, soc.log, soc.Snapshot();
      SameTable(c, h0.table, m.entryStart);
      if pageCount == 0 {
        TableReturned(c, h0.table, h.table, h.table, m.entryStart, 0);
        return;
      }
      RestoreTable(m, h0);
      ghost var h1 := soc.Snapshot();
      ghost var s := InvalidateWindow(vaddrBase, soc.chip.Bytes(pageCount), entryStart);
      StepKept(c, soc.table.Length, soc.flash, h0, h1, soc.Snapshot(), s, entryStart, vaddrBase);
      soc.StartCache();
      pageCount := 0;
      assert soc.log == log0 + [Stop] + RestoresLog(m.entryStart, h0.table[m.entryStart..m.entryStart + m.count])
                        + InvalidateLog(c, m.vaddrBase, c.Bytes(m.count)) + [Start];
    }

    /** mmu_munmap up to the restored table. */
    method RestoreTable(ghost m: Plan, ghost h0: Hw)
      requires Valid() && soc.running && Sound(soc.chip, soc.flash, h0)
      requires m.Mapped? && PlanShape(soc.chip, soc.table.Length, |soc.flash|, m) && Active(m, h0)
      requires Fetched(soc.chip, soc.flash, soc.Snapshot(), m.vaddrBase, soc.chip.Bytes(m.flashPage))
      modifies soc`running, soc`log, soc.table
      ensures !soc.running && soc.table[..] == h0.table
      ensures Kept(soc.chip, h0, soc.Snapshot(), m.vaddrBase) && WindowHarmless(soc.chip, soc.Snapshot(), m.vaddrBase)
      ensures OneOwner(soc.chip, soc.Snapshot())
      ensures soc.log == old(soc.log) + [Stop] + RestoresLog(m.entryStart, h0.table[m.entryStart..m.entryStart + m.count])
    {
      hide Sound, Kept, Remapped, MapsFlash, OneOwner, WindowHarmless, Stepped, WroteBack, Chip.Valid, Fetched;
      ghost var c, h, base := soc.chip, soc.Snapshot(), soc.chip.Bytes(m.flashPage);
      soc.StopCache();
      PutBack(entryStart, pageCount);
      TableReturned(c, h0.table, h.table, soc.table[..], m.entryStart, m.count);
      ghost var h1 := soc.Snapshot();
      KeptAnyTable(c, soc.flash, h0, h, h1, vaddrBase, base);
      FetchedHarmless(c, soc.flash, h1, vaddrBase, base);
      SameTable(c, h0.table, m.entryStart);
      KeptOneOwner(c, soc.table.Length, soc.flash, h0, h1, entryStart, vaddrBase);
    }

    /** One byte of memcpy: a load from the window while the mapping is in force. */
    method LoadMapped(v: nat, ghost m: Plan, ghost h0: Hw) returns (b: byte)
      requires Valid() && soc.running && Sound(soc.chip, soc.flash, h0)
      requires m.Mapped? && PlanShape(soc.chip, soc.table.Length, |soc.flash|, m) && PagesExist(soc.chip, m, |soc.flash|)
      requires Active(m, h0) && InWindow(soc.chip, m.vaddrBase, v)
      requires Fetched(soc.chip, soc.flash, soc.Snapshot(), m.vaddrBase, soc.chip.Bytes(m.flashPage))
      modifies soc`psram, soc`cache, soc`log
      ensures Active(m, h0)
      ensures Fetched(soc.chip, soc.flash, soc.Snapshot(), m.vaddrBase, soc.chip.Bytes(m.flashPage))
      ensures b == At(soc.flash, soc.chip.Bytes(m.flashPage) + (v - m.vaddrBase))
      ensures soc.log == old(soc.log) + [Load(v)]
    {
      hide Loaded;
      hide Sound, Kept, Remapped, MapsFlash, OneOwner, WindowHarmless, Stepped, WroteBack, Chip.Valid, Fetched;
      ghost var c, h1, lo := soc.chip, soc.Snapshot(), m.vaddrBase;
      FetchedHarmless(c, soc.flash, h1, lo, c.Bytes(m.flashPage));
      KeptOneOwner(c, soc.table.Length, soc.flash, h0, h1, m.entryStart, lo);
      ghost var evicted: set<nat>;
      b, evicted := soc.LoadByte(v);
      LoadKept(c, soc.table.Length, soc.flash, h0, h1, soc.Snapshot(), v, evicted, m);
    }

    /** memcpy from the window. */
    method Copy(buffer: array<byte>, size: nat, vaddr: nat, ghost m: Plan, ghost h0: Hw)
      requires Valid() && soc.running && Sound(soc.chip, soc.flash, h0) && size <= buffer.Length
      requires m.Mapped? && PlanShape(soc.chip, soc.table.Length, |soc.flash|, m) && PagesExist(soc.chip, m, |soc.flash|)
      requires Active(m, h0)
      requires Fetched(soc.chip, soc.flash, soc.Snapshot(), m.vaddrBase, soc.chip.Bytes(m.flashPage))
      requires (buffer as object) != saved && (buffer as object) != soc.table
      requires vaddr == m.vaddrBase + m.offset && vaddr + size <= soc.chip.DromTop()
      requires soc.chip.Bytes(m.flashPage) + m.offset + size <= |soc.flash|
      modifies soc`psram, soc`cache, soc`log, buffer
      ensures Active(m, h0)
      ensures Fetched(soc.chip, soc.flash, soc.Snapshot(), m.vaddrBase, soc.chip.Bytes(m.flashPage))
      ensures var addr := soc.chip.Bytes(m.flashPage) + m.offset;
              buffer[..] == soc.flash[addr..addr + size] + old(buffer[size..])
      ensures soc.log == old(soc.log) + LoadsLog(vaddr, size)
    {
      hide Sound, Kept, Remapped, MapsFlash, OneOwner, WindowHarmless, Stepped, WroteBack, Chip.Valid, Fetched;
      ghost var addr := soc.chip.Bytes(m.flashPage) + m.offset;
      for i := 0 to size
        invariant Active(m, h0)
        invariant Fetched(soc.chip, soc.flash, soc.Snapshot(), m.vaddrBase, soc.chip.Bytes(m.flashPage))
        invariant buffer[..i] == soc.flash[addr..addr + i] && buffer[i..] == old(buffer[i..])
        invariant soc.log == old(soc.log) + LoadsLog(vaddr, i)
      {
        buffer[i] := LoadMapped(vaddr + i, m, h0);
      }
      assert buffer[..] == buffer[..size] + buffer[size..];
    }

    /** The part of stub_lib_mmu_read_flash that runs with the mapping in force. */
    method ReadMapped(buffer: array<byte>, size: nat, vaddr: nat, ghost m: Plan, ghost h0: Hw, ghost log0: seq<Command>)
      requires Valid() && soc.running && Sound(soc.chip, soc.flash, h0) && size <= buffer.Length
      requires m.Mapped? && PlanShape(soc.chip, soc.table.Length, |soc.flash|, m) && PagesExist(soc.chip, m, |soc.flash|)
      requires Active(m, h0) && m.count > 0
      requires Fetched(soc.chip, soc.flash, soc.Snapshot(), m.vaddrBase, soc.chip.Bytes(m.flashPage))
      requires (buffer as object) != saved && (buffer as object) != soc.table
      requires vaddr == m.vaddrBase + m.offset && vaddr + size <= soc.chip.DromTop()
      requires soc.chip.Bytes(m.flashPage) + m.offset + size <= |soc.flash|
      requires soc.log == log0 + MapLog(soc.chip, m)
      modifies this`pageCount, soc, soc.table, buffer
      ensures Idle() && soc.table[..] == h0.table && Sound(soc.chip, soc.flash, soc.Snapshot())
      ensures GivenBack(soc.chip, soc.flash, h0, soc.Snapshot(), m.vaddrBase)
      ensures var addr := soc.chip.Bytes(m.flashPage) + m.offset;
              buffer[..] == soc.flash[addr..addr + size] + old(buffer[size..])
      ensures Invisible(soc.chip, soc.flash, h0, soc.Snapshot()) <==> WindowClean(soc.chip, soc.flash, h0, m.vaddrBase)
      ensures soc.log == log0 + ReadLog(soc.chip, m, size, h0.table[m.entryStart..m.entryStart + m.count])
    {
      hide Window, PagesExist, MapLog, UnmapLog, LoadsLog, ReadLog, Invisible, WindowClean, InWindow, Chip.Bytes;
      hide View, ViewAfter, Backing, Translate;
      hide Kept, Remapped, MapsFlash, OneOwner, WindowHarmless, Stepped, WroteBack, Chip.Valid, Fetched;
      Copy(buffer, size, vaddr, m, h0);
      ghost var copied := buffer[..];
      Unmap(m, h0);
      assert buffer[..] == copied;
      Returned(soc.chip, soc.flash, h0, soc.Snapshot(), m.vaddrBase);
      InvisibleExactly(soc.chip, soc.flash, h0, soc.Snapshot(), m.vaddrBase);
      ReadLogParts(soc.chip, m, size, h0.table[m.entryStart..m.entryStart + m.count], log0);
    }

    /**
     * stub_lib_mmu_read_flash. A refused request changes nothing. An accepted one delivers
     * the flash bytes and gives back the table, the running cache and a sound memory; the
     * one trace it may leave is the loss of unwritten data in the borrowed window.
     */
    method ReadFlash(addr: uint32, buffer: array<byte>, size: uint32) returns (st: Status)
      requires Valid() && Idle() && Sound(soc.chip, soc.flash, soc.Snapshot()) && size <= buffer.Length
      requires (buffer as object) != saved && (buffer as object) != soc.table
      requires MapPlan(soc.chip, addr, size).Mapped? ==> !SumWraps(soc.chip.pageSize, addr, size) && addr + size <= |soc.flash|
      modifies this, saved, soc, soc.table, buffer
      ensures Idle() && Sound(soc.chip, soc.flash, soc.Snapshot())
      ensures st == if MapPlan(soc.chip, addr, size).Mapped? then Ok else InvalidArg
      ensures !st.Ok? ==> soc.Snapshot() == old(soc.Snapshot()) && soc.log == old(soc.log) && buffer[..] == old(buffer[..])
      ensures soc.table[..] == old(soc.table[..])
      ensures st.Ok? ==> buffer[..] == soc.flash[addr..addr + size] + old(buffer[size..])
      ensures st.Ok? ==>
                var m := MapPlan(soc.chip, addr, size);
                && GivenBack(soc.chip, soc.flash, old(soc.Snapshot()), soc.Snapshot(), m.vaddrBase)
                && (Invisible(soc.chip, soc.flash, old(soc.Snapshot()), soc.Snapshot())
                    <==> WindowClean(soc.chip, soc.flash, old(soc.Snapshot()), m.vaddrBase))
                && soc.log == old(soc.log) + ReadLog(soc.chip, m, size, old(soc.table[..])[m.entryStart..m.entryStart + m.count])
    {
      hide ReadLog, PlanShape, PagesExist, Active, MapPlan, MapLog, UnmapLog, LoadsLog;
      hide GivenBack, Invisible, WindowClean, InWindow, Chip.Bytes;
      hide Sound, Kept, Remapped, MapsFlash, OneOwner, WindowHarmless, Stepped, WroteBack, Chip.Valid, Fetched;
      ghost var c, h0, log0, m := soc.chip, soc.Snapshot(), soc.log, MapPlan(soc.chip, addr, size);
      AcceptedPlan(c, soc.table.Length, |soc.flash|, addr, size);
      ghost var bytes := buffer[..];
      var vaddr;
      st, vaddr := Map(addr, size);
      assert buffer[..] == bytes;
      if st != Ok {
        return;
      }
      ReadMapped(buffer, size, vaddr, m, h0, log0);
    }
  }
}
