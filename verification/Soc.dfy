/**
 * The hardware behind src/target: MMU table, data cache, flash and PSRAM.
 * Each method of `Soc` is the contract of one target call used by src/mmu.c.
 * Cache geometry, replacement and prefetching are left open: a line is any set
 * of addresses, a miss may evict any cells and fill any part of the line.
 */
module SocModel {
  import opened Words
  import opened BitUtils

  /** What a raw MMU entry maps its page to. */
  datatype Mapping = Unmapped | Flash(base: nat) | Psram(base: nat)

  /** Where the bus sends a virtual address: to an entry, at an offset inside its page. */
  datatype Slot = Nowhere | Slot(entry: nat, offset: nat)

  /** The physical byte behind a virtual address. */
  datatype Phys = Open | FlashAt(a: nat) | PsramAt(a: nat)

  /** A cached byte; dirty while memory does not have it yet. */
  datatype Cell = Cell(value: byte, dirty: bool)

  /**
   * The constants of one chip. Several addresses may reach one entry (instruction
   * and data bus); `line` names the cache line that holds an address.
   */
  datatype Chip = Chip(
    pageSize: uint32,
    dromStart: uint32,
    dromEnd: uint32,
    dromVaddr: uint32,
    invalidatesByAddr: bool,
    bus: nat -> Slot,
    line: nat -> nat,
    encode: uint32 -> uint32,
    decode: uint32 -> Mapping)
  {
    /** The size of n pages. */
    function Bytes(n: nat): nat {
      MulNat(n, pageSize);
      n * pageSize
    }

    function DromTop(): nat
      requires dromStart <= dromEnd
    {
      dromVaddr + Bytes(dromEnd - dromStart)
    }

    /** The first address of a DROM entry. */
    function EntryVaddr(e: nat): nat
      requires dromStart <= e
    {
      dromVaddr + Bytes(e - dromStart)
    }

    /** Where the bus sends the d-th address of the DROM region. */
    function DromSlot(d: nat): Slot
      requires 0 < pageSize
    {
      Slot(dromStart + d / pageSize, d % pageSize)
    }

    /** DROM addresses go to consecutive entries, no cache line crosses a page, and written entries map flash pages. */
    ghost predicate Valid(entries: nat, flashSize: nat) {
      && 0 < pageSize
      && dromStart <= dromEnd <= entries
      && DromTop() < 0x1_0000_0000
      && (forall v: nat :: dromVaddr <= v < DromTop() ==>
            bus(v) == DromSlot(v - dromVaddr))
      && (forall v: nat :: bus(v).Slot? ==> bus(v).offset < pageSize)
      && (forall v: nat, w: nat :: dromVaddr <= v < DromTop() && line(w) == line(v) ==>
            dromVaddr <= w < DromTop() && bus(w).Slot? && bus(w).entry == bus(v).entry)
      && (forall p: uint32 :: Bytes(p) < flashSize ==> decode(encode(p)) == Flash(Bytes(p)))
    }
  }

  lemma BytesSum(c: Chip, a: nat, b: nat)
    ensures c.Bytes(a + b) == c.Bytes(a) + c.Bytes(b)
  {
    MulSum(a, b, c.pageSize);
  }

  predicate SameLine(c: Chip, v: nat, w: nat) {
    c.line(v) == c.line(w)
  }

  /** A snapshot of the mutable hardware state. */
  datatype Hw = Hw(table: seq<uint32>, psram: seq<byte>, cache: map<nat, Cell>)

  /** The calls made to the hardware, oldest first. */
  datatype Command =
    | Stop
    | Start
    | Read(entry: nat)
    | Write(entry: nat, page: uint32)
    | Restore(entry: nat, raw: uint32)
    | InvalidateAddr(vaddr: nat, size: nat)
    | WritebackAll
    | InvalidateAll
    | Load(vaddr: nat)

  function Translate(c: Chip, table: seq<uint32>, v: nat): Phys {
    match c.bus(v)
    case Nowhere => Open
    case Slot(e, o) =>
      if e >= |table| then Open else
        match c.decode(table[e])
        case Unmapped => Open
        case Flash(b) => FlashAt(b + o)
        case Psram(b) => PsramAt(b + o)
  }

  /** The byte in a memory; absent memory reads as 0xFF. */
  function At(memory: seq<byte>, a: nat): byte {
    if a < |memory| then memory[a] else 0xFF
  }

  /** The byte that memory holds for a virtual address. */
  function Backing(c: Chip, flash: seq<byte>, table: seq<uint32>, psram: seq<byte>, v: nat): byte {
    match Translate(c, table, v)
    case Open => 0xFF
    case FlashAt(a) => At(flash, a)
    case PsramAt(a) => At(psram, a)
  }

  /** The byte a program sees at a virtual address. */
  function View(c: Chip, flash: seq<byte>, h: Hw, v: nat): byte {
    if v in h.cache then h.cache[v].value else Backing(c, flash, h.table, h.psram, v)
  }

  /** v is cached and dirty. */
  predicate Dirty(h: Hw, v: nat) {
    v in h.cache && h.cache[v].dirty
  }

  /**
   * A working cache: clean cells agree with memory, dirty cells belong to PSRAM,
   * and no dirty PSRAM byte has a second virtual address.
   */
  ghost predicate Sound(c: Chip, flash: seq<byte>, h: Hw) {
    && (forall v: nat :: v in h.cache && !Dirty(h, v) ==> h.cache[v].value == Backing(c, flash, h.table, h.psram, v))
    && (forall v: nat :: Dirty(h, v) ==>
          Translate(c, h.table, v).PsramAt? && Translate(c, h.table, v).a < |h.psram|)
    && (forall v: nat, w: nat :: Dirty(h, v) && Translate(c, h.table, w) == Translate(c, h.table, v) ==> w == v)
  }

  /** psram is what memory holds once the dirty cells of s are written through the MMU. */
  ghost predicate WroteBack(c: Chip, h: Hw, s: set<nat>, psram: seq<byte>) {
    && |psram| == |h.psram|
    && (forall v: nat :: v in s && Dirty(h, v) && Translate(c, h.table, v).PsramAt? && Translate(c, h.table, v).a < |psram| ==>
          psram[Translate(c, h.table, v).a] == h.cache[v].value)
    && (forall a: nat :: a < |psram| && psram[a] != h.psram[a] ==>
          exists v: nat :: v in s && Dirty(h, v) && Translate(c, h.table, v) == PsramAt(a))
  }

  /** Dirty cells that belong to PSRAM belong to different bytes of it. */
  ghost predicate OneOwner(c: Chip, h: Hw) {
    forall v: nat, w: nat ::
      (Dirty(h, v) && Dirty(h, w) && Translate(c, h.table, v).PsramAt?
       && Translate(c, h.table, v) == Translate(c, h.table, w))
      ==> v == w
  }

  /** A load of v: s is written back and dropped, and only bytes of v's line come in, clean, from memory. */
  ghost predicate Loaded(c: Chip, flash: seq<byte>, h: Hw, h': Hw, v: nat, s: set<nat>) {
    && h'.table == h.table
    && WroteBack(c, h, s, h'.psram)
    && (forall w: nat :: w in h'.cache ==>
          || (w in h.cache && w !in s && h'.cache[w] == h.cache[w])
          || (c.line(w) == c.line(v) && h'.cache[w] == Cell(Backing(c, flash, h'.table, h'.psram, w), false)))
    && (forall w: nat :: w in h.cache && w !in s ==> w in h'.cache && h'.cache[w] == h.cache[w])
    && v in h'.cache
  }

  class Soc {
    const chip: Chip
    const flash: seq<byte>
    const table: array<uint32>
    var psram: seq<byte>
    var cache: map<nat, Cell>
    var running: bool
    ghost var log: seq<Command>

    ghost function Snapshot(): Hw
      reads this, table
    {
      Hw(table[..], psram, cache)
    }

    ghost predicate Valid() {
      chip.Valid(table.Length, |flash|)
    }

    constructor (chip: Chip, flash: seq<byte>, table: array<uint32>, psram: seq<byte>)
      requires chip.Valid(table.Length, |flash|)
      ensures Valid() && this.chip == chip && this.flash == flash && this.table == table
      ensures Snapshot() == Hw(table[..], psram, map[]) && running && log == []
    {
      this.chip, this.flash, this.table, this.psram := chip, flash, table, psram;
      cache, running, log := map[], true, [];
    }

    method StopCache()
      requires running
      modifies `running, `log
      ensures !running && log == old(log) + [Stop]
    {
      running, log := false, log + [Stop];
    }

    method StartCache()
      requires !running
      modifies `running, `log
      ensures running && log == old(log) + [Start]
    {
      running, log := true, log + [Start];
    }

    method ReadEntry(e: nat) returns (raw: uint32)
      requires !running && e < table.Length
      modifies `log
      ensures raw == table[e] && log == old(log) + [Read(e)]
    {
      raw, log := table[e], log + [Read(e)];
    }

    method WriteEntry(e: nat, page: uint32)
      requires !running && e < table.Length
      modifies table, `log
      ensures table[..] == old(table[..])[e := chip.encode(page)] && log == old(log) + [Write(e, page)]
    {
      table[e] := chip.encode(page);
      log := log + [Write(e, page)];
    }

    method RestoreEntry(e: nat, raw: uint32)
      requires !running && e < table.Length
      modifies table, `log
      ensures table[..] == old(table[..])[e := raw] && log == old(log) + [Restore(e, raw)]
    {
      table[e] := raw;
      log := log + [Restore(e, raw)];
    }

    /**
     * Drops, without writing it back, every line that meets the region. On a chip without
     * the capability the call does nothing.
     */
    method InvalidateRegion(vaddr: nat, size: nat)
      requires !running
      modifies `cache, `log
      ensures chip.invalidatesByAddr ==>
                && (forall v: nat :: v in cache <==>
                      v in old(cache) && !exists w: nat :: vaddr <= w < vaddr + size && SameLine(chip, w, v))
                && (forall v: nat :: v in cache ==> cache[v] == old(cache)[v])
      ensures !chip.invalidatesByAddr ==> cache == old(cache)
      ensures log == old(log) + [InvalidateAddr(vaddr, size)]
    {
      if chip.invalidatesByAddr {
        cache := map v | v in cache && !exists w: nat :: vaddr <= w < vaddr + size && SameLine(chip, w, v) :: cache[v];
      }
      log := log + [InvalidateAddr(vaddr, size)];
    }

    method InvalidateCache()
      requires !running
      modifies `cache, `log
      ensures cache == map[] && log == old(log) + [InvalidateAll]
    {
      cache, log := map[], log + [InvalidateAll];
    }

    /** Writes the dirty cells of s to the memory they map to now. */
    method Clean(s: set<nat>)
      requires OneOwner(chip, Snapshot())
      modifies `psram
      ensures WroteBack(chip, old(Snapshot()), s, psram)
    {
      ghost var h := Snapshot();
      var todo := s;
      ghost var done: set<nat> := {};
      while todo != {}
        invariant table[..] == h.table && cache == h.cache && done + todo == s && done !! todo
        invariant WroteBack(chip, h, done, psram)
      {
        var v :| v in todo;
        todo := todo - {v};
        ghost var p := psram;
        if v in cache && cache[v].dirty {
          match Translate(chip, table[..], v)
          case PsramAt(a) =>
            if a < |psram| { psram := psram[a := cache[v].value]; }
          case _ =>
        }
        done := done + {v};
      }
      assert done == s;
    }

    method WritebackCache()
      requires !running
      requires OneOwner(chip, Snapshot())
      modifies `psram, `cache, `log
      ensures WroteBack(chip, old(Snapshot()), old(cache).Keys, psram)
      ensures cache == map v | v in old(cache) :: old(cache)[v].(dirty := false)
      ensures log == old(log) + [WritebackAll]
    {
      Clean(cache.Keys);
      cache := map v | v in cache :: cache[v].(dirty := false);
      log := log + [WritebackAll];
    }

    /** Writes back and drops an arbitrary set of cells. */
    method Evict() returns (ghost evicted: set<nat>)
      requires OneOwner(chip, Snapshot())
      modifies `psram, `cache
      ensures WroteBack(chip, old(Snapshot()), evicted, psram)
      ensures cache == old(cache) - evicted
    {
      var victims: set<nat> := *;
      victims := victims * cache.Keys;
      Clean(victims);
      cache := cache - victims;
      evicted := victims;
    }

    /** Fills an arbitrary part of the line of v from memory. */
    method Fill(v: nat)
      modifies `cache
      ensures v in cache
      ensures forall w: nat :: w in old(cache) ==> w in cache && cache[w] == old(cache)[w]
      ensures forall w: nat :: w in cache && w !in old(cache) ==>
                chip.line(w) == chip.line(v) && cache[w] == Cell(Backing(chip, flash, table[..], psram, w), false)
    {
      var extra: set<nat> := *;
      var filled := set w | w in extra + {v} && w !in cache && chip.line(w) == chip.line(v);
      cache := cache + map w | w in filled :: Cell(Backing(chip, flash, table[..], psram, w), false);
    }

    /**
     * A load through the cache. On a miss the cache writes back and drops an arbitrary
     * set of cells, then fills an arbitrary part of the line, always including v.
     */
    method LoadByte(v: nat) returns (b: byte, ghost evicted: set<nat>)
      requires running
      requires OneOwner(chip, Snapshot())
      modifies `psram, `cache, `log
      ensures Loaded(chip, flash, old(Snapshot()), Snapshot(), v, evicted)
      ensures v in cache && b == cache[v].value
      ensures log == old(log) + [Load(v)]
    {
      log := log + [Load(v)];
      evicted := {};
      if v !in cache {
        evicted := Evict();
        Fill(v);
      }
      b := cache[v].value;
    }
  }
}
