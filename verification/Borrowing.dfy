/**
 * What borrowing the last DROM entries does to the rest of the machine. The window
 * is every address from `lo` to the end of the DROM region; h0 is the state before
 * the call.
 */
module Borrowing {
  import opened Words
  import opened BitUtils
  import opened SocModel

  predicate InWindow(c: Chip, lo: nat, v: nat)
    requires c.dromStart <= c.dromEnd
  {
    lo <= v < c.DromTop()
  }

  /** A window made of whole entries, from entry `start` on. */
  ghost predicate Window(c: Chip, entries: nat, flashSize: nat, start: nat, lo: nat) {
    && c.Valid(entries, flashSize)
    && c.dromStart <= start <= c.dromEnd
    && lo == c.EntryVaddr(start)
  }

  /** t differs from the table before the call only in the borrowed entries. */
  ghost predicate Remapped(c: Chip, before: seq<uint32>, t: seq<uint32>, start: nat) {
    && |t| == |before|
    && (forall e: nat :: e < |t| && !(start <= e < c.dromEnd) ==> t[e] == before[e])
  }

  /** The PSRAM address of a dirty cell. */
  function Home(c: Chip, h: Hw, v: nat): nat {
    match Translate(c, h.table, v)
    case PsramAt(a) => a
    case _ => 0
  }

  /** One hardware step outside the window: s is written back, cells may be dropped or become clean. */
  ghost predicate Stepped(c: Chip, h: Hw, h': Hw, s: set<nat>, lo: nat)
    requires c.dromStart <= c.dromEnd
  {
    && h'.table == h.table
    && WroteBack(c, h, s, h'.psram)
    && (forall v: nat :: v in h'.cache && !InWindow(c, lo, v) ==>
          v in h.cache && h'.cache[v].value == h.cache[v].value && (Dirty(h', v) ==> Dirty(h, v)))
    && (forall v: nat :: Dirty(h, v) && !InWindow(c, lo, v) ==> Dirty(h', v) || v in s)
  }

  /** Outside the window only write-backs of dirty cells have happened since h0, and none was lost. */
  ghost predicate Kept(c: Chip, h0: Hw, h: Hw, lo: nat)
    requires c.dromStart <= c.dromEnd
  {
    && |h.psram| == |h0.psram|
    && (forall v: nat :: v in h.cache && !InWindow(c, lo, v) ==>
          v in h0.cache && h.cache[v].value == h0.cache[v].value && (Dirty(h, v) ==> Dirty(h0, v)))
    && (forall a: nat :: a < |h.psram| && h.psram[a] != h0.psram[a] ==>
          exists v: nat :: Dirty(h0, v) && !InWindow(c, lo, v) && Translate(c, h0.table, v) == PsramAt(a))
    && (forall v: nat :: Dirty(h0, v) && !InWindow(c, lo, v) ==>
          Dirty(h, v) || At(h.psram, Home(c, h0, v)) == h0.cache[v].value)
  }

  lemma RegionQuotient(d: nat, p: nat, k: nat, n: nat)
    requires p > 0 && d < n * p
    ensures 0 <= d / p < n && (k <= d / p <==> k * p <= d)
    ensures (d / p - k) * p + d % p == d - k * p
  {
    QuotientBelow(d, p, k);
    QuotientBelow(d, p, n);
    QuotientBound(d, p);
    MulSum(d / p - k, k, p);
    assert d == p * (d / p) + d % p;
  }

  /** Addresses of the window reach the borrowed entries in order, and no other DROM address does. */
  lemma WindowBus(c: Chip, entries: nat, flashSize: nat, start: nat, lo: nat, v: nat)
    requires Window(c, entries, flashSize, start, lo)
    requires c.dromVaddr <= v < c.DromTop()
    ensures InWindow(c, lo, v) <==> start <= c.bus(v).entry
    ensures c.bus(v).Slot? && c.bus(v).entry < c.dromEnd
    ensures InWindow(c, lo, v) ==> c.Bytes(c.bus(v).entry - start) + c.bus(v).offset == v - lo
  {
    RegionQuotient(v - c.dromVaddr, c.pageSize, start - c.dromStart, c.dromEnd - c.dromStart);
    assert c.bus(v) == c.DromSlot(v - c.dromVaddr);
  }

  /** A line that meets the window lies in it. */
  lemma LineInWindow(c: Chip, entries: nat, flashSize: nat, start: nat, lo: nat, v: nat, w: nat)
    requires Window(c, entries, flashSize, start, lo)
    requires InWindow(c, lo, v) && c.line(w) == c.line(v)
    ensures InWindow(c, lo, w)
  {
    WindowBus(c, entries, flashSize, start, lo, v);
    WindowBus(c, entries, flashSize, start, lo, w);
  }

  lemma EntryOffset(p: nat, k: nat, o: nat, n: nat)
    requires o < p && k < n
    ensures 0 <= k * p && k * p + o < n * p
    ensures (k * p + o) / p == k && (k * p + o) % p == o
  {
    MulAtLeast(p, n - k);
    DivModUnique(k * p + o, p, k, o);
  }

  /** The DROM address that reaches offset o of entry e. */
  lemma DromAddress(c: Chip, entries: nat, flashSize: nat, e: nat, o: nat)
    requires c.Valid(entries, flashSize) && c.dromStart <= e < c.dromEnd && o < c.pageSize
    ensures c.EntryVaddr(e) >= c.dromVaddr && c.EntryVaddr(e) + o < c.DromTop()
    ensures c.bus(c.EntryVaddr(e) + o) == Slot(e, o)
  {
    var k := e - c.dromStart;
    EntryOffset(c.pageSize, k, o, c.dromEnd - c.dromStart);
    var v := c.dromVaddr + (c.Bytes(k) + o);
    assert c.bus(v) == c.DromSlot(v - c.dromVaddr);
  }

  /** Dropping every line that meets the window drops the window and nothing else. */
  lemma LinesOfWindow(c: Chip, entries: nat, flashSize: nat, start: nat, lo: nat, size: nat, v: nat)
    requires Window(c, entries, flashSize, start, lo) && lo + size == c.DromTop()
    ensures (exists w: nat :: lo <= w < lo + size && SameLine(c, w, v)) <==> InWindow(c, lo, v)
  {
    if w: nat :| lo <= w < lo + size && SameLine(c, w, v) {
      LineInWindow(c, entries, flashSize, start, lo, w, v);
    }
    if InWindow(c, lo, v) {
      assert SameLine(c, v, v);
    }
  }

  /** A dirty byte that reaches a borrowed entry is in the window: it has no second address. */
  lemma DirtyBorrowedInWindow(c: Chip, entries: nat, flash: seq<byte>, h0: Hw, start: nat, lo: nat, v: nat)
    requires Window(c, entries, |flash|, start, lo)
    requires Sound(c, flash, h0) && Dirty(h0, v) && c.bus(v).Slot? && start <= c.bus(v).entry < c.dromEnd
    ensures InWindow(c, lo, v)
  {
    DromAddress(c, entries, |flash|, c.bus(v).entry, c.bus(v).offset);
    var u := c.EntryVaddr(c.bus(v).entry) + c.bus(v).offset;
    assert Translate(c, h0.table, u) == Translate(c, h0.table, v);
    WindowBus(c, entries, |flash|, start, lo, u);
  }

  /** Dirty bytes outside the window keep their place in memory while the entries are borrowed. */
  lemma DirtyStays(c: Chip, entries: nat, flash: seq<byte>, h0: Hw, t: seq<uint32>, start: nat, lo: nat, v: nat)
    requires Window(c, entries, |flash|, start, lo)
    requires Sound(c, flash, h0) && Remapped(c, h0.table, t, start)
    requires Dirty(h0, v) && !InWindow(c, lo, v)
    ensures Translate(c, t, v) == Translate(c, h0.table, v)
  {
    if c.bus(v).Slot? && start <= c.bus(v).entry < c.dromEnd {
      DirtyBorrowedInWindow(c, entries, flash, h0, start, lo, v);
    }
  }

  /** No dirty cell of the window would be written to PSRAM now. */
  ghost predicate WindowHarmless(c: Chip, h: Hw, lo: nat)
    requires c.dromStart <= c.dromEnd
  {
    forall v: nat :: InWindow(c, lo, v) && Dirty(h, v) ==> !Translate(c, h.table, v).PsramAt?
  }

  /** Dirty cells still have one owner each, so write-backs are unambiguous. */
  lemma KeptOneOwner(c: Chip, entries: nat, flash: seq<byte>, h0: Hw, h: Hw, start: nat, lo: nat)
    requires Window(c, entries, |flash|, start, lo) && Sound(c, flash, h0)
    requires Remapped(c, h0.table, h.table, start) && Kept(c, h0, h, lo) && WindowHarmless(c, h, lo)
    ensures OneOwner(c, h)
  {
    forall v: nat, w: nat | Dirty(h, v) && Dirty(h, w) && Translate(c, h.table, v).PsramAt?
                            && Translate(c, h.table, v) == Translate(c, h.table, w)
      ensures v == w
    {
      DirtyStays(c, entries, flash, h0, h.table, start, lo, v);
      DirtyStays(c, entries, flash, h0, h.table, start, lo, w);
    }
  }

  lemma StepKeptMemory(c: Chip, entries: nat, flash: seq<byte>, h0: Hw, h: Hw, h': Hw, s: set<nat>, start: nat, lo: nat)
    requires Window(c, entries, |flash|, start, lo) && Sound(c, flash, h0)
    requires Remapped(c, h0.table, h.table, start) && Kept(c, h0, h, lo) && WindowHarmless(c, h, lo)
    requires Stepped(c, h, h', s, lo)
    ensures forall a: nat :: a < |h'.psram| && h'.psram[a] != h0.psram[a] ==>
          exists v: nat :: Dirty(h0, v) && !InWindow(c, lo, v) && Translate(c, h0.table, v) == PsramAt(a)
  {
    forall a: nat | a < |h'.psram| && h'.psram[a] != h0.psram[a]
      ensures exists v: nat :: Dirty(h0, v) && !InWindow(c, lo, v) && Translate(c, h0.table, v) == PsramAt(a)
    {
      if h'.psram[a] != h.psram[a] {
        var v: nat :| v in s && Dirty(h, v) && Translate(c, h.table, v) == PsramAt(a);
        DirtyStays(c, entries, flash, h0, h.table, start, lo, v);
      }
    }
  }

  /** A byte that a dirty cell left in memory stays there. */
  lemma StepKeptByte(c: Chip, entries: nat, flash: seq<byte>, h0: Hw, h: Hw, h': Hw, s: set<nat>, start: nat, lo: nat, v: nat)
    requires Window(c, entries, |flash|, start, lo) && Sound(c, flash, h0)
    requires Remapped(c, h0.table, h.table, start) && Kept(c, h0, h, lo) && WindowHarmless(c, h, lo)
    requires Stepped(c, h, h', s, lo)
    requires Dirty(h0, v) && !InWindow(c, lo, v) && !Dirty(h', v)
    ensures At(h'.psram, Home(c, h0, v)) == h0.cache[v].value
  {
    DirtyStays(c, entries, flash, h0, h.table, start, lo, v);
    var a := Home(c, h0, v);
    if Dirty(h, v) {
      assert v in s;
    } else if h'.psram[a] != h.psram[a] {
      var w: nat :| w in s && Dirty(h, w) && Translate(c, h.table, w) == PsramAt(a);
      DirtyStays(c, entries, flash, h0, h.table, start, lo, w);
    }
  }

  lemma StepKept(c: Chip, entries: nat, flash: seq<byte>, h0: Hw, h: Hw, h': Hw, s: set<nat>, start: nat, lo: nat)
    requires Window(c, entries, |flash|, start, lo) && Sound(c, flash, h0)
    requires Remapped(c, h0.table, h.table, start) && Kept(c, h0, h, lo) && WindowHarmless(c, h, lo)
    requires Stepped(c, h, h', s, lo)
    ensures Kept(c, h0, h', lo)
  {
    StepKeptMemory(c, entries, flash, h0, h, h', s, start, lo);
    forall v: nat | Dirty(h0, v) && !InWindow(c, lo, v)
      ensures Dirty(h', v) || At(h'.psram, Home(c, h0, v)) == h0.cache[v].value
    {
      if !Dirty(h', v) { StepKeptByte(c, entries, flash, h0, h, h', s, start, lo, v); }
    }
  }

  /** A byte that no dirty cell outside the window owns has not moved in memory. */
  lemma BackingKept(c: Chip, flash: seq<byte>, h0: Hw, h: Hw, lo: nat, v: nat)
    requires c.dromStart <= c.dromEnd
    requires Sound(c, flash, h0) && Kept(c, h0, h, lo)
    requires !Dirty(h0, v) || InWindow(c, lo, v)
    ensures Backing(c, flash, h0.table, h.psram, v) == Backing(c, flash, h0.table, h0.psram, v)
  {
  }

  /** What a program sees after the call at v. */
  function ViewAfter(c: Chip, flash: seq<byte>, h0: Hw, lo: nat, v: nat): byte
    requires c.dromStart <= c.dromEnd
  {
    if InWindow(c, lo, v) then Backing(c, flash, h0.table, h0.psram, v) else View(c, flash, h0, v)
  }

  /** The state after a call: the table is back, the cache is sound, and every view is determined. */
  ghost predicate GivenBack(c: Chip, flash: seq<byte>, h0: Hw, h: Hw, lo: nat)
    requires c.dromStart <= c.dromEnd
  {
    && h.table == h0.table
    && Sound(c, flash, h)
    && (forall v: nat :: Dirty(h, v) ==> Dirty(h0, v))
    && (forall v: nat :: View(c, flash, h, v) == ViewAfter(c, flash, h0, lo, v))
  }

  /** No address shows a different byte. */
  ghost predicate Invisible(c: Chip, flash: seq<byte>, h0: Hw, h: Hw) {
    forall v: nat :: View(c, flash, h, v) == View(c, flash, h0, v)
  }

  /** Memory already has the dirty data of the window. */
  ghost predicate WindowClean(c: Chip, flash: seq<byte>, h0: Hw, lo: nat)
    requires c.dromStart <= c.dromEnd
  {
    forall v: nat :: InWindow(c, lo, v) && Dirty(h0, v) ==> h0.cache[v].value == Backing(c, flash, h0.table, h0.psram, v)
  }

  /** Once the table is back and the window is empty, the state is the one promised. */
  lemma Returned(c: Chip, flash: seq<byte>, h0: Hw, h: Hw, lo: nat)
    requires c.dromStart <= c.dromEnd
    requires Sound(c, flash, h0) && Kept(c, h0, h, lo)
    requires h.table == h0.table
    requires forall v: nat :: v in h.cache ==> !InWindow(c, lo, v)
    ensures GivenBack(c, flash, h0, h, lo)
    ensures forall v: nat :: View(c, flash, h, v) ==
              if lo <= v < c.DromTop() then Backing(c, flash, h0.table, h0.psram, v) else View(c, flash, h0, v)
  {
    forall v: nat
      ensures View(c, flash, h, v) == ViewAfter(c, flash, h0, lo, v)
      ensures v in h.cache && !Dirty(h, v) ==> h.cache[v].value == Backing(c, flash, h.table, h.psram, v)
    {
      if !Dirty(h0, v) || InWindow(c, lo, v) { BackingKept(c, flash, h0, h, lo, v); }
    }
  }

  /** A call is invisible exactly when the borrowed window held no unwritten data. */
  lemma InvisibleExactly(c: Chip, flash: seq<byte>, h0: Hw, h: Hw, lo: nat)
    requires c.dromStart <= c.dromEnd
    requires Sound(c, flash, h0) && GivenBack(c, flash, h0, h, lo)
    ensures Invisible(c, flash, h0, h) <==> WindowClean(c, flash, h0, lo)
    ensures (forall v: nat :: View(c, flash, h, v) == View(c, flash, h0, v)) <==>
              (forall v: nat :: lo <= v < c.DromTop() && v in h0.cache && h0.cache[v].dirty ==>
                 h0.cache[v].value == Backing(c, flash, h0.table, h0.psram, v))
  {
    if Invisible(c, flash, h0, h) {
      forall v: nat | InWindow(c, lo, v) && Dirty(h0, v)
        ensures h0.cache[v].value == Backing(c, flash, h0.table, h0.psram, v)
      {
        assert View(c, flash, h, v) == View(c, flash, h0, v);
      }
    }
  }

  /** A chip with one DROM page. */
  function OnePageChip(): Chip {
    Chip(0x1_0000, 0, 1, 0, true, (v: nat) => if v < 0x1_0000 then Slot(0, v) else Nowhere, (v: nat) => v,
         (p: uint32) => p, (r: uint32) => if r == 0x8000 then Psram(0) else Flash(r * 0x1_0000))
  }

  lemma OnePageChipValid()
    ensures OnePageChip().Valid(1, 0x1_0000) && OnePageChip().DromTop() == 0x1_0000
  {
    var c := OnePageChip();
    assert c.Bytes(1) == 0x1_0000;
    forall v: nat | v < 0x1_0000
      ensures c.bus(v) == c.DromSlot(v)
    {
    }
    forall p: uint32 | c.Bytes(p) < 0x1_0000
      ensures c.decode(c.encode(p)) == Flash(c.Bytes(p))
    {
      assert p == 0;
    }
  }

  /** The page mapped to one byte of PSRAM, which the cache holds in a newer version. */
  const UNWRITTEN := Hw([0x8000], [0], map[0 := Cell(1, true)])

  /** An unwritten byte of the borrowed page is lost, whatever state the call leaves behind. */
  lemma UnwrittenByteIsLost(flash: seq<byte>, h: Hw)
    requires |flash| == 0x1_0000
    ensures OnePageChip().Valid(1, |flash|) && Sound(OnePageChip(), flash, UNWRITTEN)
    ensures GivenBack(OnePageChip(), flash, UNWRITTEN, h, 0) ==>
              View(OnePageChip(), flash, UNWRITTEN, 0) == 1 && View(OnePageChip(), flash, h, 0) == 0
  {
    hide Chip.Valid, Chip.Bytes;
    OnePageChipValid();
    var c := OnePageChip();
    assert Translate(c, UNWRITTEN.table, 0) == PsramAt(0);
    forall w: nat | Translate(c, UNWRITTEN.table, w) == PsramAt(0)
      ensures w == 0
    {
    }
    if GivenBack(c, flash, UNWRITTEN, h, 0) {
      assert View(c, flash, h, 0) == ViewAfter(c, flash, UNWRITTEN, 0, 0);
    }
  }
}
