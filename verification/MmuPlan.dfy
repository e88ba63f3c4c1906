/** The arithmetic of src/mmu.c: which entries a read borrows, and when a read is refused. */
module MmuPlan {
  import opened Words
  import opened BitUtils
  import opened SocModel

  const MAX_PAGES := 8

  /** mmu_page_shift; 0 stands for an unsupported page size. */
  function PageShift(pageSize: uint32): nat {
    match pageSize
    case 0x2000 => 13
    case 0x4000 => 14
    case 0x8000 => 15
    case 0x1_0000 => 16
    case 0x2_0000 => 17
    case 0x4_0000 => 18
    case _ => 0
  }

  datatype Plan = Rejected | Mapped(entryStart: uint32, count: uint32, flashPage: uint32, vaddrBase: uint32, offset: uint32)

  /** The decisions of mmu_mmap, with its 32-bit arithmetic. */
  function MapPlan(c: Chip, addr: uint32, size: uint32): Plan
    requires c.dromStart <= c.dromEnd
  {
    var shift := PageShift(c.pageSize);
    var aligned := AlignDown(addr, c.pageSize);
    var offset := addr - aligned;
    if size == 0 || shift == 0 then Rejected
    else if size > UINT32_MAX - offset then Rejected
    else
      var count := ShiftRight(Wrap(size + offset + c.pageSize - 1), shift);
      if count > MAX_PAGES || count > c.dromEnd - c.dromStart then Rejected
      else
        var start := c.dromEnd - count;
        Mapped(start, count, ShiftRight(aligned, shift), Wrap(c.dromVaddr + c.Bytes(start - c.dromStart)), offset)
  }

  predicate Supported(pageSize: uint32) {
    pageSize in {0x2000, 0x4000, 0x8000, 0x1_0000, 0x2_0000, 0x4_0000}
  }

  lemma ShiftIsLog(pageSize: uint32)
    ensures PageShift(pageSize) != 0 <==> Supported(pageSize)
    ensures Supported(pageSize) ==> Pow2(PageShift(pageSize)) == pageSize && PageShift(pageSize) < 32
  {
    Pow2Values();
  }

  /** The supported sizes, one by one. */
  lemma SupportedSizes(pageSize: uint32)
    ensures Supported(pageSize) <==>
              || pageSize == 0x2000 || pageSize == 0x4000 || pageSize == 0x8000
              || pageSize == 0x1_0000 || pageSize == 0x2_0000 || pageSize == 0x4_0000
    ensures PageShift(0x2000) == 13 && PageShift(0x4000) == 14 && PageShift(0x8000) == 15
    ensures PageShift(0x1_0000) == 16 && PageShift(0x2_0000) == 17 && PageShift(0x4_0000) == 18
  {
  }

  /** The distinct pages that [addr, addr + size) meets. */
  ghost function PagesMet(pageSize: nat, addr: nat, size: nat): set<nat>
    requires pageSize > 0
  {
    set a: nat | addr <= a < addr + size :: a / pageSize
  }

  /** The sum on line 94 exceeds 32 bits although the guard on line 88 let it through. */
  predicate SumWraps(pageSize: uint32, addr: uint32, size: uint32)
    requires pageSize > 0
  {
    0x1_0000_0000 - pageSize < size + addr % pageSize < 0x1_0000_0000
  }

  function Interval(a: nat, n: nat): (s: set<nat>)
    ensures forall x :: x in s <==> a <= x < a + n
  {
    if n == 0 then {} else Interval(a, n - 1) + {a + n - 1}
  }

  lemma {:induction false} IntervalSize(a: nat, n: nat)
    ensures |Interval(a, n)| == n
  {
    if n > 0 {
      IntervalSize(a, n - 1);
    }
  }

  lemma DivMonotone(a: nat, b: nat, p: nat)
    requires p > 0 && a <= b
    ensures a / p <= b / p
  {
    if a / p > b / p {
      MulAtLeast(p, a / p - b / p);
    }
  }

  lemma PageSpan(p: nat, addr: nat, size: nat)
    requires p > 0 && size > 0
    ensures (addr + size - 1) / p == addr / p + (addr % p + size - 1) / p
    ensures (addr % p + size + p - 1) / p == (addr % p + size - 1) / p + 1
  {
    var q, r := (addr % p + size - 1) / p, (addr % p + size - 1) % p;
    assert addr == p * (addr / p) + addr % p;
    assert addr % p + size - 1 == p * q + r;
    assert p * (addr / p + q) == p * (addr / p) + p * q;
    DivModUnique(addr + size - 1, p, addr / p + q, r);
    assert p * (q + 1) == p * q + p;
    DivModUnique(addr % p + size + p - 1, p, q + 1, r);
  }

  /** The rounded quotient of lines 93-94 counts the pages the request meets. */
  lemma PageCountExact(p: nat, addr: nat, size: nat)
    requires p > 0 && size > 0
    ensures |PagesMet(p, addr, size)| == (addr % p + size + p - 1) / p
  {
    PageSpan(p, addr, size);
    var first, n := addr / p, (addr % p + size - 1) / p + 1;
    forall x: nat
      ensures x in PagesMet(p, addr, size) <==> first <= x < first + n
    {
      if x in PagesMet(p, addr, size) {
        var a: nat :| addr <= a < addr + size && x == a / p;
        DivMonotone(addr, a, p);
        DivMonotone(a, addr + size - 1, p);
      }
      if first <= x < first + n {
        PageHasAddress(p, addr, size, x);
      }
    }
    assert PagesMet(p, addr, size) == Interval(first, n);
    IntervalSize(first, n);
  }

  lemma PageHasAddress(p: nat, addr: nat, size: nat, x: nat)
    requires p > 0 && size > 0 && addr / p <= x <= (addr + size - 1) / p
    ensures x in PagesMet(p, addr, size)
  {
    var a := if x == addr / p then addr else p * x;
    if x > addr / p {
      assert addr < p * x by {
        MulAtLeast(p, x - addr / p);
        assert p * (x - addr / p) == p * x - p * (addr / p);
      }
      assert p * x <= addr + size - 1 by {
        var last := (addr + size - 1) / p;
        if x < last { MulAtLeast(p, last - x); }
        assert p * (last - x) == p * last - p * x;
      }
      DivModUnique(p * x, p, x, 0);
    }
    assert addr <= a < addr + size && a / p == x;
  }

  /**
   * For every request: it is refused exactly when it is empty, the page size is not
   * supported, or it meets more pages than the table can lend, unless the 32-bit sum
   * wraps; a request that wraps is accepted with no page at all.
   */
  lemma RefusalExact(c: Chip, addr: uint32, size: uint32)
    requires c.dromStart <= c.dromEnd
    ensures MapPlan(c, addr, size).Rejected? <==>
              || size == 0
              || !Supported(c.pageSize)
              || (!(0x1_0000_0000 - c.pageSize < size + addr % c.pageSize < 0x1_0000_0000)
                  && (|PagesMet(c.pageSize, addr, size)| > 8 || |PagesMet(c.pageSize, addr, size)| > c.dromEnd - c.dromStart))
    ensures MapPlan(c, addr, size).Mapped? ==>
              MapPlan(c, addr, size).count ==
                if 0x1_0000_0000 - c.pageSize < size + addr % c.pageSize < 0x1_0000_0000 then 0
                else |PagesMet(c.pageSize, addr, size)|
  {
    var p := c.pageSize;
    ShiftIsLog(p);
    if size > 0 && Supported(p) {
      AlignMacros(addr, p, PageShift(p));
      PageCountExact(p, addr, size);
      var sum := addr % p + size + p - 1;
      if SumWraps(p, addr, size) {
        assert Wrap(sum) == sum - 0x1_0000_0000;
        DivModUnique(Wrap(sum), p, 0, Wrap(sum));
      } else if addr % p + size > UINT32_MAX {
        DivMonotone(9 * p, sum, p);
        DivModUnique(9 * p, p, 9, 0);
      }
    }
  }

  /** A request of almost 4 GiB needs 65536 pages of 64 KiB and is accepted with none. */
  lemma WrappingRequestAccepted(c: Chip)
    requires c.dromStart <= c.dromEnd && c.pageSize == 0x1_0000
    ensures MapPlan(c, 0, UINT32_MAX).Mapped? && MapPlan(c, 0, UINT32_MAX).count == 0
    ensures |PagesMet(c.pageSize, 0, UINT32_MAX)| == 0x1_0000
  {
    RefusalExact(c, 0, UINT32_MAX);
    PageCountExact(c.pageSize, 0, UINT32_MAX);
    PageSpan(c.pageSize, 0, UINT32_MAX);
  }

  /** The window that a plan borrows: from its base to the end of the DROM region. */
  lemma WindowShape(c: Chip, entries: nat, flashSize: nat, addr: uint32, size: uint32)
    requires c.Valid(entries, flashSize)
    requires MapPlan(c, addr, size).Mapped?
    ensures var m := MapPlan(c, addr, size);
            && m.entryStart == c.dromEnd - m.count && c.dromStart <= m.entryStart
            && m.vaddrBase + c.Bytes(m.count) == c.DromTop()
            && m.vaddrBase == c.EntryVaddr(m.entryStart)
            && c.Bytes(m.flashPage) + m.offset == addr && m.offset < c.pageSize
            && m.count <= MAX_PAGES
  {
    hide Chip.DromSlot;
    var m := MapPlan(c, addr, size);
    ShiftIsLog(c.pageSize);
    AlignMacros(addr, c.pageSize, PageShift(c.pageSize));
    RoundedQuotient(addr, c.pageSize);
    BytesSum(c, m.entryStart - c.dromStart, m.count);
  }

  lemma RoundedQuotient(x: nat, p: nat)
    requires p > 0
    ensures (x - x % p) / p * p == x - x % p
  {
    DivModUnique(x - x % p, p, x / p, 0);
  }

  /** Without the wrap, the bytes of the request all lie in the window. */
  lemma RequestFits(c: Chip, addr: uint32, size: uint32)
    requires c.dromStart <= c.dromEnd && c.pageSize > 0
    requires MapPlan(c, addr, size).Mapped? && !SumWraps(c.pageSize, addr, size)
    ensures MapPlan(c, addr, size).offset + size <= c.Bytes(MapPlan(c, addr, size).count)
    ensures MapPlan(c, addr, size).count > 0
    ensures c.Bytes(MapPlan(c, addr, size).count - 1) < MapPlan(c, addr, size).offset + size
  {
    var m, p := MapPlan(c, addr, size), c.pageSize;
    ShiftIsLog(p);
    AlignMacros(addr, p, PageShift(p));
    var sum := m.offset + size + p - 1;
    assert m.count == sum / p;
    assert sum == p * m.count + sum % p;
    assert m.count * p == p * m.count;
    assert (m.count - 1) * p == p * m.count - p;
  }
}
