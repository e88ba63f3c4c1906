/** Sequences of mapped reads: the cache stop/start discipline, and invisibility of the whole session. */
module MmuSession {
  import opened Words
  import opened SocModel
  import opened MmuPlan
  import opened Borrowing
  import opened Mmu

  /** The cache runs or not, and the entries that are lent out; Broken after a misuse. */
  datatype Phase = Phase(running: bool, lent: set<nat>) | Broken

  const QUIET := Phase(true, {})

  /**
   * Entries are read, written and restored only while the cache is stopped, stops do not
   * nest, an entry is never borrowed twice and only borrowed entries are restored.
   */
  function Next(p: Phase, command: Command): Phase {
    if p.Broken? then Broken else
      match command
      case Stop => if p.running then p.(running := false) else Broken
      case Start => if p.running then Broken else p.(running := true)
      case Read(_) => if p.running then Broken else p
      case Write(e, _) => if p.running || e in p.lent then Broken else p.(lent := p.lent + {e})
      case Restore(e, _) => if p.running || e !in p.lent then Broken else p.(lent := p.lent - {e})
      case InvalidateAddr(_, _) => if p.running then Broken else p
      case WritebackAll => if p.running then Broken else p
      case InvalidateAll => if p.running then Broken else p
      case Load(_) => if p.running then p else Broken
  }

  function Replay(p: Phase, log: seq<Command>): Phase {
    if log == [] then p else Next(Replay(p, log[..|log| - 1]), log[|log| - 1])
  }

  lemma {:induction false} ReplayConcat(p: Phase, a: seq<Command>, b: seq<Command>)
    ensures Replay(p, a + b) == Replay(Replay(p, a), b)
  {
    if b == [] {
      assert a + b == a;
    } else {
      ReplayConcat(p, a, b[..|b| - 1]);
      assert (a + b)[..|a + b| - 1] == a + b[..|b| - 1];
    }
  }

  lemma ReplayOne(p: Phase, command: Command)
    ensures Replay(p, [command]) == Next(p, command)
  {
    assert [command][..0] == [];
  }

  // What the replay of a log says about its calls

  /** The last Stop among the first k calls has not been followed by a Start. */
  ghost predicate StoppedAt(log: seq<Command>, k: nat)
    requires k <= |log|
  {
    exists j :: 0 <= j < k && log[j] == Stop && (forall i :: j < i < k ==> log[i] != Start)
  }

  lemma {:induction false} ReplayRunning(log: seq<Command>, k: nat)
    requires k <= |log| && Replay(QUIET, log[..k]).Phase?
    ensures Replay(QUIET, log[..k]).running <==> !StoppedAt(log, k)
  {
    if k > 0 {
      assert log[..k][..k - 1] == log[..k - 1];
      ReplayRunning(log, k - 1);
      if log[k - 1] == Stop {
        assert StoppedAt(log, k);
      } else if log[k - 1] != Start && StoppedAt(log, k - 1) {
        var j :| 0 <= j < k - 1 && log[j] == Stop && (forall i :: j < i < k - 1 ==> log[i] != Start);
        assert StoppedAt(log, k);
      }
    }
  }

  lemma {:induction false} ReplayPrefix(log: seq<Command>, k: nat)
    requires k <= |log| && Replay(QUIET, log).Phase?
    ensures Replay(QUIET, log[..k]).Phase?
  {
    if k < |log| {
      ReplayPrefix(log[..|log| - 1], k);
      assert log[..|log| - 1][..k] == log[..k];
    } else {
      assert log[..k] == log;
    }
  }

  /** In a disciplined log the cache is stopped at every call but a load and a stop, and running at those. */
  lemma DisciplineMeans(log: seq<Command>, k: nat)
    requires Replay(QUIET, log).Phase? && k < |log|
    ensures log[k] == Stop || log[k].Load? <==>
              !exists j :: 0 <= j < k && log[j] == Stop && (forall i :: j < i < k ==> log[i] != Start)
  {
    ReplayPrefix(log, k);
    ReplayPrefix(log, k + 1);
    ReplayRunning(log, k);
    assert log[..k + 1][..k] == log[..k];
  }

  /** Entry e has been rewritten and not restored since. */
  ghost predicate Lent(log: seq<Command>, e: nat) {
    exists j :: && 0 <= j < |log| && log[j].Write? && log[j].entry == e
                && (forall i :: j < i < |log| ==> !(log[i].Restore? && log[i].entry == e))
  }

  lemma LentStep(log: seq<Command>, x: Command, e: nat)
    ensures Lent(log + [x], e) <==>
              (x.Write? && x.entry == e) || (Lent(log, e) && !(x.Restore? && x.entry == e))
  {
    var after := log + [x];
    if Lent(log, e) {
      var j :| && 0 <= j < |log| && log[j].Write? && log[j].entry == e
               && (forall i :: j < i < |log| ==> !(log[i].Restore? && log[i].entry == e));
      assert after[j] == log[j];
    }
    if Lent(after, e) {
      var j :| && 0 <= j < |after| && after[j].Write? && after[j].entry == e
               && (forall i :: j < i < |after| ==> !(after[i].Restore? && after[i].entry == e));
      if j < |log| { assert log[j] == after[j] && (forall i :: j < i < |log| ==> log[i] == after[i]); }
    }
    assert after[|log|] == x;
  }

  /** The replay keeps account of the lent entries; a disciplined log that ends with none lent has restored them all. */
  lemma {:induction false} LentMeans(log: seq<Command>, e: nat)
    requires Replay(QUIET, log).Phase?
    ensures e in Replay(QUIET, log).lent <==> Lent(log, e)
  {
    hide Lent;
    if log == [] {
      NoneLent(e);
    } else {
      var before, x := log[..|log| - 1], log[|log| - 1];
      LentMeans(before, e);
      LentStep(before, x, e);
      assert log == before + [x];
    }
  }

  lemma NoneLent(e: nat)
    ensures !Lent([], e)
  {
  }

  function EntryRange(start: nat, n: nat): set<nat> {
    if n == 0 then {} else EntryRange(start, n - 1) + {start + n - 1}
  }

  lemma {:induction false} InEntryRange(start: nat, n: nat, e: nat)
    ensures e in EntryRange(start, n) <==> start <= e < start + n
  {
    if n > 0 { InEntryRange(start, n - 1, e); }
  }

  lemma {:induction false} ReplayReads(start: nat, n: nat, lent: set<nat>)
    ensures Replay(Phase(false, lent), ReadsLog(start, n)) == Phase(false, lent)
  {
    if n > 0 {
      ReplayReads(start, n - 1, lent);
      assert ReadsLog(start, n)[..n - 1] == ReadsLog(start, n - 1);
    }
  }

  lemma {:induction false} ReplayLoads(v: nat, n: nat, lent: set<nat>)
    ensures Replay(Phase(true, lent), LoadsLog(v, n)) == Phase(true, lent)
  {
    if n > 0 {
      ReplayLoads(v, n - 1, lent);
      assert LoadsLog(v, n)[..n - 1] == LoadsLog(v, n - 1);
    }
  }

  lemma {:induction false} ReplayWrites(start: nat, page: nat, n: nat)
    ensures Replay(Phase(false, {}), WritesLog(start, page, n)) == Phase(false, EntryRange(start, n))
  {
    if n > 0 {
      ReplayWrites(start, page, n - 1);
      InEntryRange(start, n - 1, start + n - 1);
      assert WritesLog(start, page, n)[..n - 1] == WritesLog(start, page, n - 1);
    }
  }

  lemma {:induction false} ReplayRestores(start: nat, raws: seq<uint32>, total: nat)
    requires |raws| <= total
    ensures Replay(Phase(false, EntryRange(start, total)), RestoresLog(start, raws))
         == Phase(false, EntryRange(start, total) - EntryRange(start, |raws|))
  {
    var n := |raws|;
    if n > 0 {
      ReplayRestores(start, raws[..n - 1], total);
      InEntryRange(start, n - 1, start + n - 1);
      InEntryRange(start, total, start + n - 1);
      assert RestoresLog(start, raws)[..n - 1] == RestoresLog(start, raws[..n - 1]);
    }
  }

  lemma ReplayInvalidate(c: Chip, lo: nat, size: nat, lent: set<nat>)
    ensures Replay(Phase(false, lent), InvalidateLog(c, lo, size)) == Phase(false, lent)
  {
    if c.invalidatesByAddr {
      ReplayOne(Phase(false, lent), InvalidateAddr(lo, size));
    } else {
      assert [WritebackAll, InvalidateAll] == [WritebackAll] + [InvalidateAll];
      ReplayConcat(Phase(false, lent), [WritebackAll], [InvalidateAll]);
      ReplayOne(Phase(false, lent), WritebackAll);
      ReplayOne(Phase(false, lent), InvalidateAll);
    }
  }

  lemma ReplayMap(c: Chip, m: Plan)
    requires m.Mapped?
    ensures Replay(QUIET, MapLog(c, m)) == Phase(true, EntryRange(m.entryStart, m.count))
  {
    var saves, writes := ReadsLog(m.entryStart, m.count), WritesLog(m.entryStart, m.flashPage, m.count);
    var inval := InvalidateLog(c, m.vaddrBase, c.Bytes(m.count));
    var lent := EntryRange(m.entryStart, m.count);
    ReplayOne(QUIET, Stop);
    ReplayConcat(QUIET, [Stop], saves);
    ReplayReads(m.entryStart, m.count, {});
    ReplayConcat(QUIET, [Stop] + saves, writes);
    ReplayWrites(m.entryStart, m.flashPage, m.count);
    ReplayConcat(QUIET, [Stop] + saves + writes, inval);
    ReplayInvalidate(c, m.vaddrBase, c.Bytes(m.count), lent);
    ReplayConcat(QUIET, [Stop] + saves + writes + inval, [Start]);
    ReplayOne(Phase(false, lent), Start);
  }

  lemma ReplayUnmap(c: Chip, m: Plan, raws: seq<uint32>)
    requires m.Mapped? && |raws| == m.count
    ensures Replay(Phase(true, EntryRange(m.entryStart, m.count)), UnmapLog(c, m, raws)) == QUIET
  {
    var lent := EntryRange(m.entryStart, m.count);
    var p, restores := Phase(true, lent), RestoresLog(m.entryStart, raws);
    var inval := InvalidateLog(c, m.vaddrBase, c.Bytes(m.count));
    ReplayOne(p, Stop);
    ReplayConcat(p, [Stop], restores);
    ReplayRestores(m.entryStart, raws, m.count);
    assert lent - lent == {};
    ReplayConcat(p, [Stop] + restores, inval);
    ReplayInvalidate(c, m.vaddrBase, c.Bytes(m.count), {});
    ReplayConcat(p, [Stop] + restores + inval, [Start]);
    ReplayOne(Phase(false, {}), Start);
  }

  /** The calls of one read keep the discipline and end with the cache running and nothing borrowed. */
  lemma ReadKeepsDiscipline(c: Chip, m: Plan, size: nat, raws: seq<uint32>)
    requires m.Mapped? && |raws| == m.count
    ensures Replay(QUIET, ReadLog(c, m, size, raws)) == QUIET
  {
    var loads := LoadsLog(m.vaddrBase + m.offset, size);
    ReplayMap(c, m);
    ReplayConcat(QUIET, MapLog(c, m), loads);
    ReplayLoads(m.vaddrBase + m.offset, size, EntryRange(m.entryStart, m.count));
    ReplayConcat(QUIET, MapLog(c, m) + loads, UnmapLog(c, m, raws));
    ReplayUnmap(c, m, raws);
  }

  /** What one read of a sequence delivered. */
  datatype Option = None | Some(bytes: seq<byte>)

  datatype Request = Request(addr: uint32, size: uint32)

  /** The caller's duty: an accepted request lies in the flash, does not wrap, and fits the buffer. */
  predicate Proper(c: Chip, flashSize: nat, length: nat, r: Request)
    requires c.dromStart <= c.dromEnd
  {
    && r.size <= length
    && (MapPlan(c, r.addr, r.size).Mapped? ==> c.pageSize > 0 && !SumWraps(c.pageSize, r.addr, r.size) && r.addr + r.size <= flashSize)
  }

  /** The bytes asked for; none when the request is refused. */
  function Delivered(c: Chip, flash: seq<byte>, r: Request): Option
    requires c.dromStart <= c.dromEnd
  {
    if MapPlan(c, r.addr, r.size).Mapped? && r.addr + r.size <= |flash| then Some(flash[r.addr..r.addr + r.size]) else None
  }

  /** No unwritten data at any address that a read can borrow. */
  ghost predicate DromClean(c: Chip, h: Hw)
    requires c.dromStart <= c.dromEnd
  {
    forall v: nat :: c.dromVaddr <= v < c.DromTop() ==> !Dirty(h, v)
  }

  lemma CleanStaysInvisible(c: Chip, flash: seq<byte>, h0: Hw, h: Hw, h': Hw, lo: nat)
    requires c.dromStart <= c.dromEnd && c.dromVaddr <= lo
    requires DromClean(c, h) && Invisible(c, flash, h0, h)
    requires GivenBack(c, flash, h, h', lo) && (Invisible(c, flash, h, h') <==> WindowClean(c, flash, h, lo))
    ensures DromClean(c, h') && Invisible(c, flash, h0, h')
  {
    forall v: nat
      ensures View(c, flash, h', v) == View(c, flash, h0, v)
    {
      assert View(c, flash, h', v) == View(c, flash, h, v) == View(c, flash, h0, v);
    }
  }

  /**
   * Any sequence of reads, accepted or refused: every accepted one delivers its flash
   * bytes, the sequence is invisible as a whole and keeps the discipline throughout.
   */
  method ReadAll(mmu: MmuReader, buffer: array<byte>, requests: seq<Request>) returns (copies: seq<Option>)
    requires mmu.Valid() && mmu.Idle() && Sound(mmu.soc.chip, mmu.soc.flash, mmu.soc.Snapshot())
    requires DromClean(mmu.soc.chip, mmu.soc.Snapshot()) && Replay(QUIET, mmu.soc.log) == QUIET
    requires (buffer as object) != mmu.saved && (buffer as object) != mmu.soc.table
    requires forall r :: r in requests ==> Proper(mmu.soc.chip, |mmu.soc.flash|, buffer.Length, r)
    modifies mmu, mmu.saved, mmu.soc, mmu.soc.table, buffer
    ensures mmu.Idle() && Sound(mmu.soc.chip, mmu.soc.flash, mmu.soc.Snapshot())
    ensures mmu.soc.table[..] == old(mmu.soc.table[..])
    ensures Invisible(mmu.soc.chip, mmu.soc.flash, old(mmu.soc.Snapshot()), mmu.soc.Snapshot())
    ensures Replay(QUIET, mmu.soc.log) == QUIET
    ensures |copies| == |requests|
    ensures forall i :: 0 <= i < |requests| ==>
              copies[i] == Delivered(mmu.soc.chip, mmu.soc.flash, requests[i])
  {
    hide Sound, Invisible, GivenBack, WindowClean, DromClean, ReadLog, Replay, MapPlan, SumWraps, Chip.Valid;
    ghost var c, flash, h0 := mmu.soc.chip, mmu.soc.flash, mmu.soc.Snapshot();
    InvisibleToItself(c, flash, h0);
    copies := [];
    for i := 0 to |requests|
      invariant mmu.Idle() && Sound(c, flash, mmu.soc.Snapshot()) && DromClean(c, mmu.soc.Snapshot())
      invariant mmu.soc.table[..] == h0.table
      invariant Invisible(c, flash, h0, mmu.soc.Snapshot())
      invariant Replay(QUIET, mmu.soc.log) == QUIET
      invariant |copies| == i
      invariant forall k :: 0 <= k < i ==>
                  copies[k] == Delivered(c, flash, requests[k])
    {
      var r := requests[i];
      assert r in requests;
      ghost var h, log, m := mmu.soc.Snapshot(), mmu.soc.log, MapPlan(c, r.addr, r.size);
      var st := mmu.ReadFlash(r.addr, buffer, r.size);
      if !st.Ok? {
        copies := copies + [None];
      } else {
        assert buffer[..r.size] == flash[r.addr..r.addr + r.size];
        copies := copies + [Some(buffer[..r.size])];
        PlanBounds(c, mmu.soc.table.Length, |flash|, r.addr, r.size);
        CleanStaysInvisible(c, flash, h0, h, mmu.soc.Snapshot(), m.vaddrBase);
        var raws := h.table[m.entryStart..m.entryStart + m.count];
        ReplayConcat(QUIET, log, ReadLog(c, m, r.size, raws));
        ReadKeepsDiscipline(c, m, r.size, raws);
      }
    }
  }

  lemma PlanBounds(c: Chip, entries: nat, flashSize: nat, addr: uint32, size: uint32)
    requires c.Valid(entries, flashSize) && MapPlan(c, addr, size).Mapped?
    ensures c.dromVaddr <= MapPlan(c, addr, size).vaddrBase
    ensures MapPlan(c, addr, size).entryStart + MapPlan(c, addr, size).count <= entries
  {
    PlanFits(c, entries, flashSize, addr, size);
  }

  lemma InvisibleToItself(c: Chip, flash: seq<byte>, h: Hw)
    ensures Invisible(c, flash, h, h)
  {
  }
}
