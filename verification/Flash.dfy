/** src/flash.c: the erase, write and read engine. */
module Flash {
  import opened Words
  import opened BitUtils
  import opened Errors
  import opened ErasePlan
  import opened NorContent
  import opened WritePlan
  import opened NorDevice

  const ERASE_TIMEOUT_US: nat := 1_000_000

  /** A uint32_t variable of the caller that a call updates in place. */
  class Cursor {
    var v: uint32
    constructor (v: uint32)
      ensures this.v == v
    {
      this.v := v;
    }
  }

  /** The size that an id stands for; 0 when it is unknown. */
  function IdToSize(flashId: uint32): nat {
    var id := flashId % 256;
    if 0x12 <= id <= 0x1C then Pow2(id) else if id == 0x39 then 0x200_0000 else 0
  }

  /** The sizes, id by id: 256 KB to 256 MB by powers of two, and 32 MB for 0x39. */
  lemma SizesOfIds(flashId: uint32)
    ensures IdToSize(flashId) ==
              match flashId % 0x100
              case 0x12 => 0x4_0000 case 0x13 => 0x8_0000 case 0x14 => 0x10_0000 case 0x15 => 0x20_0000
              case 0x16 => 0x40_0000 case 0x17 => 0x80_0000 case 0x18 => 0x100_0000 case 0x19 => 0x200_0000
              case 0x1A => 0x400_0000 case 0x1B => 0x800_0000 case 0x1C => 0x1000_0000
              case 0x39 => 0x200_0000
              case _ => 0
  {
    Pow2Values();
    Pow2Step(16); Pow2Step(20); Pow2Step(24);
  }

  function DetectedSize(flashId: uint32, maxSize: nat): nat {
    if IdToSize(flashId) == 0 then maxSize else IdToSize(flashId)
  }

  /** The part of the device that an erase run changes. */
  datatype Snap = Snap(erases: seq<Erase>, settled: seq<byte>, polls: nat, issued: nat, offered: nat, busy: nat)

  /** The erases numbered from lo to below hi are done in time. */
  ghost predicate InTime(dev: Nor, lo: nat, hi: int) {
    forall i: nat :: lo <= i < hi ==> dev.answers.timing(i) < 1_000_000
  }

  /** The four-byte starts numbered from lo to below hi are accepted. */
  ghost predicate Accepted(dev: Nor, lo: nat, hi: int) {
    forall i: nat :: lo <= i < hi ==> !dev.answers.refuses(i)
  }

  /** The device is idle in time before each of n erases and after the last one, and refuses none. */
  ghost predicate AllGoWell(dev: Nor, large: bool, s: Snap, n: nat) {
    s.busy < 1_000_000 && InTime(dev, s.issued, s.issued + n) && (large ==> Accepted(dev, s.offered, s.offered + n))
  }

  /** n commands of the plan are issued; the cursors stand at a and left. */
  ghost predicate Progress(dev: Nor, large: bool, s0: Snap, s: Snap, plan: seq<Erase>, n: nat, a: nat, left: nat) {
    && a % SECTOR == 0 && left % SECTOR == 0 && a + left <= dev.size <= 0x1_0000_0000
    && n <= |plan| && plan == plan[..n] + Plan(a, left)
    && s.erases == s0.erases + plan[..n]
    && s.settled == EraseAll(s0.settled, plan[..n])
    && s.polls <= s0.polls + n * ERASE_TIMEOUT_US
    && s.issued == s0.issued + n && s.offered == s0.offered + (if large then n else 0)
    && (n == 0 ==> s.busy == s0.busy)
    && (n > 0 ==> s.busy == dev.answers.timing(s0.issued + n - 1) && s0.busy < ERASE_TIMEOUT_US)
    && InTime(dev, s0.issued, s0.issued + n - 1)
    && (large ==> Accepted(dev, s0.offered, s0.offered + n))
  }

  /**
   * Why a run of erases ends after n of total commands: everything before went well, and
   * either the device is busy too long or the next start is refused.
   */
  ghost predicate FirstTrouble(dev: Nor, large: bool, s0: Snap, n: nat, total: nat) {
    && n <= total
    && InTime(dev, s0.issued, s0.issued + n - 1)
    && (large ==> Accepted(dev, s0.offered, s0.offered + n))
    && (n > 0 ==> s0.busy < ERASE_TIMEOUT_US)
    && (|| (n == 0 && s0.busy >= ERASE_TIMEOUT_US)
        || (n > 0 && dev.answers.timing(s0.issued + n - 1) >= ERASE_TIMEOUT_US)
        || (n < total && large && dev.answers.refuses(s0.offered + n)))
  }

  /** A run that stopped after n commands of the plan. */
  ghost predicate Stopped(s0: Snap, s: Snap, plan: seq<Erase>, n: nat) {
    && n <= |plan| && s.erases == s0.erases + plan[..n]
    && s.settled == EraseAll(s0.settled, plan[..n])
    && s.polls <= s0.polls + (n + 1) * ERASE_TIMEOUT_US
  }

  lemma ProgressStops(dev: Nor, large: bool, s0: Snap, s: Snap, s': Snap, plan: seq<Erase>, n: nat, a: nat, left: nat)
    requires Progress(dev, large, s0, s, plan, n, a, left)
    requires s'.erases == s.erases && s'.settled == s.settled && s'.polls <= s.polls + ERASE_TIMEOUT_US
    ensures Stopped(s0, s', plan, n)
  {
    hide EraseAll, Plan;
  }

  /** A successful start_next_erase on aligned cursors with something left. */
  ghost predicate Advanced(dev: Nor, large: bool, s: Snap, s': Snap, a: nat, left: nat, a': nat, left': nat) {
    && left > 0 && s.busy < ERASE_TIMEOUT_US && (large ==> !dev.answers.refuses(s.offered))
    && a' == Wrap(a + First(a, left).Size()) && left' == Rest(a, left)
    && s'.erases == s.erases + [First(a, left)]
    && s'.settled == Filled(s.settled, First(a, left).addr, First(a, left).Size())
    && s'.polls <= s.polls + ERASE_TIMEOUT_US
    && s'.issued == s.issued + 1 && s'.offered == s.offered + (if large then 1 else 0)
    && s'.busy == dev.answers.timing(s.issued)
  }

  lemma ProgressStep(dev: Nor, large: bool, s0: Snap, s: Snap, s': Snap, plan: seq<Erase>, n: nat,
                     a: nat, left: nat, a': nat, left': nat)
    requires Progress(dev, large, s0, s, plan, n, a, left) && Advanced(dev, large, s, s', a, left, a', left')
    ensures Progress(dev, large, s0, s', plan, n + 1, a', left')
  {
    hide First, Rest, Plan, EraseAll, Filled;
    PlanStep(a, left, a');
    AlignedStep(a, left, a', dev.size);
    assert plan[n] == First(a, left);
    EraseAllAppend(s0.settled, plan[..n], plan[n]);
    assert plan[..n + 1] == plan[..n] + [plan[n]];
    assert s'.erases == s0.erases + plan[..n + 1];
  }

  /** With all commands issued, the outcome of the last wait decides. */
  lemma ProgressEnds(dev: Nor, large: bool, s0: Snap, s: Snap, addr: nat, size: nat, n: nat, a: nat)
    requires Progress(dev, large, s0, s, Plan(addr, size), n, a, 0) && addr % SECTOR == 0 && size % SECTOR == 0
    ensures n == |Plan(addr, size)| && Plan(addr, size)[..n] == Plan(addr, size)
    ensures s.settled == Filled(s0.settled, addr, size)
    ensures s.busy < ERASE_TIMEOUT_US <==> AllGoWell(dev, large, s0, n)
    ensures s.busy >= ERASE_TIMEOUT_US ==> FirstTrouble(dev, large, s0, n, n)
  {
    hide First, Rest, Plan, EraseAll, Filled;
    var plan := Plan(addr, size);
    EmptyPlan(a, 0);
    assert plan[..n] == plan;
    PlanTiles(addr, size);
    RaggedBound(size);
    TilesFill(s0.settled, plan, addr, addr + size);
  }

  /** A start that does not succeed spoils the whole run. */
  lemma ProgressFails(dev: Nor, large: bool, s0: Snap, s: Snap, plan: seq<Erase>, n: nat, a: nat, left: nat)
    requires Progress(dev, large, s0, s, plan, n, a, left) && left > 0
    requires s.busy >= ERASE_TIMEOUT_US || (large && dev.answers.refuses(s.offered))
    ensures !AllGoWell(dev, large, s0, |plan|) && FirstTrouble(dev, large, s0, n, |plan|)
  {
    hide EraseAll, First, Rest;
    EmptyPlan(a, left);
  }

  class FlashLib {
    const dev: Nor
    const wideSupported: bool
    var large: bool      // large_flash_mode
    var wideCache: bool  // four-byte addressing of the cache

    ghost predicate Wired()
      reads this, dev
    {
      dev.Valid() && (large ==> wideSupported) && (wideCache ==> large)
    }

    /** Initialized: in normal mode 24 address bits reach the whole device. */
    ghost predicate Valid()
      reads this, dev
    {
      Wired() && (!large ==> dev.size <= 0x100_0000)
    }

    constructor (dev: Nor, wideSupported: bool)
      requires dev.Valid()
      ensures Wired() && this.dev == dev && this.wideSupported == wideSupported && !large && !wideCache
    {
      this.dev, this.wideSupported, large, wideCache := dev, wideSupported, false, false;
    }

    // ---- Life cycle

    /**
     * stub_lib_flash_init_ex, given the flash id, the chip's largest flash and the result
     * of the target configuration. The four-byte mode is chosen when the detected flash
     * needs it, so a device no larger than detected is reached entirely.
     */
    method InitEx(flashId: uint32, maxSize: nat, enableWideCache: bool, configured: Status) returns (st: Status)
      requires Wired()
      modifies this
      ensures Wired()
      ensures large <==> old(large) || (wideSupported && DetectedSize(flashId, maxSize) > 0x100_0000)
      ensures wideCache <==> old(wideCache) || (wideSupported && DetectedSize(flashId, maxSize) > 0x100_0000 && enableWideCache)
      ensures st == if configured != Ok then configured else if IdToSize(flashId) == 0 then UnknownFlashId else Ok
      ensures dev.size <= DetectedSize(flashId, maxSize) && (wideSupported || dev.size <= 0x100_0000) ==> Valid()
    {
      var flashSize := IdToSize(flashId);
      st := Ok;
      if flashSize == 0 {
        flashSize := maxSize;
        st := UnknownFlashId;
      }
      if wideSupported && flashSize > 0x100_0000 {
        large := true;
        if enableWideCache {
          wideCache := true;
        }
      }
      if configured != Ok {
        return configured;
      }
    }

    /** stub_lib_flash_deinit: a matching pair of init and deinit leaves both modes off. */
    method Deinit()
      requires Wired()
      modifies this
      ensures Wired() && !large && !wideCache
    {
      if wideSupported && large {
        wideCache := false;
        large := false;
      }
    }

    // ---- Erasing

    ghost function Now(): Snap
      reads dev
    {
      Snap(dev.erases, dev.Settled(), dev.polls, dev.issued, dev.offered, dev.busy)
    }

    /** stub_lib_flash_wait_ready: Ok exactly when one of the allowed polls sees the device idle. */
    method WaitReady(timeout: nat) returns (st: Status)
      requires Valid()
      modifies dev`cells, dev`job, dev`busy, dev`polls
      ensures Valid()
      ensures st == Ok || st == Timeout
      ensures st == Ok <==> old(dev.busy) < (if timeout == 0 then 1 else timeout)
      ensures st == Ok ==> dev.Idle() && dev.cells == old(dev.Settled()) && dev.polls == old(dev.polls) + old(dev.busy) + 1
      ensures st == Timeout ==>
                && dev.busy == old(dev.busy) - (if timeout == 0 then 1 else timeout)
                && dev.polls == old(dev.polls) + (if timeout == 0 then 1 else timeout)
      ensures dev.Settled() == old(dev.Settled())
    {
      var elapsed := 0;
      while true
        invariant Valid() && elapsed == old(dev.busy) - dev.busy == dev.polls - old(dev.polls)
        invariant elapsed < (if timeout == 0 then 1 else timeout)
        invariant dev.job == old(dev.job) && dev.cells == old(dev.cells)
        decreases (if timeout == 0 then 1 else timeout) - elapsed
      {
        var b := dev.IsBusy();
        if !b {
          return Ok;
        }
        elapsed := elapsed + 1;
        if elapsed >= timeout {
          return Timeout;
        }
      }
    }

    /** The choice of the addressing mode. */
    method Issue(e: Erase) returns (ok: bool)
      requires Valid() && dev.Idle() && e.Aligned() && e.addr + e.Size() <= dev.size
      modifies dev`cells, dev`job, dev`busy, dev`issued, dev`offered, dev`erases
      ensures Valid()
      ensures ok <==> !(large && dev.answers.refuses(old(dev.offered)))
      ensures ok ==> dev.erases == old(dev.erases) + [e] && dev.busy == dev.answers.timing(old(dev.issued))
      ensures ok ==> dev.Settled() == Filled(old(dev.cells), e.addr, e.Size())
      ensures ok ==> dev.issued == old(dev.issued) + 1 && dev.offered == old(dev.offered) + (if large then 1 else 0)
      ensures !ok ==> dev.erases == old(dev.erases) && dev.issued == old(dev.issued) && dev.Settled() == old(dev.cells)
      ensures dev.offered == old(dev.offered) + (if large then 1 else 0)
    {
      hide Filled;
      if wideSupported && large {
        ok := dev.StartWide(e);
      } else {
        assert Narrow(e) == e;
        dev.StartNarrow(e);
        ok := true;
      }
    }

    /**
     * stub_lib_flash_start_next_erase. Commands issued so far followed by the plan from
     * the cursors is the same sequence before and after, whatever the outcome; a failure
     * moves neither cursor and issues nothing.
     */
    method StartNextErase(next: Cursor?, remaining: Cursor?, timeout: nat) returns (st: Status)
      requires Valid() && (next != null ==> next != remaining)
      requires next != null && remaining != null ==> next.v + remaining.v <= dev.size
      modifies next, remaining, dev`cells, dev`job, dev`busy, dev`polls, dev`issued, dev`offered, dev`erases
      ensures Valid()
      ensures next == null || remaining == null ==>
                st == InvalidArg && dev.erases == old(dev.erases) && dev.polls == old(dev.polls)
                && dev.cells == old(dev.cells) && dev.job == old(dev.job) && dev.busy == old(dev.busy)
                && dev.issued == old(dev.issued) && dev.offered == old(dev.offered)
      ensures next != null && remaining == null ==> next.v == old(next.v)
      ensures next == null && remaining != null ==> remaining.v == old(remaining.v)
      ensures next != null && remaining != null ==>
                && st == (if old(dev.busy) >= (if timeout == 0 then 1 else timeout) then Timeout
                          else if old(remaining.v) == 0 then Ok
                          else if old(next.v) % 0x1000 != 0 then InvalidArg
                          else if large && dev.answers.refuses(old(dev.offered)) then Timeout
                          else Ok)
                && (st != Ok || old(remaining.v) == 0 ==>
                     && next.v == old(next.v) && remaining.v == old(remaining.v)
                     && dev.erases == old(dev.erases) && dev.issued == old(dev.issued)
                     && dev.Settled() == old(dev.Settled()))
                && (st == Ok && old(remaining.v) > 0 ==>
                     var e := First(old(next.v), old(remaining.v));
                     && next.v == Wrap(old(next.v) + e.Size()) && remaining.v == Rest(old(next.v), old(remaining.v))
                     && dev.erases == old(dev.erases) + [e] && dev.busy == dev.answers.timing(old(dev.issued))
                     && dev.issued == old(dev.issued) + 1 && dev.offered == old(dev.offered) + (if large then 1 else 0)
                     && dev.Settled() == Filled(old(dev.Settled()), e.addr, e.Size()))
                && (st == Ok && old(remaining.v) == 0 ==> dev.Idle())
                && dev.erases + Plan(next.v, remaining.v) == old(dev.erases) + Plan(old(next.v), old(remaining.v))
                && dev.polls <= old(dev.polls) + (if timeout == 0 then 1 else timeout)
    {
      hide Filled, Plan, First;
      if next == null || remaining == null {
        return InvalidArg;
      }
      var ready := WaitReady(timeout);
      if ready != Ok {
        return Timeout;
      }
      if remaining.v == 0 {
        return Ok;
      }
      ghost var ready0 := Now();
      var e;
      st, e := StartCommand(next.v, remaining.v);
      if st != Ok {
        return;
      }
      var addr, left := next.v, remaining.v;
      next.v := Wrap(addr + e.Size());
      remaining.v := if left >= e.Size() then left - e.Size() else 0;
      PlanStep(addr, left, next.v);
      assert dev.erases + Plan(next.v, remaining.v) == ready0.erases + ([e] + Plan(next.v, remaining.v));
    }

    /** The choice and the start of one erase, once the device is idle. */
    method StartCommand(addr: uint32, left: uint32) returns (st: Status, e: Erase)
      requires Valid() && dev.Idle() && left > 0 && addr + left <= dev.size
      modifies dev`cells, dev`job, dev`busy, dev`issued, dev`offered, dev`erases
      ensures Valid() && e == First(addr, left)
      ensures st == if addr % SECTOR != 0 then InvalidArg else if large && dev.answers.refuses(old(dev.offered)) then Timeout else Ok
      ensures st != Ok ==> dev.erases == old(dev.erases) && dev.issued == old(dev.issued) && dev.Settled() == old(dev.cells)
      ensures st == Ok ==>
                && dev.erases == old(dev.erases) + [e] && dev.busy == dev.answers.timing(old(dev.issued))
                && dev.issued == old(dev.issued) + 1 && dev.offered == old(dev.offered) + (if large then 1 else 0)
                && dev.Settled() == Filled(old(dev.cells), e.addr, e.Size())
    {
      hide Filled, IsAligned;
      if left >= BLOCK && addr % BLOCK == 0 {
        e := Block(addr);
        BlockIsAligned(addr);
      } else {
        e := Sector(addr);
        SectorAligned(addr);
        if !IsAligned(addr, SECTOR) {
          return InvalidArg, e;
        }
      }
      AlignedFits(addr, left, dev.size);
      var ok := Issue(e);
      st := if ok then Ok else Timeout;
    }

    /**
     * stub_lib_flash_erase_area. Ok exactly when every wait and every start goes well;
     * then precisely the area is erased and the device is idle. Otherwise the commands
     * issued are a proper beginning of the plan.
     */
    method EraseArea(addr: uint32, size: uint32) returns (st: Status)
      requires Valid() && addr + size <= dev.size
      modifies dev`cells, dev`job, dev`busy, dev`polls, dev`issued, dev`offered, dev`erases
      ensures Valid()
      ensures st == InvalidArg <==> addr % 0x1000 != 0 || size % 0x1000 != 0
      ensures st == InvalidArg || st == Ok || st == Timeout
      ensures st == InvalidArg ==>
                dev.erases == old(dev.erases) && dev.polls == old(dev.polls) && dev.Settled() == old(dev.Settled())
      ensures st != InvalidArg ==>
                var plan := Plan(addr, size);
                var n := |dev.erases| - |old(dev.erases)|;
                && 0 <= n <= |plan| && dev.erases == old(dev.erases) + plan[..n]
                && dev.Settled() == EraseAll(old(dev.Settled()), plan[..n])
                && dev.polls <= old(dev.polls) + (n + 1) * 1_000_000
                && (st == Ok ==> n == |plan| && dev.Idle() && dev.cells == Filled(old(dev.Settled()), addr, size))
                && (st == Timeout ==> FirstTrouble(dev, large, old(Now()), n, |plan|))
      ensures st == Ok ==> forall i :: 0 <= i < dev.size ==>
                dev.cells[i] == if addr <= i < addr + size then 0xFF else old(dev.Settled())[i]
      ensures addr % 0x1000 == 0 && size % 0x1000 == 0 ==>
                (st == Ok <==>
                  && old(dev.busy) < 1_000_000
                  && (forall i: nat :: old(dev.issued) <= i < old(dev.issued) + |Plan(addr, size)| ==>
                        dev.answers.timing(i) < 1_000_000)
                  && (large ==> forall i: nat :: old(dev.offered) <= i < old(dev.offered) + |Plan(addr, size)| ==>
                        !dev.answers.refuses(i)))
    {
      hide Filled, Plan, IsAligned, EraseAll, First, Rest, FirstTrouble, AllGoWell, InTime, Accepted, Stopped;
      SectorAligned(addr);
      SectorAligned(size);
      if !IsAligned(addr, SECTOR) || !IsAligned(size, SECTOR) {
        return InvalidArg;
      }
      ghost var s0, plan := Now(), Plan(addr, size);
      AllGoWellMeans(dev, large, s0, |plan|);
      FilledMeans(s0.settled, addr, size);
      ghost var n;
      st, n := EraseSectors(addr, size);
      StoppedMeans(s0, Now(), plan, n);
    }

    /** stub_lib_flash_erase_area for whole sectors: the loop and the last wait. */
    method EraseSectors(addr: uint32, size: uint32) returns (st: Status, ghost n: nat)
      requires Valid() && addr + size <= dev.size && addr % SECTOR == 0 && size % SECTOR == 0
      modifies dev`cells, dev`job, dev`busy, dev`polls, dev`issued, dev`offered, dev`erases
      ensures Valid() && (st == Ok || st == Timeout)
      ensures st == Ok <==> AllGoWell(dev, large, old(Now()), |Plan(addr, size)|)
      ensures Stopped(old(Now()), Now(), Plan(addr, size), n)
      ensures st == Ok ==> n == |Plan(addr, size)| && dev.Idle() && dev.cells == Filled(old(dev.Settled()), addr, size)
      ensures st != Ok ==> FirstTrouble(dev, large, old(Now()), n, |Plan(addr, size)|)
    {
      hide Filled, Plan, EraseAll, First, Rest, Progress, Advanced, FirstTrouble, AllGoWell, InTime, Accepted, Stopped;
      ghost var s0, plan := Now(), Plan(addr, size);
      ProgressStarts(dev, large, s0, addr, size);
      var a := new Cursor(addr);
      var left := new Cursor(size);
      st, n := EraseLoop(a, left, s0, plan);
      if st != Ok {
        return;
      }
      ghost var s := Now();
      ProgressEnds(dev, large, s0, s, addr, size, n, a.v);
      st := WaitReady(ERASE_TIMEOUT_US);
      ProgressStops(dev, large, s0, s, Now(), plan, n, a.v, 0);
    }

    /** The loop of stub_lib_flash_erase_area. */
    method EraseLoop(a: Cursor, left: Cursor, ghost s0: Snap, ghost plan: seq<Erase>) returns (st: Status, ghost n: nat)
      requires Valid() && a != left && Progress(dev, large, s0, Now(), plan, 0, a.v, left.v)
      modifies a, left, dev`cells, dev`job, dev`busy, dev`polls, dev`issued, dev`offered, dev`erases
      ensures Valid() && (st == Ok ==> left.v == 0)
      ensures st == Ok ==> Progress(dev, large, s0, Now(), plan, n, a.v, left.v)
      ensures st == Ok || st == Timeout
      ensures st != Ok ==> !AllGoWell(dev, large, s0, |plan|) && FirstTrouble(dev, large, s0, n, |plan|)
      ensures st != Ok ==> Stopped(s0, Now(), plan, n)
    {
      hide Filled, Plan, EraseAll, First, Rest, Progress, Advanced, AllGoWell, Stopped, FirstTrouble;
      n := 0;
      while left.v > 0
        invariant Valid() && Progress(dev, large, s0, Now(), plan, n, a.v, left.v)
        decreases left.v
      {
        ghost var s, a0, left0 := Now(), a.v, left.v;
        ProgressBounds(dev, large, s0, s, plan, n, a0, left0);
        st := StartNextErase(a, left, ERASE_TIMEOUT_US);
        if st != Ok {
          ProgressFails(dev, large, s0, s, plan, n, a0, left0);
          ProgressStops(dev, large, s0, s, Now(), plan, n, a0, left0);
          return;
        }
        AdvancedBy(dev, large, s, Now(), a0, left0, a.v, left.v);
        ProgressStep(dev, large, s0, s, Now(), plan, n, a0, left0, a.v, left.v);
        n := n + 1;
      }
      st := Ok;
    }

    // ---- Writing

    /** The error of a failing unencrypted write in each addressing mode. */
    function WriteFailure(): Status
      reads this
    {
      if wideSupported && large then Timeout else WriteError
    }

    /**
     * stub_lib_flash_write_buff. On success an unencrypted write programs exactly the bytes
     * of the buffer, through the planned calls; a failed one stops at the failing call and
     * leaves every byte between the old contents and the intended ones. An encrypted write
     * of whole 16-byte blocks is one call of the device, whose result is returned.
     */
    method WriteBuff(addr: uint32, buffer: seq<byte>, encrypt: bool) returns (st: Status)
      requires Valid() && |buffer| <= UINT32_MAX && addr + |buffer| <= dev.size
      modifies dev`cells, dev`job, dev`busy, dev`written, dev`writes, dev`wides, dev`sealed, dev`seals
      ensures Valid()
      ensures buffer == [] ==> st == Ok && dev.Settled() == old(dev.Settled())
      // encrypted
      ensures encrypt && buffer != [] && (addr % 16 != 0 || |buffer| % 16 != 0) ==>
                st == WriteUnaligned && dev.Settled() == old(dev.Settled())
      ensures encrypt && buffer != [] && addr % 16 == 0 && |buffer| % 16 == 0 ==>
                dev.seals == old(dev.seals) + [SealedWrite(addr, buffer, large)] && st == dev.answers.seals(old(dev.sealed))
      ensures !(encrypt && buffer != [] && addr % 16 == 0 && |buffer| % 16 == 0) ==> dev.seals == old(dev.seals)
      ensures encrypt ==> dev.writes == old(dev.writes)
      ensures encrypt ==> forall a :: 0 <= a < dev.size && !(addr <= a < addr + |buffer|) ==> dev.Settled()[a] == old(dev.Settled())[a]
      // unencrypted
      ensures !encrypt && st == Ok && buffer != [] ==> dev.Idle()
      ensures !encrypt ==> WriteEffect(addr, buffer, st, old(dev.writes))
      ensures !encrypt && st == Ok ==>
                && dev.writes == old(dev.writes) + WriteOps(addr, buffer)
                && dev.Settled() == Program(old(dev.Settled()), addr, buffer)
                && (forall i :: 0 <= i < dev.size ==>
                      dev.Settled()[i] == if addr <= i < addr + |buffer| then old(dev.Settled())[i] & buffer[i - addr]
                                          else old(dev.Settled())[i])
      ensures !encrypt ==>
                (st == Ok <==> forall i: nat :: old(dev.written) <= i < old(dev.written) + |WriteOps(addr, buffer)| ==>
                                 dev.answers.writes(i))
      ensures !encrypt && st != Ok ==>
                && st == (if large then Timeout else WriteError)
                && Between(Program(old(dev.Settled()), addr, buffer), dev.Settled(), old(dev.Settled()))
    {
      hide Program, Between, IsAligned, WriteOps, WriteEffect;
      if |buffer| == 0 {
        EmptyWrite(addr, dev.Settled());
        return Ok;
      }
      if encrypt {
        Aligned16(addr);
        Aligned16(|buffer|);
        if !IsAligned(addr, 16) || !IsAligned(|buffer|, 16) {
          return WriteUnaligned;
        }
        st := dev.WriteEncrypted(addr, buffer, wideSupported && large);
      } else {
        ghost var cells := dev.Settled();
        st := WritePlain(addr, buffer);
        SettledSize(dev);
        ProgramMeans(cells, addr, buffer);
      }
    }

    lemma EmptyWrite(addr: nat, cells: seq<byte>)
      requires Valid()
      ensures WriteOps(addr, []) == [] && Program(cells, addr, []) == cells
      ensures WriteEffect(addr, [], Ok, dev.writes)
    {
      hide Program;
      NoOps(addr);
      ProgramNothing(cells, addr);
    }

    /**
     * The calls of an unencrypted write: as planned, in the right addressing mode, and no
     * further than the first one that fails.
     */
    ghost predicate WriteEffect(addr: nat, buffer: seq<byte>, st: Status, writes: seq<Write>)
      reads this, dev
    {
      var ops, n := WriteOps(addr, buffer), |dev.writes| - |writes|;
      && 0 <= n <= |ops| && dev.writes == writes + ops[..n]
      && (forall i :: |writes| <= i < |dev.wides| ==> dev.wides[i] == large)
      && (forall i: nat :: |writes| <= i < |dev.writes| - 1 ==> dev.answers.writes(i))
      && (n > 0 ==> (st == Ok <==> dev.answers.writes(|dev.writes| - 1)))
      && (if st == Ok then n == |ops| else n > 0)
    }

    /** The unencrypted part of stub_lib_flash_write_buff. */
    method WritePlain(addr: uint32, buffer: seq<byte>) returns (st: Status)
      requires Valid() && 0 < |buffer| <= UINT32_MAX && addr + |buffer| <= dev.size
      modifies dev`cells, dev`job, dev`busy, dev`written, dev`writes, dev`wides
      ensures Valid() && (st == Ok || st == WriteFailure())
      ensures WriteEffect(addr, buffer, st, old(dev.writes))
      ensures st == Ok <==> forall i: nat :: old(dev.written) <= i < old(dev.written) + |WriteOps(addr, buffer)| ==>
                              dev.answers.writes(i)
      ensures st == Ok ==>
                && dev.Idle() && dev.writes == old(dev.writes) + WriteOps(addr, buffer)
                && dev.Settled() == Program(old(dev.Settled()), addr, buffer)
      ensures st != Ok ==> Between(Program(old(dev.Settled()), addr, buffer), dev.Settled(), old(dev.Settled()))
    {
      hide Program, Between, ProgramAll, Pad, IsAligned, AlignDown, WriteOps, BodyOps;
      ghost var cells, writes, ops := dev.Settled(), dev.writes, WriteOps(addr, buffer);
      NothingWritten(ops);
      WriteRefines(cells, addr, buffer);
      WordAligned(addr);
      WordAligned(|buffer|);
      if IsAligned(addr, 4) && IsAligned(|buffer|, 4) {
        AlignedOps(addr, buffer);
        st := WriteNext(addr, buffer, cells, writes, ops, 0);
      } else {
        st := WriteParts(addr, buffer, cells, writes, ops);
      }
      assert ops[..|ops|] == ops;
      SomeOps(addr, buffer);
    }

    /** Head word, body and tail of an unaligned write. */
    method WriteParts(addr: uint32, buffer: seq<byte>, ghost cells: seq<byte>, ghost writes: seq<Write>, ghost ops: seq<Write>)
      returns (st: Status)
      requires Valid() && 0 < |buffer| <= UINT32_MAX && addr + |buffer| <= dev.size
      requires ops == WriteOps(addr, buffer) && WrittenSoFar(cells, writes, ops, 0)
      modifies dev`cells, dev`job, dev`busy, dev`written, dev`writes, dev`wides
      ensures Valid() && (st == Ok || st == WriteFailure())
      ensures st == Ok ==> WrittenSoFar(cells, writes, ops, |ops|)
      ensures st != Ok ==> StoppedAtFailure(cells, writes, ops)
    {
      hide Program, Between, ProgramAll, Pad, AlignDown, WriteOps, BodyOps, WrittenSoFar, StoppedAtFailure, Min;
      WordAligned(addr);
      var src := buffer;
      var flashAddr := AlignDown(addr, 4);
      var offset := addr - flashAddr;
      ghost var k := 0;
      if offset != 0 {
        var n := Min(|src|, 4 - offset);
        HeadOps(addr, buffer, flashAddr, offset, n, dev.size);
        st := WritePartialWord(flashAddr, src[..n], offset, cells, writes, ops, 0);
        if st != Ok {
          return;
        }
        k := 1;
        src := src[n..];
        flashAddr := Wrap(flashAddr as int + 4);
      } else {
        NoHeadOps(addr, buffer);
      }
      assert ops[k..] == BodyOps(flashAddr, src);
      st := WriteBodyAndTail(flashAddr, src, cells, writes, ops, k);
    }

    /** The part of stub_lib_flash_write_buff after the head word. */
    method WriteBodyAndTail(start: uint32, data: seq<byte>,
                            ghost cells: seq<byte>, ghost writes: seq<Write>, ghost ops: seq<Write>, ghost done: nat)
      returns (st: Status)
      requires Valid() && start % WORD == 0 && |data| <= UINT32_MAX && start + |data| <= dev.size
      requires WrittenSoFar(cells, writes, ops, done) && ops[done..] == BodyOps(start, data)
      modifies dev`cells, dev`job, dev`busy, dev`written, dev`writes, dev`wides
      ensures Valid() && (st == Ok || st == WriteFailure())
      ensures st == Ok ==> WrittenSoFar(cells, writes, ops, |ops|)
      ensures st != Ok ==> StoppedAtFailure(cells, writes, ops)
    {
      hide Program, Between, ProgramAll, Pad, AlignDown, BodyOps, WrittenSoFar, StoppedAtFailure;
      ghost var k := done;
      var src, flashAddr := data, start;
      WrittenBound(cells, writes, ops, done);
      BodyCalls(start, data, dev.size);
      WordAligned(|data|);
      var alignedSize := AlignDown(|data|, 4);
      if alignedSize > 0 {
        NextCall(ops, k, BodyOps(start, data));
        st := WriteNext(start, data[..alignedSize], cells, writes, ops, k);
        if st != Ok {
          return;
        }
        k := k + 1;
        src := data[alignedSize..];
        flashAddr := Wrap(start as int + alignedSize as int);
      }
      if |src| > 0 {
        NextCall(ops, k, [Write(flashAddr, Pad(src, 0))]);
        st := WritePartialWord(flashAddr, src, 0, cells, writes, ops, k);
        return;
      }
      return Ok;
    }

    /** flash_write_partial_word. */
    method WritePartialWord(wordAddr: nat, src: seq<byte>, offset: nat,
                            ghost cells: seq<byte>, ghost writes: seq<Write>, ghost ops: seq<Write>, ghost k: nat)
      returns (st: Status)
      requires Valid() && wordAddr % WORD == 0 && offset + |src| <= WORD && wordAddr + WORD <= dev.size
      requires k < |ops| && ops[k] == Write(wordAddr, Pad(src, offset)) && WrittenSoFar(cells, writes, ops, k)
      modifies dev`cells, dev`job, dev`busy, dev`written, dev`writes, dev`wides
      ensures Valid() && (st == Ok || st == WriteFailure())
      ensures st == Ok ==> WrittenSoFar(cells, writes, ops, k + 1)
      ensures st != Ok ==> StoppedAtFailure(cells, writes, ops)
    {
      hide Program, Between, ProgramAll, WrittenSoFar, StoppedAtFailure;
      st := WriteNext(wordAddr, Pad(src, offset), cells, writes, ops, k);
    }

    /** The calls up to the first failing one were made, and every byte is between the old and the intended contents. */
    ghost predicate StoppedAtFailure(cells: seq<byte>, writes: seq<Write>, ops: seq<Write>)
      reads this, dev
    {
      var n := |dev.writes| - |writes|;
      && 0 < n <= |ops| && dev.writes == writes + ops[..n]
      && (forall i :: |writes| <= i < |dev.wides| ==> dev.wides[i] == large)
      && (forall i: nat :: |writes| <= i < |dev.writes| - 1 ==> dev.answers.writes(i))
      && !dev.answers.writes(|dev.writes| - 1)
      && Between(ProgramAll(cells, ops), dev.Settled(), cells)
    }

    /** The first k calls of a write have succeeded. */
    ghost predicate WrittenSoFar(cells: seq<byte>, writes: seq<Write>, ops: seq<Write>, k: nat)
      reads this, dev
    {
      && k <= |ops| && dev.writes == writes + ops[..k] && dev.Settled() == ProgramAll(cells, ops[..k])
      && |dev.wides| == |dev.writes| && (forall i :: |writes| <= i < |dev.wides| ==> dev.wides[i] == large)
      && (forall i: nat :: |writes| <= i < |dev.writes| ==> dev.answers.writes(i))
      && (k > 0 ==> dev.Idle())
    }

    lemma WrittenBound(cells: seq<byte>, writes: seq<Write>, ops: seq<Write>, k: nat)
      requires WrittenSoFar(cells, writes, ops, k)
      ensures k <= |ops|
    {
    }

    /** flash_write_buff for the k-th call of a write. */
    method WriteNext(addr: nat, data: seq<byte>, ghost cells: seq<byte>, ghost writes: seq<Write>, ghost ops: seq<Write>, ghost k: nat)
      returns (st: Status)
      requires Valid() && addr % WORD == 0 && |data| % WORD == 0 && addr + |data| <= dev.size
      requires k < |ops| && ops[k] == Write(addr, data) && WrittenSoFar(cells, writes, ops, k)
      modifies dev`cells, dev`job, dev`busy, dev`written, dev`writes, dev`wides
      ensures Valid() && (st == Ok || st == WriteFailure())
      ensures st == Ok ==> WrittenSoFar(cells, writes, ops, k + 1)
      ensures st != Ok ==> StoppedAtFailure(cells, writes, ops)
    {
      hide Program, Between, ProgramAll;
      var ok := dev.WriteWords(addr, data, wideSupported && large);
      assert ops[..k + 1] == ops[..k] + [ops[k]];
      assert ops == ops[..k] + [ops[k]] + ops[k + 1..];
      StepDone(cells, ops[..k], ops[k]);
      StepFailed(cells, ops[..k], ops[k], ops[k + 1..], dev.Settled());
      st := if ok then Ok else WriteFailure();
    }

    // ---- Reading

    /**
     * stub_lib_flash_read_buff. An aligned read is one call of the device; it succeeds
     * exactly when that call does, and then delivers what the device holds.
     */
    method ReadBuff(addr: uint32, buffer: array<byte>, size: uint32) returns (st: Status)
      requires Valid() && size <= buffer.Length && addr + size <= dev.size
      modifies dev`cells, dev`job, dev`busy, dev`fetched, dev`fetches, buffer
      ensures Valid() && dev.Settled() == old(dev.Settled())
      ensures addr % 4 != 0 || size % 4 != 0 ==>
                st == ReadUnaligned && dev.fetches == old(dev.fetches) && buffer[..] == old(buffer[..])
      ensures addr % 4 == 0 && size % 4 == 0 ==>
                && dev.fetches == old(dev.fetches) + [Fetch(addr, size, large)]
                && st == (if dev.answers.fetches(old(dev.fetched)) then Ok else if large then Timeout else ReadError)
      ensures st == Ok ==> buffer[..] == dev.Settled()[addr..addr + size] + old(buffer[size..])
      ensures buffer[size..] == old(buffer[size..])
    {
      hide IsAligned;
      WordAligned(addr);
      WordAligned(size);
      if !IsAligned(addr, 4) || !IsAligned(size, 4) {
        return ReadUnaligned;
      }
      var ok, data := dev.ReadWords(addr, size, wideSupported && large);
      forall i | 0 <= i < size {
        buffer[i] := data[i];
      }
      st := if ok then Ok else if wideSupported && large then Timeout else ReadError;
    }
  }

  /** Programming, byte by byte. */
  lemma ProgramMeans(cells: seq<byte>, addr: nat, data: seq<byte>)
    ensures |Program(cells, addr, data)| == |cells|
    ensures forall i :: 0 <= i < |cells| ==>
              Program(cells, addr, data)[i] == if addr <= i < addr + |data| then cells[i] & data[i - addr] else cells[i]
  {
  }

  lemma SettledSize(dev: Nor)
    requires dev.Valid()
    ensures |dev.Settled()| == dev.size
  {
  }

  lemma WordAligned(x: uint32)
    ensures IsAligned(x, 4) <==> x % WORD == 0
    ensures AlignDown(x, 4) == x - x % WORD
  {
    hide IsAligned, AlignDown, Pow2;
    Pow2Values();
    AlignMacros(x, 4, 2);
  }

  lemma Aligned16(x: uint32)
    ensures IsAligned(x, 16) <==> x % 16 == 0
  {
    hide IsAligned, AlignDown, Pow2;
    Pow2Values();
    AlignMacros(x, 16, 4);
  }

  lemma NothingWritten(ops: seq<Write>)
    ensures forall cells: seq<byte> :: ProgramAll(cells, ops[..0]) == cells
  {
  }

  lemma SomeOps(addr: nat, data: seq<byte>)
    requires data != []
    ensures WriteOps(addr, data) != []
  {
  }

  lemma NoOps(addr: nat)
    ensures WriteOps(addr, []) == []
  {
  }

  lemma AlignedOps(addr: nat, data: seq<byte>)
    requires data != [] && addr % WORD == 0 && |data| % WORD == 0
    ensures WriteOps(addr, data) == [Write(addr, data)]
  {
    assert data[..|data|] == data;
  }

  /** The head word of an unaligned write and what remains after it, inside a device of the given size. */
  lemma HeadOps(addr: uint32, data: seq<byte>, base: nat, o: nat, n: nat, size: nat)
    requires data != [] && o == addr % WORD != 0 && base == addr - o && n == Min(|data|, WORD - o)
    requires addr + |data| <= size <= 0x1_0000_0000 && size % SECTOR == 0
    ensures n <= |data| && o + n <= WORD && WriteOps(addr, data) != []
    ensures WriteOps(addr, data)[0] == Write(base, Pad(data[..n], o))
    ensures WriteOps(addr, data)[1..] == BodyOps(Wrap(base + WORD), data[n..])
    ensures base % WORD == 0 && base + WORD <= size
    ensures Wrap(base + WORD) % WORD == 0 && Wrap(base + WORD) + |data[n..]| <= size
  {
    hide Pad, BodyOps;
    WordFits(addr, size);
    var rest := data[n..];
    if rest == [] {
      BodyOpsParts(Wrap(base + WORD), rest);
      BodyOpsParts(base + WORD, rest);
    }
    assert WriteOps(addr, data) == [Write(base, Pad(data[..n], o))] + BodyOps(base + WORD, rest);
  }

  /** The word of an address inside the device lies inside the device. */
  lemma WordFits(a: nat, size: nat)
    requires a < size && size % SECTOR == 0
    ensures a - a % WORD + WORD <= size && (a - a % WORD) % WORD == 0
    ensures a % WORD == 0 ==> a + WORD <= size
  {
    var q, w, r := size / SECTOR, a / WORD, a % WORD;
    assert a == WORD * w + r && size == WORD * (1024 * q);
    assert w < 1024 * q;
    assert a - r == WORD * w;
  }

  lemma NoHeadOps(addr: nat, data: seq<byte>)
    requires data != [] && addr % WORD == 0
    ensures WriteOps(addr, data) == BodyOps(addr, data)
  {
  }

  lemma NextCall(ops: seq<Write>, k: nat, todo: seq<Write>)
    requires k <= |ops| && todo != [] && ops[k..] == todo
    ensures k < |ops| && ops[k] == todo[0] && ops[k + 1..] == todo[1..]
  {
    assert ops[k] == ops[k..][0];
  }

  /** The aligned body and the tail word of a write, inside a device of the given size. */
  lemma BodyCalls(addr: nat, data: seq<byte>, size: nat)
    requires addr % WORD == 0 && addr + |data| <= size <= 0x1_0000_0000 && size % SECTOR == 0
    ensures var n, ops := |data| - |data| % WORD, BodyOps(addr, data);
            && n % WORD == 0 && (addr + n) % WORD == 0
            && (n > 0 ==> ops != [] && ops[0] == Write(addr, data[..n]))
            && (n < |data| ==>
                  && addr + n + WORD <= size && Wrap(addr + n) == addr + n
                  && (if n > 0 then ops[1..] else ops) == [Write(addr + n, Pad(data[n..], 0))])
            && (n == |data| && n > 0 ==> ops[1..] == [])
            && (n == |data| && n == 0 ==> ops == [])
  {
    hide Pad, BodyOps;
    BodyOpsParts(addr, data);
    var n := |data| - |data| % WORD;
    WordEnds(addr, |data|);
    if n < |data| {
      WordFits(addr + n, size);
      if n == 0 { assert data[0..] == data; }
    }
  }

  lemma BodyOpsParts(addr: nat, data: seq<byte>)
    requires addr % WORD == 0
    ensures var n := |data| - |data| % WORD;
            && (n > 0 && n < |data| ==> BodyOps(addr, data) == [Write(addr, data[..n]), Write(addr + n, Pad(data[n..], 0))])
            && (n > 0 && n == |data| ==> BodyOps(addr, data) == [Write(addr, data[..n])])
            && (n == 0 && data != [] ==> BodyOps(addr, data) == [Write(addr, Pad(data, 0))])
            && (data == [] ==> BodyOps(addr, data) == [])
  {
    assert data[0..] == data;
  }

  lemma StepDone(cells: seq<byte>, done: seq<Write>, op: Write)
    ensures ProgramAll(cells, done + [op]) == Program(ProgramAll(cells, done), op.addr, op.data)
  {
    hide ProgramAll, Program;
    ProgramAllConcat(cells, done, [op]);
    ProgramOne(ProgramAll(cells, done), op);
  }

  /** Where a failing call leaves the flash, seen from the start of the write. */
  lemma StepFailed(cells: seq<byte>, done: seq<Write>, op: Write, todo: seq<Write>, x: seq<byte>)
    requires var before := ProgramAll(cells, done); Between(Program(before, op.addr, op.data), x, before)
    ensures Between(ProgramAll(cells, done + [op] + todo), x, cells)
  {
    hide ProgramAll, Program, Between;
    var all := done + [op] + todo;
    assert done + ([op] + todo) == all;
    StepDone(cells, done, op);
    SomeOpsBetween(cells, done + [op], todo);
    SomeOpsBetween(cells, done, [op] + todo);
    BetweenShrinks(ProgramAll(cells, all), ProgramAll(cells, done + [op]), x, ProgramAll(cells, done), cells);
  }

  lemma ProgressStarts(dev: Nor, large: bool, s: Snap, addr: nat, size: nat)
    requires addr % SECTOR == 0 && size % SECTOR == 0 && addr + size <= dev.size <= 0x1_0000_0000
    ensures Progress(dev, large, s, s, Plan(addr, size), 0, addr, size)
  {
  }

  /** What the loop and the contract of erase_area read off. */
  lemma ProgressBounds(dev: Nor, large: bool, s0: Snap, s: Snap, plan: seq<Erase>, n: nat, a: nat, left: nat)
    requires Progress(dev, large, s0, s, plan, n, a, left)
    ensures a + left <= dev.size && a % SECTOR == 0
    ensures n <= |plan| && s.erases == s0.erases + plan[..n] && |s.erases| - |s0.erases| == n
    ensures s.settled == EraseAll(s0.settled, plan[..n])
    ensures s.polls <= s0.polls + n * ERASE_TIMEOUT_US
    ensures left > 0 ==> Rest(a, left) < left
  {
  }

  lemma AllGoWellMeans(dev: Nor, large: bool, s: Snap, n: nat)
    ensures AllGoWell(dev, large, s, n) <==>
              && s.busy < 1_000_000
              && (forall i: nat :: s.issued <= i < s.issued + n ==> dev.answers.timing(i) < 1_000_000)
              && (large ==> forall i: nat :: s.offered <= i < s.offered + n ==> !dev.answers.refuses(i))
  {
  }

  lemma StoppedMeans(s0: Snap, s: Snap, plan: seq<Erase>, n: nat)
    requires Stopped(s0, s, plan, n)
    ensures n <= |plan| && n == |s.erases| - |s0.erases| && s.erases == s0.erases + plan[..n]
    ensures s.settled == EraseAll(s0.settled, plan[..n]) && s.polls <= s0.polls + (n + 1) * ERASE_TIMEOUT_US
  {
  }

  lemma FilledMeans(cells: seq<byte>, addr: nat, size: nat)
    ensures |Filled(cells, addr, size)| == |cells|
    ensures forall i :: 0 <= i < |cells| ==> Filled(cells, addr, size)[i] == if addr <= i < addr + size then 0xFF else cells[i]
  {
  }

  lemma AdvancedBy(dev: Nor, large: bool, s: Snap, s': Snap, a: nat, left: nat, a': nat, left': nat)
    requires left > 0 && s.busy < ERASE_TIMEOUT_US && (large ==> !dev.answers.refuses(s.offered))
    requires a' == Wrap(a + First(a, left).Size()) && left' == Rest(a, left)
    requires s'.erases == s.erases + [First(a, left)]
    requires s'.settled == Filled(s.settled, First(a, left).addr, First(a, left).Size())
    requires s'.polls <= s.polls + ERASE_TIMEOUT_US
    requires s'.issued == s.issued + 1 && s'.offered == s.offered + (if large then 1 else 0)
    requires s'.busy == dev.answers.timing(s.issued)
    ensures Advanced(dev, large, s, s', a, left, a', left')
  {
  }

  lemma SectorAligned(x: uint32)
    ensures IsAligned(x, SECTOR) <==> x % SECTOR == 0
  {
    hide IsAligned, AlignDown, Pow2;
    Pow2Values();
    AlignMacros(x, SECTOR, 12);
  }

  lemma BlockIsAligned(addr: nat)
    requires addr % BLOCK == 0
    ensures addr % SECTOR == 0
  {
    var q := addr / BLOCK;
    assert addr == SECTOR * (16 * q);
  }

  lemma EmptyPlan(addr: nat, left: nat)
    ensures Plan(addr, left) == [] <==> left == 0
  {
  }

  /** An aligned cursor stays aligned and inside the device. */
  lemma AlignedStep(addr: nat, left: nat, next: nat, size: nat)
    requires left > 0 && addr % SECTOR == 0 && left % SECTOR == 0 && addr + left <= size <= 0x1_0000_0000
    requires next == Wrap(addr + First(addr, left).Size())
    ensures next % SECTOR == 0 && Rest(addr, left) % SECTOR == 0 && Rest(addr, left) < left
    ensures next + Rest(addr, left) <= size
  {
    SectorInside(addr, addr, left);
    var p, q := addr / SECTOR, left / SECTOR;
    assert addr == SECTOR * p && left == SECTOR * q;
    assert addr + First(addr, left).Size() == SECTOR * (p + if First(addr, left).Block? then 16 else 1);
    assert Rest(addr, left) == SECTOR * (q - if First(addr, left).Block? then 16 else 1);
  }

  lemma AlignedFits(addr: nat, left: nat, size: nat)
    requires left > 0 && addr + left <= size && size % SECTOR == 0 && addr % SECTOR == 0
    ensures addr + First(addr, left).Size() <= size && First(addr, left).Aligned()
  {
    SectorInside(0, addr, size);
  }

  /** The plan continues from the wrapped cursor: the address only wraps when nothing is left. */
  lemma PlanStep(addr: nat, left: nat, next: nat)
    requires left > 0 && addr + left <= 0x1_0000_0000 && next == Wrap(addr + First(addr, left).Size())
    ensures Plan(addr, left) == [First(addr, left)] + Plan(next, Rest(addr, left))
  {
  }
}
