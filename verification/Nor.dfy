/**
 * The flash device as the target calls show it. Each method of `Nor` is the contract of
 * one target call of src/flash.c. What the device answers is arbitrary but fixed in
 * advance: how long each erase keeps it busy, which four-byte starts it refuses, and the
 * outcome of every write, encrypted write and read, each numbered in the order of the calls.
 */
module NorDevice {
  import opened Words
  import opened Errors
  import opened ErasePlan
  import opened NorContent
  import opened WritePlan

  datatype Job = NoJob | Erasing(e: Erase)

  /** An encrypted write call and a read call, with the addressing mode they use. */
  datatype SealedWrite = SealedWrite(addr: nat, data: seq<byte>, wide: bool)
  datatype Fetch = Fetch(addr: nat, size: nat, wide: bool)

  /** The answers of a device, by number of the call. */
  datatype Answers = Answers(
    timing: nat -> nat,       // polls that an erase keeps the device busy
    refuses: nat -> bool,     // four-byte erase starts
    writes: nat -> bool,      // unencrypted writes that succeed
    seals: nat -> Status,     // results of encrypted writes
    fetches: nat -> bool)     // reads that succeed

  /** Normal mode sends 24 address bits. */
  function Narrow(e: Erase): Erase {
    e.(addr := e.addr % 0x100_0000)
  }

  class Nor {
    const size: nat
    const answers: Answers
    var cells: seq<byte>
    var job: Job
    var busy: nat      // polls that will still see the device busy
    var issued: nat    // erase commands started so far
    var offered: nat   // four-byte erase starts requested so far
    var written: nat   // unencrypted write calls so far
    var sealed: nat    // encrypted write calls so far
    var fetched: nat   // read calls so far
    ghost var erases: seq<Erase>
    ghost var writes: seq<Write>
    ghost var wides: seq<bool>      // the addressing mode of each of these writes
    ghost var seals: seq<SealedWrite>
    ghost var fetches: seq<Fetch>
    ghost var polls: nat

    ghost predicate Valid()
      reads this
    {
      && |cells| == size <= 0x1_0000_0000 && size % SECTOR == 0
      && issued == |erases| && written == |writes| == |wides| && sealed == |seals| && fetched == |fetches|
      && (job.Erasing? ==> job.e.addr + job.e.Size() <= size)
    }

    predicate Idle()
      reads this
    {
      job.NoJob? && busy == 0
    }

    /** What the device holds once the running erase is done. */
    function Settled(): seq<byte>
      reads this
    {
      if job.Erasing? then Filled(cells, job.e.addr, job.e.Size()) else cells
    }

    constructor (cells: seq<byte>, busy: nat, answers: Answers)
      requires |cells| <= 0x1_0000_0000 && |cells| % SECTOR == 0
      ensures Valid() && Settled() == cells && this.busy == busy
      ensures size == |cells| && this.answers == answers && erases == [] && writes == [] && seals == [] && fetches == []
    {
      this.size, this.cells, this.busy, this.answers := |cells|, cells, busy, answers;
      job, issued, offered, written, sealed, fetched := NoJob, 0, 0, 0, 0, 0;
      erases, writes, wides, seals, fetches, polls := [], [], [], [], [], 0;
    }

    /** stub_target_flash_is_busy: the erase is complete when a poll first sees the device idle. */
    method IsBusy() returns (b: bool)
      requires Valid()
      modifies `cells, `job, `busy, `polls
      ensures Valid() && polls == old(polls) + 1
      ensures b <==> old(busy) > 0
      ensures b ==> busy == old(busy) - 1 && job == old(job) && cells == old(cells)
      ensures !b ==> Idle() && cells == old(Settled())
    {
      polls := polls + 1;
      b := busy > 0;
      if b {
        busy := busy - 1;
      } else {
        cells := Settled();
        job := NoJob;
      }
    }

    /** Starts an erase; the bytes of the region are arbitrary until it is complete. */
    method Start(e: Erase)
      requires Valid() && Idle() && e.Aligned() && e.addr + e.Size() <= size
      modifies `cells, `job, `busy, `issued, `erases
      ensures Valid() && job == Erasing(e) && busy == answers.timing(old(issued))
      ensures Settled() == Filled(old(cells), e.addr, e.Size())
      ensures erases == old(erases) + [e] && issued == old(issued) + 1
    {
      var junk: seq<byte> := *;
      var region := e;
      cells := seq(|cells|, i requires 0 <= i < |cells| reads this =>
        if region.Covers(i) && i < |junk| then junk[i] else cells[i]);
      job, busy := Erasing(e), answers.timing(issued);
      issued, erases := issued + 1, erases + [e];
    }

    /** stub_target_flash_erase_{block,sector}_start. */
    method StartNarrow(e: Erase)
      requires Valid() && Idle() && Narrow(e).Aligned() && Narrow(e).addr + e.Size() <= size
      modifies `cells, `job, `busy, `issued, `erases
      ensures Valid() && job == Erasing(Narrow(e)) && busy == answers.timing(old(issued))
      ensures Settled() == Filled(old(cells), Narrow(e).addr, e.Size())
      ensures erases == old(erases) + [Narrow(e)] && issued == old(issued) + 1
    {
      Start(Narrow(e));
    }

    /** stub_target_flash_4byte_erase_{block,sector}_start; a refused start issues nothing. */
    method StartWide(e: Erase) returns (ok: bool)
      requires Valid() && Idle() && e.Aligned() && e.addr + e.Size() <= size
      modifies `cells, `job, `busy, `issued, `erases, `offered
      ensures Valid() && offered == old(offered) + 1
      ensures ok <==> !answers.refuses(old(offered))
      ensures ok ==> job == Erasing(e) && busy == answers.timing(old(issued)) && Settled() == Filled(old(cells), e.addr, e.Size())
      ensures ok ==> erases == old(erases) + [e] && issued == old(issued) + 1
      ensures !ok ==> Idle() && cells == old(cells) && erases == old(erases) && issued == old(issued)
    {
      ok := !answers.refuses(offered);
      offered := offered + 1;
      if ok {
        Start(e);
      }
    }

    /**
     * The unencrypted write call of either mode: it waits for the device and programs
     * whole words. A failing call may have programmed any of the bits.
     */
    method WriteWords(addr: nat, data: seq<byte>, wide: bool) returns (ok: bool)
      requires Valid() && addr % WORD == 0 && |data| % WORD == 0 && addr + |data| <= size
      modifies `cells, `job, `busy, `written, `writes, `wides
      ensures Valid() && writes == old(writes) + [Write(addr, data)] && wides == old(wides) + [wide]
      ensures ok <==> answers.writes(old(written))
      ensures ok ==> Idle() && cells == Program(old(Settled()), addr, data)
      ensures Between(Program(old(Settled()), addr, data), Settled(), old(Settled()))
    {
      ghost var before := Settled();
      ok := answers.writes(written);
      written, writes, wides := written + 1, writes + [Write(addr, data)], wides + [wide];
      var started: bool := *;
      Reflexive(before);
      ProgramBetween(before, addr, data);
      if ok || started {
        cells := Settled();
        job := NoJob;
        busy := *;
        var missed: seq<byte> := *;
        if ok || |missed| != |data| {
          cells := Program(cells, addr, data);
        } else {
          var partial := seq(|data|, i requires 0 <= i < |data| => data[i] | missed[i]);
          PartialBetween(before, addr, data, missed, partial);
          cells := Program(cells, addr, partial);
        }
        if ok { busy := 0; }
      }
    }

    /** The encrypted write call of either mode: it decides only the bytes of its range. */
    method WriteEncrypted(addr: nat, data: seq<byte>, wide: bool) returns (st: Status)
      requires Valid() && addr % 16 == 0 && |data| % 16 == 0 && addr + |data| <= size
      modifies `cells, `job, `busy, `sealed, `seals
      ensures Valid() && seals == old(seals) + [SealedWrite(addr, data, wide)]
      ensures st == answers.seals(old(sealed))
      ensures forall a :: 0 <= a < size && !(addr <= a < addr + |data|) ==> Settled()[a] == old(Settled())[a]
    {
      st := answers.seals(sealed);
      sealed, seals := sealed + 1, seals + [SealedWrite(addr, data, wide)];
      var image: seq<byte> := *;
      cells := Settled();
      job, busy := NoJob, *;
      var before := cells;
      cells := seq(|before|, i requires 0 <= i < |before| => if addr <= i < addr + |data| && i < |image| then image[i] else before[i]);
    }

    /** The read call of either mode; a failing one delivers arbitrary bytes. */
    method ReadWords(addr: nat, n: nat, wide: bool) returns (ok: bool, data: seq<byte>)
      requires Valid() && addr % WORD == 0 && n % WORD == 0 && addr + n <= size
      modifies `cells, `job, `busy, `fetched, `fetches
      ensures Valid() && |data| == n && Settled() == old(Settled())
      ensures fetches == old(fetches) + [Fetch(addr, n, wide)]
      ensures ok <==> answers.fetches(old(fetched))
      ensures ok ==> data == old(Settled())[addr..addr + n]
    {
      ok := answers.fetches(fetched);
      fetched, fetches := fetched + 1, fetches + [Fetch(addr, n, wide)];
      if ok {
        cells := Settled();
        job, busy := NoJob, 0;
        data := cells[addr..addr + n];
      } else {
        data := *;
        if |data| != n { data := seq(n, _ => 0); }
      }
    }
  }

  lemma OrBits(o: byte, d: byte, m: byte)
    ensures Within(Both(o, d), Both(o, d | m)) && Within(Both(o, d | m), o)
  {
  }

  /** Missing some zero bits of the data leaves the cells on the way to programming it. */
  lemma PartialBetween(cells: seq<byte>, addr: nat, data: seq<byte>, missed: seq<byte>, partial: seq<byte>)
    requires |missed| == |data| == |partial|
    requires forall i :: 0 <= i < |data| ==> partial[i] == data[i] | missed[i]
    ensures Between(Program(cells, addr, data), Program(cells, addr, partial), cells)
  {
    hide Both, Within;
    forall i | 0 <= i < |cells|
      ensures Within(Program(cells, addr, data)[i], Program(cells, addr, partial)[i])
      ensures Within(Program(cells, addr, partial)[i], cells[i])
    {
      if addr <= i < addr + |data| {
        OrBits(cells[i], data[i - addr], missed[i - addr]);
      } else {
        BothWithin(cells[i], 0);
      }
    }
  }
}
