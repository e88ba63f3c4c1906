/** What erasing and programming do to the bytes of a NOR flash. */
module NorContent {
  import opened Words
  import opened ErasePlan

  /** Erased bytes read 0xFF. */
  function Filled(cells: seq<byte>, addr: nat, n: nat): seq<byte> {
    seq(|cells|, i requires 0 <= i < |cells| => if addr <= i < addr + n then 0xFF else cells[i])
  }

  /** The bitwise & of two bytes. */
  function Both(a: byte, b: byte): byte {
    a & b
  }

  /** Every bit of a is set in b. */
  predicate Within(a: byte, b: byte) {
    Both(a, b) == a
  }

  /** Programming can only clear bits. */
  function Program(cells: seq<byte>, addr: nat, data: seq<byte>): seq<byte> {
    seq(|cells|, i requires 0 <= i < |cells| => if addr <= i < addr + |data| then Both(cells[i], data[i - addr]) else cells[i])
  }

  function EraseAll(cells: seq<byte>, commands: seq<Erase>): seq<byte>
    decreases |commands|
  {
    if commands == [] then cells else EraseAll(Filled(cells, commands[0].addr, commands[0].Size()), commands[1..])
  }

  lemma {:induction false} EraseAllAppend(cells: seq<byte>, commands: seq<Erase>, e: Erase)
    ensures EraseAll(cells, commands + [e]) == Filled(EraseAll(cells, commands), e.addr, e.Size())
    decreases |commands|
  {
    if commands == [] {
      assert [e][1..] == [];
    } else {
      EraseAllAppend(Filled(cells, commands[0].addr, commands[0].Size()), commands[1..], e);
      assert (commands + [e])[1..] == commands[1..] + [e];
    }
  }

  /** Commands that tile a region fill exactly that region. */
  lemma {:induction false} TilesFill(cells: seq<byte>, commands: seq<Erase>, lo: nat, hi: nat)
    requires Tiles(commands, lo, hi)
    ensures lo <= hi && EraseAll(cells, commands) == Filled(cells, lo, hi - lo)
    decreases |commands|
  {
    if commands == [] {
      assert Filled(cells, lo, 0) == cells;
    } else {
      var n := commands[0].Size();
      TilesFill(Filled(cells, lo, n), commands[1..], lo + n, hi);
      assert Filled(Filled(cells, lo, n), lo + n, hi - lo - n) == Filled(cells, lo, hi - lo);
    }
  }

  lemma ProgramConcat(cells: seq<byte>, addr: nat, x: seq<byte>, y: seq<byte>)
    ensures Program(Program(cells, addr, x), addr + |x|, y) == Program(cells, addr, x + y)
  {
  }

  lemma ProgramNothing(cells: seq<byte>, addr: nat)
    ensures Program(cells, addr, []) == cells
  {
  }

  // ---- Partly done programming

  /** Each byte of x has the bits of lo and no bit that hi lacks. */
  ghost predicate Between(lo: seq<byte>, x: seq<byte>, hi: seq<byte>) {
    && |lo| == |x| == |hi|
    && (forall i :: 0 <= i < |x| ==> Within(lo[i], x[i]) && Within(x[i], hi[i]))
  }

  lemma BitsTransitive(a: byte, b: byte, c: byte)
    requires Within(a, b) && Within(b, c)
    ensures Within(a, c)
  {
  }

  lemma BetweenShrinks(lo: seq<byte>, lo': seq<byte>, x: seq<byte>, hi': seq<byte>, hi: seq<byte>)
    requires Between(lo', x, hi') && Between(lo, lo', hi) && Between(lo, hi', hi)
    ensures Between(lo, x, hi)
  {
    hide Both, Within;
    forall i | 0 <= i < |x|
      ensures Within(lo[i], x[i]) && Within(x[i], hi[i])
    {
      BitsTransitive(lo[i], lo'[i], x[i]);
      BitsTransitive(x[i], hi'[i], hi[i]);
    }
  }

  lemma BothWithin(a: byte, b: byte)
    ensures Within(Both(a, b), a) && Within(a, a)
  {
  }

  lemma Reflexive(cells: seq<byte>)
    ensures Between(cells, cells, cells)
  {
    hide Both, Within;
    forall i | 0 <= i < |cells|
      ensures Within(cells[i], cells[i])
    {
      BothWithin(cells[i], 0);
    }
  }

  lemma ProgramBetween(cells: seq<byte>, addr: nat, data: seq<byte>)
    ensures Between(Program(cells, addr, data), Program(cells, addr, data), cells)
    ensures Between(Program(cells, addr, data), cells, cells)
  {
    hide Both, Within;
    var p := Program(cells, addr, data);
    forall i | 0 <= i < |cells|
      ensures Within(p[i], p[i]) && Within(p[i], cells[i]) && Within(cells[i], cells[i])
    {
      BothWithin(cells[i], if addr <= i < addr + |data| then data[i - addr] else 0);
      BothWithin(p[i], 0);
    }
  }

  lemma RetryByte(o: byte, d: byte, x: byte)
    requires Within(Both(o, d), x) && Within(x, o)
    ensures Both(x, d) == Both(o, d)
  {
  }

  /** Programming again after a partial attempt gives what one complete attempt gives. */
  lemma RetryConverges(cells: seq<byte>, x: seq<byte>, addr: nat, data: seq<byte>)
    requires Between(Program(cells, addr, data), x, cells)
    ensures Program(x, addr, data) == Program(cells, addr, data)
  {
    hide Both, Within;
    forall i | 0 <= i < |x|
      ensures Program(x, addr, data)[i] == Program(cells, addr, data)[i]
    {
      if addr <= i < addr + |data| {
        RetryByte(cells[i], data[i - addr], x[i]);
      } else {
        SameByte(cells[i], x[i]);
      }
    }
  }

  lemma SameByte(o: byte, x: byte)
    requires Within(o, x) && Within(x, o)
    ensures x == o
  {
  }

  /** states records the flash before the first attempt and after each failed one. */
  ghost predicate FailedAttempts(states: seq<seq<byte>>, addr: nat, data: seq<byte>) {
    && states != []
    && (forall i :: 0 < i < |states| ==> Between(Program(states[i - 1], addr, data), states[i], states[i - 1]))
  }

  /** Any number of failed attempts before a successful one makes no difference. */
  lemma {:induction false} RetriesConverge(states: seq<seq<byte>>, addr: nat, data: seq<byte>)
    requires FailedAttempts(states, addr, data)
    ensures Program(states[|states| - 1], addr, data) == Program(states[0], addr, data)
  {
    hide Program, Between;
    var n := |states| - 1;
    if n > 0 {
      RetriesConverge(states[..n], addr, data);
      RetryConverges(states[n - 1], states[n], addr, data);
    }
  }
}
