/**
 * The target calls of an unencrypted stub_lib_flash_write_buff: a head word, an aligned
 * body and a tail word, partial words padded with 0xFF.
 */
module WritePlan {
  import opened Words
  import opened BitUtils
  import opened NorContent

  /** One call of the target's write routine. */
  datatype Write = Write(addr: nat, data: seq<byte>)

  const WORD: nat := 4

  /** The word of flash_write_partial_word. */
  function Pad(src: seq<byte>, offset: nat): (w: seq<byte>)
    requires offset + |src| <= WORD
    ensures |w| == WORD
  {
    seq(offset, _ => 0xFF) + src + seq(WORD - offset - |src|, _ => 0xFF)
  }

  function HeadSize(addr: nat, size: nat): (n: nat)
    ensures n <= size && addr % WORD + n <= WORD
  {
    if addr % WORD == 0 then 0 else Min(size, WORD - addr % WORD)
  }

  /** The calls for what follows the head; addr is aligned. */
  function BodyOps(addr: nat, data: seq<byte>): seq<Write> {
    var n := |data| - |data| % WORD;
    (if n > 0 then [Write(addr, data[..n])] else [])
    + (if n < |data| then [Write(addr + n, Pad(data[n..], 0))] else [])
  }

  function WriteOps(addr: nat, data: seq<byte>): seq<Write> {
    if data == [] then []
    else if addr % WORD == 0 then BodyOps(addr, data)
    else
      var n := HeadSize(addr, |data|);
      var base := addr - addr % WORD;
      [Write(base, Pad(data[..n], addr % WORD))] + BodyOps(base + WORD, data[n..])
  }

  function ProgramAll(cells: seq<byte>, ops: seq<Write>): seq<byte>
    decreases |ops|
  {
    if ops == [] then cells else ProgramAll(Program(cells, ops[0].addr, ops[0].data), ops[1..])
  }

  lemma ProgramNone(cells: seq<byte>)
    ensures ProgramAll(cells, []) == cells
  {
  }

  lemma ProgramOne(cells: seq<byte>, op: Write)
    ensures ProgramAll(cells, [op]) == Program(cells, op.addr, op.data)
  {
  }

  lemma {:induction false} ProgramAllConcat(cells: seq<byte>, a: seq<Write>, b: seq<Write>)
    ensures ProgramAll(cells, a + b) == ProgramAll(ProgramAll(cells, a), b)
    decreases |a|
  {
    if a == [] {
      assert a + b == b;
    } else {
      ProgramAllConcat(Program(cells, a[0].addr, a[0].data), a[1..], b);
      assert (a + b)[1..] == a[1..] + b;
    }
  }

  lemma OnesNeutral(x: byte)
    ensures Both(x, 0xFF) == x
  {
  }

  /** Padding with ones leaves the neighbours of a partial word alone. */
  lemma PadNeutral(cells: seq<byte>, base: nat, src: seq<byte>, offset: nat)
    requires offset + |src| <= WORD
    ensures Program(cells, base, Pad(src, offset)) == Program(cells, base + offset, src)
  {
    hide Both;
    forall i | 0 <= i < |cells|
      ensures Program(cells, base, Pad(src, offset))[i] == Program(cells, base + offset, src)[i]
    {
      OnesNeutral(cells[i]);
    }
  }

  lemma BodyRefines(cells: seq<byte>, addr: nat, data: seq<byte>)
    ensures ProgramAll(cells, BodyOps(addr, data)) == Program(cells, addr, data)
  {
    hide Program, Pad, ProgramAll;
    var n := |data| - |data| % WORD;
    var body: seq<Write> := if n > 0 then [Write(addr, data[..n])] else [];
    var tail: seq<Write> := if n < |data| then [Write(addr + n, Pad(data[n..], 0))] else [];
    var mid := Program(cells, addr, data[..n]);
    ProgramAllConcat(cells, body, tail);
    assert ProgramAll(cells, body) == mid by {
      if n > 0 {
        ProgramOne(cells, body[0]);
      } else {
        ProgramNone(cells);
        ProgramNothing(cells, addr);
        assert data[..n] == [];
      }
    }
    assert ProgramAll(mid, tail) == Program(mid, addr + n, data[n..]) by {
      if n < |data| {
        ProgramOne(mid, tail[0]);
        PadNeutral(mid, addr + n, data[n..], 0);
      } else {
        ProgramNone(mid);
        ProgramNothing(mid, addr + n);
        assert data[n..] == [];
      }
    }
    ProgramConcat(cells, addr, data[..n], data[n..]);
    assert data[..n] + data[n..] == data;
  }

  /** The padded word writes program exactly the bytes of the buffer, at every alignment and length. */
  lemma WriteRefines(cells: seq<byte>, addr: nat, data: seq<byte>)
    ensures ProgramAll(cells, WriteOps(addr, data)) == Program(cells, addr, data)
  {
    hide Program, Pad, ProgramAll, BodyOps;
    if data == [] {
      ProgramNone(cells);
      ProgramNothing(cells, addr);
    } else if addr % WORD == 0 {
      BodyRefines(cells, addr, data);
    } else {
      var n, o := HeadSize(addr, |data|), addr % WORD;
      var base := addr - o;
      var head, body := [Write(base, Pad(data[..n], o))], BodyOps(base + WORD, data[n..]);
      ProgramAllConcat(cells, head, body);
      ProgramOne(cells, head[0]);
      PadNeutral(cells, base, data[..n], o);
      var mid := Program(cells, addr, data[..n]);
      BodyRefines(mid, base + WORD, data[n..]);
      if n == |data| {
        assert data[n..] == [];
        ProgramNothing(mid, base + WORD);
        ProgramNothing(mid, addr + n);
      }
      ProgramConcat(cells, addr, data[..n], data[n..]);
      assert data[..n] + data[n..] == data;
    }
  }

  /** The calls write whole words, ascending, without gap or overlap, from lo to hi. */
  predicate WordTiles(ops: seq<Write>, lo: nat, hi: nat)
    decreases |ops|
  {
    if ops == [] then lo == hi
    else
      && ops[0].addr == lo && lo % WORD == 0
      && |ops[0].data| > 0 && |ops[0].data| % WORD == 0
      && WordTiles(ops[1..], lo + |ops[0].data|, hi)
  }

  /** The first word boundary at or after a. */
  function UpToWord(a: nat): nat {
    (a + WORD - 1) / WORD * WORD
  }

  lemma WordEnds(addr: nat, size: nat)
    requires addr % WORD == 0
    ensures UpToWord(addr + size) == addr + (size - size % WORD) + if size % WORD == 0 then 0 else WORD
    ensures (addr + (size - size % WORD)) % WORD == 0 && (size - size % WORD) % WORD == 0
  {
  }

  lemma BodyTiles(addr: nat, data: seq<byte>)
    requires addr % WORD == 0
    ensures WordTiles(BodyOps(addr, data), addr, UpToWord(addr + |data|))
  {
    hide UpToWord, Pad;
    var n := |data| - |data| % WORD;
    WordEnds(addr, |data|);
    if n > 0 && n < |data| {
      var head, tail := Write(addr, data[..n]), Write(addr + n, Pad(data[n..], 0));
      assert [head, tail][1..] == [tail];
      assert BodyOps(addr, data) == [head, tail];
      assert WordTiles([tail], addr + n, addr + n + WORD);
    }
  }

  /** Every word that meets the range is written exactly once, in ascending order, and no other. */
  lemma WriteTiles(addr: nat, data: seq<byte>)
    requires data != []
    ensures WordTiles(WriteOps(addr, data), addr - addr % WORD, UpToWord(addr + |data|))
  {
    hide UpToWord, Pad, BodyOps;
    if addr % WORD == 0 {
      BodyTiles(addr, data);
    } else {
      var n, o := HeadSize(addr, |data|), addr % WORD;
      BodyTiles(addr - o + WORD, data[n..]);
      WordEnds(addr - o, o + |data|);
      WordEnds(addr - o + WORD, |data| - n);
      assert WriteOps(addr, data)[1..] == BodyOps(addr - addr % WORD + WORD, data[n..]);
    }
  }

  /** Each byte of a call is the buffer's byte for that address, and 0xFF where the buffer does not reach. */
  ghost predicate Carries(op: Write, addr: nat, data: seq<byte>) {
    forall j :: 0 <= j < |op.data| ==>
      op.data[j] == if addr <= op.addr + j < addr + |data| then data[op.addr + j - addr] else 0xFF
  }

  lemma BodyCarries(addr: nat, data: seq<byte>, op: Write)
    requires addr % WORD == 0 && op in BodyOps(addr, data)
    ensures Carries(op, addr, data)
  {
  }

  lemma OpsCarry(addr: nat, data: seq<byte>, op: Write)
    requires data != [] && op in WriteOps(addr, data)
    ensures Carries(op, addr, data)
  {
    hide Pad, Carries, BodyOps, WriteOps, HeadSize;
    if addr % WORD == 0 {
      WholeOps(addr, data);
      BodyCarries(addr, data, op);
    } else {
      HeadThenBody(addr, data);
      var n, base := HeadSize(addr, |data|), addr - addr % WORD;
      var head, rest := Write(base, Pad(data[..n], addr % WORD)), data[n..];
      if op == head {
        HeadCarries(addr, data, head);
      } else {
        BodyCarries(base + WORD, rest, op);
        BodyAbove(base + WORD, rest, op);
        CarriesMore(op, addr, data, n);
      }
    }
  }

  lemma HeadThenBody(addr: nat, data: seq<byte>)
    requires data != [] && addr % WORD != 0
    ensures var n, base := HeadSize(addr, |data|), addr - addr % WORD;
            && WriteOps(addr, data) == [Write(base, Pad(data[..n], addr % WORD))] + BodyOps(base + WORD, data[n..])
            && (data[n..] != [] ==> base + WORD == addr + n)
  {
    hide Pad, BodyOps;
  }

  /** One call for an aligned buffer; otherwise one for a cut first word, one for the whole words and one for a cut last word. */
  lemma WriteShape(addr: nat, data: seq<byte>)
    requires data != []
    ensures addr % 4 == 0 && |data| % 4 == 0 ==> WriteOps(addr, data) == [Write(addr, data)]
    ensures forall op :: op in WriteOps(addr, data) ==> Carries(op, addr, data)
    ensures var room := (4 - addr % 4) % 4;
            var head := if |data| < room then |data| else room;
            var ops, tail := WriteOps(addr, data), (|data| - head) % 4;
            && |ops| == (if head > 0 then 1 else 0) + (if |data| - head >= 4 then 1 else 0) + (if tail > 0 then 1 else 0)
            && ops != []
            && (head > 0 ==> |ops[0].data| == 4)
            && (tail > 0 ==> |ops[|ops| - 1].data| == 4)
  {
    hide Pad, Carries, HeadSize, BodyOps, WriteOps;
    forall op | op in WriteOps(addr, data)
      ensures Carries(op, addr, data)
    {
      OpsCarry(addr, data, op);
    }
    if addr % WORD == 0 {
      BodyShape(addr, data);
      assert WriteOps(addr, data) == BodyOps(addr, data) by { WholeOps(addr, data); }
    } else {
      var n := HeadSize(addr, |data|);
      CutHead(addr, data);
      BodyShape(addr - addr % WORD + WORD, data[n..]);
    }
  }

  lemma WholeOps(addr: nat, data: seq<byte>)
    requires addr % WORD == 0
    ensures WriteOps(addr, data) == BodyOps(addr, data)
  {
  }

  lemma CutHead(addr: nat, data: seq<byte>)
    requires data != [] && addr % WORD != 0
    ensures var n, ops := HeadSize(addr, |data|), WriteOps(addr, data);
            && n == (if |data| < 4 - addr % 4 then |data| else 4 - addr % 4)
            && ops != [] && |ops[0].data| == 4 && ops[1..] == BodyOps(addr - addr % WORD + WORD, data[n..])
  {
    hide Pad, BodyOps;
  }

  lemma BodyShape(addr: nat, data: seq<byte>)
    ensures var ops := BodyOps(addr, data);
            && |ops| == (if |data| >= 4 then 1 else 0) + (if |data| % 4 > 0 then 1 else 0)
            && (|data| % 4 > 0 ==> |ops[|ops| - 1].data| == 4)
            && (|data| % 4 == 0 && data != [] ==> ops == [Write(addr, data)])
  {
    hide Pad;
    assert data[..|data|] == data;
  }

  lemma BodyAbove(addr: nat, data: seq<byte>, op: Write)
    requires op in BodyOps(addr, data)
    ensures op.addr >= addr && data != []
  {
    hide Pad;
  }

  lemma HeadCarries(addr: nat, data: seq<byte>, head: Write)
    requires addr % WORD != 0
    requires head == Write(addr - addr % WORD, Pad(data[..HeadSize(addr, |data|)], addr % WORD))
    ensures Carries(head, addr, data)
  {
  }

  lemma CarriesMore(op: Write, addr: nat, data: seq<byte>, n: nat)
    requires n <= |data| && op.addr >= addr + n && Carries(op, addr + n, data[n..])
    ensures Carries(op, addr, data)
  {
  }

  /** The flash on the way: after some of the calls it lies between the start and the end. */
  lemma {:induction false} SomeOpsBetween(cells: seq<byte>, done: seq<Write>, todo: seq<Write>)
    ensures Between(ProgramAll(cells, done + todo), ProgramAll(cells, done), cells)
    decreases |done| + |todo|
  {
    hide Program, Between;
    if done == [] {
      if todo == [] {
        Reflexive(cells);
      } else {
        var next := Program(cells, todo[0].addr, todo[0].data);
        SomeOpsBetween(next, [], todo[1..]);
        assert [] + todo[1..] == todo[1..] && done + todo == todo;
        ProgramBetween(cells, todo[0].addr, todo[0].data);
        var end := ProgramAll(cells, todo);
        assert Between(end, next, next);
        assert end == ProgramAll(next, todo[1..]);
        Chain(end, next, cells);
      }
    } else {
      var next := Program(cells, done[0].addr, done[0].data);
      SomeOpsBetween(next, done[1..], todo);
      assert (done + todo)[1..] == done[1..] + todo;
      ProgramBetween(cells, done[0].addr, done[0].data);
      Widen(ProgramAll(cells, done + todo), ProgramAll(cells, done), next, cells);
    }
  }

  lemma Chain(lo: seq<byte>, mid: seq<byte>, hi: seq<byte>)
    requires Between(lo, mid, mid) && Between(mid, mid, hi)
    ensures Between(lo, hi, hi)
  {
    hide Both, Within;
    forall i | 0 <= i < |hi|
      ensures Within(lo[i], hi[i]) && Within(hi[i], hi[i])
    {
      BitsTransitive(lo[i], mid[i], hi[i]);
      BothWithin(hi[i], 0);
    }
  }

  lemma Widen(lo: seq<byte>, x: seq<byte>, mid: seq<byte>, hi: seq<byte>)
    requires Between(lo, x, mid) && Between(mid, mid, hi)
    ensures Between(lo, x, hi)
  {
    hide Both, Within;
    forall i | 0 <= i < |hi|
      ensures Within(lo[i], x[i]) && Within(x[i], hi[i])
    {
      BitsTransitive(x[i], mid[i], hi[i]);
    }
  }

  // ---- Chunks

  function Flatten(chunks: seq<seq<byte>>): seq<byte> {
    if chunks == [] then [] else chunks[0] + Flatten(chunks[1..])
  }

  /** Writing the chunks one call after the other. */
  function WriteChunks(cells: seq<byte>, addr: nat, chunks: seq<seq<byte>>): seq<byte>
    decreases |chunks|
  {
    if chunks == [] then cells
    else WriteChunks(ProgramAll(cells, WriteOps(addr, chunks[0])), addr + |chunks[0]|, chunks[1..])
  }

  /** However a buffer is cut, even inside words, the flash ends up as after one call. */
  lemma {:induction false} ChunkingIndependent(cells: seq<byte>, addr: nat, chunks: seq<seq<byte>>)
    ensures WriteChunks(cells, addr, chunks) == ProgramAll(cells, WriteOps(addr, Flatten(chunks)))
    decreases |chunks|
  {
    hide Program, ProgramAll, WriteOps;
    WriteRefines(cells, addr, Flatten(chunks));
    if chunks == [] {
      ProgramNothing(cells, addr);
    } else {
      var c0, rest := chunks[0], Flatten(chunks[1..]);
      var next := ProgramAll(cells, WriteOps(addr, c0));
      WriteRefines(cells, addr, c0);
      ChunkingIndependent(next, addr + |c0|, chunks[1..]);
      WriteRefines(next, addr + |c0|, rest);
      ProgramConcat(cells, addr, c0, rest);
    }
  }
}
