/**
 * The erase scheduler of stub_lib_flash_start_next_erase as a function: at each step a
 * 64 KB block when one fits, otherwise a 4 KB sector.
 */
module ErasePlan {
  const SECTOR: nat := 0x1000
  const BLOCK: nat := 0x1_0000

  datatype Erase = Block(addr: nat) | Sector(addr: nat)
  {
    function Size(): nat {
      if Block? then BLOCK else SECTOR
    }

    predicate Aligned() {
      addr % Size() == 0
    }

    predicate Covers(a: nat) {
      addr <= a < addr + Size()
    }
  }

  function First(addr: nat, remaining: nat): Erase {
    if remaining >= BLOCK && addr % BLOCK == 0 then Block(addr) else Sector(addr)
  }

  /** What is left after the next command. */
  function Rest(addr: nat, remaining: nat): nat {
    var size := First(addr, remaining).Size();
    if remaining >= size then remaining - size else 0
  }

  /** The choice of lines 249-255 and what it leaves. */
  lemma FirstCommand(addr: nat, remaining: nat)
    ensures remaining >= 0x1_0000 && addr % 0x1_0000 == 0 ==>
              First(addr, remaining) == Block(addr) && Rest(addr, remaining) == remaining - 0x1_0000
    ensures !(remaining >= 0x1_0000 && addr % 0x1_0000 == 0) ==>
              First(addr, remaining) == Sector(addr) && Rest(addr, remaining) == if remaining >= 0x1000 then remaining - 0x1000 else 0
    ensures Block(addr).Size() == 0x1_0000 && Sector(addr).Size() == 0x1000
  {
  }

  /** All the commands from a cursor on. */
  function Plan(addr: nat, remaining: nat): seq<Erase>
    decreases remaining
  {
    if remaining == 0 then [] else [First(addr, remaining)] + Plan(addr + First(addr, remaining).Size(), Rest(addr, remaining))
  }

  function RoundUp(n: nat): nat {
    (n + SECTOR - 1) / SECTOR * SECTOR
  }

  /** The commands cover [lo, hi) in ascending order without gap or overlap. */
  predicate Tiles(commands: seq<Erase>, lo: nat, hi: nat) {
    if commands == [] then lo == hi
    else commands[0].Aligned() && commands[0].addr == lo && Tiles(commands[1..], lo + commands[0].Size(), hi)
  }

  lemma RoundUpStep(addr: nat, remaining: nat)
    requires remaining > 0
    ensures RoundUp(remaining) == First(addr, remaining).Size() + RoundUp(Rest(addr, remaining))
    ensures addr % SECTOR == 0 ==> First(addr, remaining).Aligned() && (addr + First(addr, remaining).Size()) % SECTOR == 0
  {
  }

  /** From an aligned address every byte up to the rounded end is erased exactly once, and nothing else. */
  lemma {:induction false} PlanTiles(addr: nat, remaining: nat)
    requires addr % SECTOR == 0
    ensures Tiles(Plan(addr, remaining), addr, addr + RoundUp(remaining))
    decreases remaining
  {
    if remaining > 0 {
      RoundUpStep(addr, remaining);
      PlanTiles(addr + First(addr, remaining).Size(), Rest(addr, remaining));
    }
  }

  /** The region over-erased by a ragged request is shorter than a sector. */
  lemma RaggedBound(n: nat)
    ensures n <= RoundUp(n) < n + SECTOR
    ensures n % SECTOR == 0 ==> RoundUp(n) == n
  {
  }

  /** Only the last command of a plan reaches past the end of the request. */
  lemma {:induction false} OverEraseIsLast(addr: nat, remaining: nat, i: nat)
    requires i < |Plan(addr, remaining)|
    ensures Plan(addr, remaining)[i].addr + Plan(addr, remaining)[i].Size() > addr + remaining ==> i == |Plan(addr, remaining)| - 1
    decreases remaining
  {
    if i > 0 {
      OverEraseIsLast(addr + First(addr, remaining).Size(), Rest(addr, remaining), i - 1);
    }
  }

  /** The cursor after k commands. */
  function CursorAfter(addr: nat, remaining: nat, k: nat): (nat, nat)
    decreases k
  {
    if k == 0 || remaining == 0 then (addr, remaining)
    else CursorAfter(addr + First(addr, remaining).Size(), Rest(addr, remaining), k - 1)
  }

  /** The first k commands cover exactly the stretch from the start to the cursor, and the plan goes on from there. */
  lemma {:induction false} PrefixTiles(addr: nat, remaining: nat, k: nat)
    requires addr % SECTOR == 0 && k <= |Plan(addr, remaining)|
    ensures var (a, left) := CursorAfter(addr, remaining, k);
            && Tiles(Plan(addr, remaining)[..k], addr, a)
            && Plan(addr, remaining)[k..] == Plan(a, left)
            && a + RoundUp(left) == addr + RoundUp(remaining) && a % SECTOR == 0
    decreases k
  {
    if k > 0 {
      RoundUpStep(addr, remaining);
      PrefixTiles(addr + First(addr, remaining).Size(), Rest(addr, remaining), k - 1);
      assert Plan(addr, remaining)[..k][1..] == Plan(addr, remaining)[1..][..k - 1];
    }
  }

  /** One more command moves the cursor one step. */
  lemma {:induction false} CursorStep(addr: nat, remaining: nat, k: nat)
    requires k < |Plan(addr, remaining)|
    ensures var (a, left) := CursorAfter(addr, remaining, k);
            && left > 0 && Plan(addr, remaining)[k] == First(a, left)
            && CursorAfter(addr, remaining, k + 1) == (a + First(a, left).Size(), Rest(a, left))
    decreases k
  {
    if k > 0 {
      CursorStep(addr + First(addr, remaining).Size(), Rest(addr, remaining), k - 1);
    }
  }

  // ---- The plan is as short as any exact cover

  function Members(commands: seq<Erase>): set<Erase> {
    set e | e in commands
  }

  ghost predicate Covered(commands: set<Erase>, a: nat) {
    exists e :: e in commands && e.Covers(a)
  }

  ghost predicate ExactCover(commands: set<Erase>, lo: nat, hi: nat) {
    && (forall e :: e in commands ==> e.Aligned())
    && (forall a: nat :: Covered(commands, a) <==> lo <= a < hi)
  }

  lemma {:induction false} TilesMembers(commands: seq<Erase>, lo: nat, hi: nat, a: nat)
    requires Tiles(commands, lo, hi)
    ensures lo <= hi
    ensures Covered(Members(commands), a) <==> lo <= a < hi
    ensures forall e :: e in commands ==> e.Aligned()
  {
    if commands != [] {
      var mid := lo + commands[0].Size();
      TilesMembers(commands[1..], mid, hi, a);
      assert forall e :: e in commands <==> e == commands[0] || e in commands[1..];
      if lo <= a < mid {
        assert commands[0] in Members(commands) && commands[0].Covers(a);
      } else if mid <= a < hi {
        var e :| e in Members(commands[1..]) && e.Covers(a);
        assert e in Members(commands);
      }
    }
  }

  /** The plan itself is an exact cover. */
  lemma PlanIsCover(addr: nat, size: nat)
    requires addr % SECTOR == 0 && size % SECTOR == 0
    ensures ExactCover(Members(Plan(addr, size)), addr, addr + size)
  {
    PlanTiles(addr, size);
    RaggedBound(size);
    var p := Plan(addr, size);
    TilesMembers(p, addr, addr + size, addr);
    forall a: nat
      ensures Covered(Members(p), a) <==> addr <= a < addr + size
    {
      TilesMembers(p, addr, addr + size, a);
    }
  }

  /** A command of an exact cover that meets the first command of the plan lies inside it. */
  lemma MeetsFirst(commands: set<Erase>, addr: nat, size: nat, e: Erase, a: nat)
    requires addr % SECTOR == 0 && size % SECTOR == 0 && size > 0
    requires ExactCover(commands, addr, addr + size)
    requires e in commands && e.Covers(a) && First(addr, size).Covers(a)
    ensures addr <= e.addr && e.addr + e.Size() <= addr + First(addr, size).Size()
  {
    var f, last := First(addr, size), e.addr + e.Size() - 1;
    assert e.Covers(e.addr) && e.Covers(last);
    assert Covered(commands, e.addr) && Covered(commands, last);
    if e.Sector? {
      SectorInside(addr, e.addr, f.Size());
    } else {
      BlockInside(addr, size, e.addr);
    }
  }

  lemma SectorInside(addr: nat, x: nat, n: nat)
    requires addr % SECTOR == 0 && x % SECTOR == 0 && n % SECTOR == 0 && addr <= x < addr + n
    ensures x + SECTOR <= addr + n
  {
  }

  lemma BlockInside(addr: nat, size: nat, x: nat)
    requires addr % SECTOR == 0 && x % BLOCK == 0
    requires addr <= x < addr + First(addr, size).Size() && x + BLOCK <= addr + size
    ensures x == addr && First(addr, size).Block?
  {
    assert x % SECTOR == 0;
    if First(addr, size).Sector? {
      SectorInside(addr, x, SECTOR);
    } else {
      assert addr % BLOCK == 0;
    }
  }

  /** Dropping what lies inside the first command leaves an exact cover of the rest. */
  lemma DropFirst(commands: set<Erase>, addr: nat, size: nat) returns (others: set<Erase>)
    requires addr % SECTOR == 0 && size % SECTOR == 0 && size > 0
    requires ExactCover(commands, addr, addr + size)
    ensures |others| < |commands|
    ensures ExactCover(others, addr + First(addr, size).Size(), addr + size)
  {
    var f := First(addr, size);
    var mid := addr + f.Size();
    others := set e | e in commands && e.addr >= mid;
    assert Covered(commands, addr);
    var e0 :| e0 in commands && e0.Covers(addr);
    assert f.Covers(addr);
    MeetsFirst(commands, addr, size, e0, addr);
    assert e0 in commands - others;
    assert others < commands;
    SmallerSet(others, commands);
    forall a: nat
      ensures Covered(others, a) <==> mid <= a < addr + size
    {
      if mid <= a < addr + size {
        assert Covered(commands, a);
        var e :| e in commands && e.Covers(a);
        if e.addr < mid {
          StartsInRegion(commands, addr, addr + size, e);
          MeetsFirst(commands, addr, size, e, e.addr);
        }
        assert e in others;
      }
      if e :| e in others && e.Covers(a) {
        assert Covered(commands, a);
      }
    }
  }

  lemma StartsInRegion(commands: set<Erase>, lo: nat, hi: nat, e: Erase)
    requires ExactCover(commands, lo, hi) && e in commands
    ensures lo <= e.addr < hi && e.Covers(e.addr)
  {
    assert Covered(commands, e.addr);
  }

  lemma SmallerSet<T>(a: set<T>, b: set<T>)
    requires a < b
    ensures |a| < |b|
  {
    var d := b - a;
    assert b == a + d && a !! d && d != {};
    assert |b| == |a| + |d|;
  }

  /** No exact cover of the region by aligned blocks and sectors, in any order and with any overlap, has fewer commands. */
  lemma {:induction false} NoShorterCover(commands: set<Erase>, addr: nat, size: nat)
    requires addr % SECTOR == 0 && size % SECTOR == 0
    requires ExactCover(commands, addr, addr + size)
    ensures |Plan(addr, size)| <= |commands|
    decreases size
  {
    if size > 0 {
      var others := DropFirst(commands, addr, size);
      RoundUpStep(addr, size);
      RaggedBound(size);
      var n := First(addr, size).Size();
      assert n <= size && Rest(addr, size) == size - n;
      NoShorterCover(others, addr + n, size - n);
    }
  }

  /** Optimality for command sequences: greedy is an exact cover, and any other one is at least as long. */
  lemma PlanIsShortest(commands: seq<Erase>, addr: nat, size: nat)
    requires addr % SECTOR == 0 && size % SECTOR == 0
    requires ExactCover(Members(commands), addr, addr + size)
    ensures ExactCover(Members(Plan(addr, size)), addr, addr + size)
    ensures |Plan(addr, size)| <= |commands|
  {
    PlanIsCover(addr, size);
    NoShorterCover(Members(commands), addr, size);
    MembersSize(commands);
  }

  lemma {:induction false} MembersSize(commands: seq<Erase>)
    ensures |Members(commands)| <= |commands|
  {
    if commands != [] {
      MembersSize(commands[1..]);
      assert Members(commands) == {commands[0]} + Members(commands[1..]);
    }
  }

  // ---- How many commands

  /** Sectors from sector number a to the next block boundary. */
  function Head(a: nat): nat {
    (16 - a % 16) % 16
  }

  /** Commands for n sectors from sector number a: sectors up to a boundary, then blocks, then sectors. */
  function PlanLength(a: nat, n: nat): nat {
    if n < Head(a) then n else Head(a) + (n - Head(a)) / 16 + (n - Head(a)) % 16
  }

  lemma NoSectors(a: nat)
    ensures PlanLength(a, 0) == 0
  {
  }

  lemma BlockStep(a: nat, n: nat)
    requires n >= 16 && a % 16 == 0
    ensures PlanLength(a, n) == 1 + PlanLength(a + 16, n - 16)
  {
  }

  lemma SectorStep(a: nat, n: nat)
    requires n > 0 && !(n >= 16 && a % 16 == 0)
    ensures PlanLength(a, n) == 1 + PlanLength(a + 1, n - 1)
  {
    hide Head;
    HeadStep(a);
  }

  lemma HeadStep(a: nat)
    ensures a % 16 != 0 ==> Head(a) == Head(a + 1) + 1
    ensures a % 16 == 0 ==> Head(a) == 0 && Head(a + 1) == 15
  {
    hide Head;
    var q, m := a / 16, a % 16;
    HeadOf(q, m);
    if m == 15 { HeadOf(q + 1, 0); } else { HeadOf(q, m + 1); }
  }

  lemma HeadOf(q: nat, m: nat)
    requires m < 16
    ensures Head(16 * q + m) == if m == 0 then 0 else 16 - m
  {
  }

  lemma InSectors(a: nat, k: nat)
    requires k > 0
    ensures var f := First(a * SECTOR, k * SECTOR);
            && (f.Block? <==> k >= 16 && a % 16 == 0)
            && a * SECTOR + f.Size() == (a + if f.Block? then 16 else 1) * SECTOR
            && Rest(a * SECTOR, k * SECTOR) == (k - if f.Block? then 16 else 1) * SECTOR
  {
    var q, m := a / 16, a % 16;
    assert a * SECTOR == BLOCK * q + m * SECTOR;
    assert (a * SECTOR) % BLOCK == m * SECTOR;
  }

  lemma {:induction false} PlanLengthInSectors(a: nat, k: nat)
    ensures |Plan(a * SECTOR, k * SECTOR)| == PlanLength(a, k)
    decreases k
  {
    hide PlanLength, First, Rest;
    NoSectors(a);
    if k > 0 {
      InSectors(a, k);
      if First(a * SECTOR, k * SECTOR).Block? {
        BlockStep(a, k);
        PlanLengthInSectors(a + 16, k - 16);
      } else {
        SectorStep(a, k);
        PlanLengthInSectors(a + 1, k - 1);
      }
    }
  }

  lemma PlanLengthExact(addr: nat, size: nat)
    requires addr % SECTOR == 0 && size % SECTOR == 0
    ensures |Plan(addr, size)| == PlanLength(addr / SECTOR, size / SECTOR)
  {
    hide PlanLength, Plan;
    PlanLengthInSectors(addr / SECTOR, size / SECTOR);
  }

  /** At most 15 sectors on either side of the blocks. */
  lemma PlanIsShort(addr: nat, size: nat)
    requires addr % SECTOR == 0 && size % SECTOR == 0
    ensures |Plan(addr, size)| <= size / BLOCK + 30
  {
    PlanLengthExact(addr, size);
  }
}
