/** The sector map: a run-length table of sector sizes, and the search through it. */
module Geometry {
  import opened Words

  /** `n` consecutive sectors of `size` bytes; a run with `n == 0` ends a table. */
  datatype SectorRun = SectorRun(n: nat, size: nat)

  const BLOCK_SIZE: nat := 0x1000

  const GEOMETRY0: seq<SectorRun> := [SectorRun(15, 0x1000), SectorRun(0, 0)]
  const GEOMETRY1: seq<SectorRun> := [SectorRun(15, 0x2000), SectorRun(0, 0)]
  const GEOMETRY2: seq<SectorRun> :=
    [SectorRun(8, 0x2000), SectorRun(2, 0x1_0000), SectorRun(8, 0x2000), SectorRun(0, 0)]
  const GEOMETRY3: seq<SectorRun> :=
    [SectorRun(8, 0x1000), SectorRun(14, 0x8000), SectorRun(5, 0x1000), SectorRun(0, 0)]

  predicate Terminated(table: seq<SectorRun>)
  {
    |table| > 0 && table[|table| - 1].n == 0
  }

  /** The sizes of all sectors, in address order. */
  function Expand(table: seq<SectorRun>): seq<nat>
  {
    if |table| == 0 || table[0].n == 0 then []
    else seq(table[0].n, _ => table[0].size) + Expand(table[1..])
  }

  /** The address at which sector `k` starts; for `k == |sizes|`, the end of the last sector. */
  function Start(sizes: seq<nat>, k: nat): nat
    requires k <= |sizes|
  {
    if k == 0 then 0 else Start(sizes, k - 1) + sizes[k - 1]
  }

  function Total(sizes: seq<nat>): nat
  {
    Start(sizes, |sizes|)
  }

  /** The table fits the loader's arithmetic: 32-bit addresses and a signed sector counter. */
  predicate FitsInWord(sizes: seq<nat>)
  {
    Total(sizes) < ADDRESS_SPACE && |sizes| < 0x8000_0000
  }

  /** A whole, positive number of blocks. */
  predicate WholeBlocks(size: nat)
  {
    0 < size && size % BLOCK_SIZE == 0
  }

  predicate InBlocks(sizes: seq<nat>)
  {
    forall k :: 0 <= k < |sizes| ==> WholeBlocks(sizes[k])
  }

  /** Address `a` lies in sector `k`. */
  predicate InSector(sizes: seq<nat>, k: int, a: nat)
  {
    0 <= k < |sizes| && Start(sizes, k) <= a < Start(sizes, k + 1)
  }

  function SectorFrom(sizes: seq<nat>, a: nat, k: nat): int
    requires k <= |sizes|
    decreases |sizes| - k
  {
    if k == |sizes| then -1
    else if a < Start(sizes, k + 1) then k
    else SectorFrom(sizes, a, k + 1)
  }

  /** The sector of address `a`, or -1. */
  function SectorNumber(sizes: seq<nat>, a: nat): int
  {
    SectorFrom(sizes, a, 0)
  }

  // ----- prefix sums -----

  lemma {:induction false} StartMonotone(sizes: seq<nat>, j: nat, k: nat)
    requires j <= k <= |sizes|
    ensures Start(sizes, j) <= Start(sizes, k)
    decreases k
  {
    if j < k {
      StartMonotone(sizes, j, k - 1);
    }
  }

  lemma {:induction false} StartAligned(sizes: seq<nat>, k: nat)
    requires InBlocks(sizes) && k <= |sizes|
    ensures Start(sizes, k) % BLOCK_SIZE == 0
  {
    if k > 0 {
      StartAligned(sizes, k - 1);
    }
  }

  // ----- what the sector number means -----

  lemma {:induction false} SectorFromCorrect(sizes: seq<nat>, a: nat, k: nat)
    requires k <= |sizes| && Start(sizes, k) <= a
    ensures SectorFrom(sizes, a, k) == -1 <==> Total(sizes) <= a
    ensures SectorFrom(sizes, a, k) != -1 ==> InSector(sizes, SectorFrom(sizes, a, k), a)
    decreases |sizes| - k
  {
    if k < |sizes| {
      StartMonotone(sizes, k + 1, |sizes|);
      if Start(sizes, k + 1) <= a {
        SectorFromCorrect(sizes, a, k + 1);
      }
    }
  }

  lemma SectorUnique(sizes: seq<nat>, a: nat, j: int, k: int)
    requires InSector(sizes, j, a) && InSector(sizes, k, a)
    ensures j == k
  {
    if j < k {
      StartMonotone(sizes, j + 1, k);
    } else if k < j {
      StartMonotone(sizes, k + 1, j);
    }
  }

  /** The sector number is the one sector containing the address, and -1 exactly past the last one. */
  lemma SectorNumberCorrect(sizes: seq<nat>, a: nat)
    ensures SectorNumber(sizes, a) == -1 <==> Total(sizes) <= a
    ensures a < Total(sizes) ==> InSector(sizes, SectorNumber(sizes, a), a)
    ensures forall k :: InSector(sizes, k, a) <==> 0 <= k && k == SectorNumber(sizes, a)
  {
    SectorFromCorrect(sizes, a, 0);
    forall k | InSector(sizes, k, a) ensures k == SectorNumber(sizes, a) {
      if Total(sizes) <= a {
        StartMonotone(sizes, k + 1, |sizes|);
        assert false;
      } else {
        SectorUnique(sizes, a, k, SectorNumber(sizes, a));
      }
    }
  }

  /** Sector numbers grow with the address. */
  lemma SectorNumberMonotone(sizes: seq<nat>, a: nat, b: nat)
    requires a <= b < Total(sizes)
    ensures 0 <= SectorNumber(sizes, a) <= SectorNumber(sizes, b) < |sizes|
  {
    SectorNumberCorrect(sizes, a);
    SectorNumberCorrect(sizes, b);
    var j, k := SectorNumber(sizes, a), SectorNumber(sizes, b);
    assert InSector(sizes, j, a) && InSector(sizes, k, b);
    if k < j {
      StartMonotone(sizes, k + 1, j);
    }
  }

  /** Every sector is reached: its first and its last byte carry its number. */
  lemma SectorNumberOnto(sizes: seq<nat>, k: nat)
    requires InBlocks(sizes) && k < |sizes|
    ensures SectorNumber(sizes, Start(sizes, k)) == k
    ensures Start(sizes, k) < Start(sizes, k + 1)
    ensures SectorNumber(sizes, Start(sizes, k + 1) - 1) == k
  {
    SectorNumberCorrect(sizes, Start(sizes, k));
    assert InSector(sizes, k, Start(sizes, k));
    SectorNumberCorrect(sizes, Start(sizes, k + 1) - 1);
    assert InSector(sizes, k, Start(sizes, k + 1) - 1);
  }

  /** `a` is the address of a block. */
  predicate Aligned(a: nat)
  {
    a % BLOCK_SIZE == 0
  }

  function BlockOf(a: Address): (block: Address)
    ensures Aligned(block) && block <= a < block + BLOCK_SIZE <= ADDRESS_SPACE
  {
    a - a % BLOCK_SIZE
  }

  /** An aligned block that starts inside the geometry lies in a single sector. */
  lemma BlockInOneSector(sizes: seq<nat>, block: nat)
    requires InBlocks(sizes) && Aligned(block) && block < Total(sizes)
    ensures block + BLOCK_SIZE <= Total(sizes)
    ensures 0 <= SectorNumber(sizes, block) < |sizes|
    ensures Start(sizes, SectorNumber(sizes, block)) <= block
    ensures block + BLOCK_SIZE <= Start(sizes, SectorNumber(sizes, block) + 1)
    ensures forall x :: block <= x < block + BLOCK_SIZE ==> SectorNumber(sizes, x) == SectorNumber(sizes, block)
  {
    SectorNumberCorrect(sizes, block);
    var n := SectorNumber(sizes, block);
    assert InSector(sizes, n, block);
    StartAligned(sizes, n + 1);
    StartMonotone(sizes, n + 1, |sizes|);
    forall x | block <= x < block + BLOCK_SIZE ensures SectorNumber(sizes, x) == n {
      SectorNumberCorrect(sizes, x);
      assert InSector(sizes, n, x);
    }
  }

  // ----- the table walks -----

  /** The runs from `i` on describe the sectors from `n` on. */
  predicate AtRun(sizes: seq<nat>, n: nat, table: seq<SectorRun>, i: nat)
  {
    n <= |sizes| && i <= |table| && sizes[n..] == Expand(table[i..])
  }

  /** The last `j` sectors of run `i` and the runs after it describe the sectors from `n` on. */
  predicate InRun(sizes: seq<nat>, n: nat, table: seq<SectorRun>, i: nat, j: nat)
  {
    && n + j <= |sizes| && i < |table|
    && (forall k :: n <= k < n + j ==> sizes[k] == table[i].size)
    && AtRun(sizes, n + j, table, i + 1)
  }

  lemma EnterRun(sizes: seq<nat>, n: nat, table: seq<SectorRun>, i: nat)
    requires AtRun(sizes, n, table, i) && i < |table| && table[i].n != 0
    ensures InRun(sizes, n, table, i, table[i].n)
  {
    assert table[i..][1..] == table[i + 1..];
    var run := seq(table[i].n, _ => table[i].size);
    assert sizes[n..] == run + Expand(table[i + 1..]);
    assert |sizes| - n == |run + Expand(table[i + 1..])|;
    forall k | n <= k < n + table[i].n ensures sizes[k] == table[i].size {
      assert sizes[k] == sizes[n..][k - n] == run[k - n];
    }
    assert sizes[n + table[i].n..] == sizes[n..][table[i].n..] == Expand(table[i + 1..]);
  }

  lemma RunBounds(sizes: seq<nat>, n: nat, table: seq<SectorRun>, i: nat, j: nat)
    requires InRun(sizes, n, table, i, j)
    ensures n + j <= |sizes|
    ensures j == 0 ==> AtRun(sizes, n, table, i + 1)
  {
  }

  lemma AtEnd(sizes: seq<nat>, n: nat, table: seq<SectorRun>, i: nat)
    requires AtRun(sizes, n, table, i) && i < |table| && table[i].n == 0
    ensures n == |sizes|
  {
    assert |sizes[n..]| == 0;
  }

  lemma SearchStart(table: seq<SectorRun>, address: nat)
    ensures AtRun(Expand(table), 0, table, 0)
    ensures SectorNumber(Expand(table), address) == SectorFrom(Expand(table), address, 0)
    ensures Start(Expand(table), 0) == 0
  {
    assert table[0..] == table && Expand(table)[0..] == Expand(table);
  }

  /** One comparison of the search: the end of sector `n` does not wrap round, and decides the rest. */
  lemma SearchStep(sizes: seq<nat>, address: nat, n: nat, table: seq<SectorRun>, i: nat, j: nat)
    requires FitsInWord(sizes) && InRun(sizes, n, table, i, j) && 0 < j && Start(sizes, n) <= address
    ensures InRun(sizes, n + 1, table, i, j - 1)
    ensures Wrap(Start(sizes, n) + table[i].size) == Start(sizes, n + 1)
    ensures SectorFrom(sizes, address, n) ==
            if address < Start(sizes, n + 1) then n else SectorFrom(sizes, address, n + 1)
  {
    StartMonotone(sizes, n + 1, |sizes|);
  }

  lemma SearchEnd(sizes: seq<nat>, address: nat)
    ensures SectorFrom(sizes, address, |sizes|) == -1
  {
  }

  method GetSectorNumber(geometry: seq<SectorRun>, address: Address) returns (r: int)
    requires Terminated(geometry) && FitsInWord(Expand(geometry))
    ensures r == SectorNumber(Expand(geometry), address)
    ensures r == -1 <==> Total(Expand(geometry)) <= address
    ensures r != -1 ==> InSector(Expand(geometry), r, address)
  {
    ghost var sizes := Expand(geometry);
    SectorNumberCorrect(sizes, address);
    SearchStart(geometry, address);
    hide Start, SectorNumber, SectorFrom, FitsInWord, Expand, Total, InSector, Wrap, InRun;
    var sectorStartAddress: Address, n, i := 0, 0, 0;
    while geometry[i].n != 0
      invariant 0 <= i < |geometry| && 0 <= n
      invariant AtRun(sizes, n, geometry, i)
      invariant sectorStartAddress == Start(sizes, n) <= address
      invariant SectorNumber(sizes, address) == SectorFrom(sizes, address, n)
      decreases |geometry| - i
    {
      var j := geometry[i].n;
      EnterRun(sizes, n, geometry, i);
      while j != 0
        invariant 0 <= j && 0 <= n <= |sizes|
        invariant InRun(sizes, n, geometry, i, j)
        invariant sectorStartAddress == Start(sizes, n) <= address
        invariant SectorNumber(sizes, address) == SectorFrom(sizes, address, n)
        decreases j
      {
        RunBounds(sizes, n, geometry, i, j);
        SearchStep(sizes, address, n, geometry, i, j);
        var sectorEndAddress := Wrap(sectorStartAddress + geometry[i].size);
        if sectorStartAddress <= address < sectorEndAddress {
          return n;
        }
        sectorStartAddress := sectorEndAddress;
        n := n + 1;
        j := j - 1;
      }
      RunBounds(sizes, n, geometry, i, 0);
      i := i + 1;
    }
    AtEnd(sizes, n, geometry, i);
    SearchEnd(sizes, address);
    return -1;
  }

  method GetNumberOfSectors(geometry: seq<SectorRun>) returns (n: nat)
    requires Terminated(geometry)
    ensures n == |Expand(geometry)|
  {
    ghost var sizes := Expand(geometry);
    n := 0;
    var i := 0;
    SearchStart(geometry, 0);
    while geometry[i].n != 0
      invariant 0 <= i < |geometry|
      invariant AtRun(sizes, n, geometry, i)
      decreases |geometry| - i
    {
      EnterRun(sizes, n, geometry, i);
      n := n + geometry[i].n;
      i := i + 1;
    }
    AtEnd(sizes, n, geometry, i);
  }

  // ----- the four tables -----

  /** A table all of whose runs have block-sized sectors, with its total computed from the runs. */
  function RunTotal(table: seq<SectorRun>): nat
  {
    if |table| == 0 || table[0].n == 0 then 0 else table[0].n * table[0].size + RunTotal(table[1..])
  }

  predicate RunsInBlocks(table: seq<SectorRun>)
  {
    forall i :: 0 <= i < |table| && table[i].n != 0 ==> WholeBlocks(table[i].size)
  }

  lemma {:induction false} StartOfPrepended(n: nat, size: nat, rest: seq<nat>, k: nat)
    requires k <= n + |rest|
    ensures Start(seq(n, _ => size) + rest, k) ==
            if k <= n then k * size else n * size + Start(rest, k - n)
  {
    var sizes := seq(n, _ => size) + rest;
    if k > 0 {
      StartOfPrepended(n, size, rest, k - 1);
      if k <= n {
        assert k * size == (k - 1) * size + size;
      }
    }
  }

  /** The expanded list of a run-length table has the total and the block alignment its runs show. */
  lemma {:induction false} ExpandCorrect(table: seq<SectorRun>)
    requires RunsInBlocks(table)
    ensures InBlocks(Expand(table)) && Total(Expand(table)) == RunTotal(table)
    decreases |table|
  {
    hide WholeBlocks;
    if |table| > 0 && table[0].n != 0 {
      ExpandCorrect(table[1..]);
      var rest := Expand(table[1..]);
      StartOfPrepended(table[0].n, table[0].size, rest, table[0].n + |rest|);
    }
  }

  lemma {:induction false} BlocksBoundCount(sizes: seq<nat>, k: nat)
    requires InBlocks(sizes) && k <= |sizes|
    ensures k * BLOCK_SIZE <= Start(sizes, k)
  {
    if k > 0 {
      BlocksBoundCount(sizes, k - 1);
    }
  }

  /** Block-sized sectors whose total fits in 32 bits are few enough for the signed counter. */
  lemma BlocksFit(sizes: seq<nat>)
    requires InBlocks(sizes) && Total(sizes) < ADDRESS_SPACE
    ensures FitsInWord(sizes)
  {
    BlocksBoundCount(sizes, |sizes|);
  }

  /** What the loader needs of a table, with its flash size. */
  predicate Usable(table: seq<SectorRun>, size: nat)
  {
    && Terminated(table)
    && InBlocks(Expand(table))
    && FitsInWord(Expand(table))
    && Total(Expand(table)) == size
  }

  lemma RunsUsable(table: seq<SectorRun>, size: nat)
    requires Terminated(table) && RunsInBlocks(table) && RunTotal(table) == size < ADDRESS_SPACE
    ensures Usable(table, size)
  {
    ExpandCorrect(table);
    BlocksFit(Expand(table));
  }

  lemma RunTotalStep(run: SectorRun, rest: seq<SectorRun>)
    ensures RunTotal([run] + rest) == if run.n == 0 then 0 else run.n * run.size + RunTotal(rest)
  {
    assert ([run] + rest)[1..] == rest;
  }

  lemma LongTableTotal(r0: SectorRun, r1: SectorRun, r2: SectorRun)
    requires r0.n > 0 && r1.n > 0 && r2.n > 0
    ensures RunTotal([r0, r1, r2, SectorRun(0, 0)]) == r0.n * r0.size + r1.n * r1.size + r2.n * r2.size
  {
    RunTotalStep(r2, [SectorRun(0, 0)]);
    RunTotalStep(r1, [r2, SectorRun(0, 0)]);
    RunTotalStep(r0, [r1, r2, SectorRun(0, 0)]);
    assert [r2] + [SectorRun(0, 0)] == [r2, SectorRun(0, 0)];
    assert [r1] + [r2, SectorRun(0, 0)] == [r1, r2, SectorRun(0, 0)];
    assert [r0] + [r1, r2, SectorRun(0, 0)] == [r0, r1, r2, SectorRun(0, 0)];
  }

  lemma ShortTableUsable(run: SectorRun, size: nat)
    requires run.n > 0 && WholeBlocks(run.size)
    requires run.n * run.size == size < ADDRESS_SPACE
    ensures Usable([run, SectorRun(0, 0)], size)
  {
    RunTotalStep(run, [SectorRun(0, 0)]);
    assert [run] + [SectorRun(0, 0)] == [run, SectorRun(0, 0)];
    RunsUsable([run, SectorRun(0, 0)], size);
  }

  lemma LongTableUsable(r0: SectorRun, r1: SectorRun, r2: SectorRun, size: nat)
    requires forall r <- {r0, r1, r2} :: r.n > 0 && WholeBlocks(r.size)
    requires r0.n * r0.size + r1.n * r1.size + r2.n * r2.size == size < ADDRESS_SPACE
    ensures Usable([r0, r1, r2, SectorRun(0, 0)], size)
  {
    LongTableTotal(r0, r1, r2);
    RunsUsable([r0, r1, r2, SectorRun(0, 0)], size);
  }

  /** All four tables meet what the loader needs. */
  lemma TablesUsable()
    ensures Usable(GEOMETRY0, 60 * 1024)
    ensures Usable(GEOMETRY1, 120 * 1024)
    ensures Usable(GEOMETRY2, 256 * 1024)
    ensures Usable(GEOMETRY3, 500 * 1024)
  {
    hide Usable;
    ShortTableUsable(SectorRun(15, 0x1000), 60 * 1024);
    ShortTableUsable(SectorRun(15, 0x2000), 120 * 1024);
    LongTableUsable(SectorRun(8, 0x2000), SectorRun(2, 0x1_0000), SectorRun(8, 0x2000), 256 * 1024);
    LongTableUsable(SectorRun(8, 0x1000), SectorRun(14, 0x8000), SectorRun(5, 0x1000), 500 * 1024);
  }

  // ----- the sectors of the four tables, address by address -----

  lemma QuotientBounds(n: nat, size: nat, a: nat)
    requires 0 < size && a < n * size
    ensures a / size < n && a / size * size <= a < (a / size + 1) * size
  {
    var k := a / size;
    assert a == k * size + a % size;
    assert (k + 1) * size == k * size + size;
    assert n <= k ==> n * size <= k * size;
  }

  lemma RunEnd(n: nat, size: nat, rest: seq<nat>, k: nat)
    requires k < |rest|
    ensures Start(seq(n, _ => size) + rest, n + k) == n * size + Start(rest, k)
    ensures Start(seq(n, _ => size) + rest, n + k + 1) == n * size + Start(rest, k + 1)
  {
    StartOfPrepended(n, size, rest, n + k);
    StartOfPrepended(n, size, rest, n + k + 1);
  }

  /** In a run of `n` sectors of `size` bytes the sector is the quotient; past it, the search goes on. */
  lemma RunSector(n: nat, size: nat, rest: seq<nat>, a: nat)
    requires 0 < size
    ensures a < n * size ==> SectorNumber(seq(n, _ => size) + rest, a) == a / size
    ensures n * size <= a < n * size + Total(rest) ==>
              SectorNumber(seq(n, _ => size) + rest, a) == n + SectorNumber(rest, a - n * size)
  {
    hide SectorNumber, Start;
    var sizes := seq(n, _ => size) + rest;
    SectorNumberCorrect(sizes, a);
    if a < n * size {
      var k := a / size;
      QuotientBounds(n, size, a);
      StartOfPrepended(n, size, rest, k);
      StartOfPrepended(n, size, rest, k + 1);
      assert InSector(sizes, k, a);
    } else if a < n * size + Total(rest) {
      SectorNumberCorrect(rest, a - n * size);
      var k := SectorNumber(rest, a - n * size);
      assert InSector(rest, k, a - n * size);
      RunEnd(n, size, rest, k);
      assert InSector(sizes, n + k, a);
    }
  }

  lemma ExpandRun(run: SectorRun, rest: seq<SectorRun>)
    requires run.n > 0
    ensures Expand([run] + rest) == seq(run.n, _ => run.size) + Expand(rest)
  {
    assert ([run] + rest)[1..] == rest;
  }

  /** A table of one run. */
  lemma ShortTableSectors(r0: SectorRun, a: nat)
    requires r0.n > 0 && WholeBlocks(r0.size)
    ensures |Expand([r0, SectorRun(0, 0)])| == r0.n
    ensures a < r0.n * r0.size ==> SectorNumber(Expand([r0, SectorRun(0, 0)]), a) == a / r0.size
  {
    assert [r0] + [SectorRun(0, 0)] == [r0, SectorRun(0, 0)];
    ExpandRun(r0, [SectorRun(0, 0)]);
    RunSector(r0.n, r0.size, [], a);
  }

  /** A table of three runs. */
  lemma LongTableSectors(r0: SectorRun, r1: SectorRun, r2: SectorRun, a: nat)
    requires forall r <- {r0, r1, r2} :: r.n > 0 && WholeBlocks(r.size)
    ensures |Expand([r0, r1, r2, SectorRun(0, 0)])| == r0.n + r1.n + r2.n
    ensures var e0 := r0.n * r0.size;
            var e1 := e0 + r1.n * r1.size;
            a < e1 + r2.n * r2.size ==>
              SectorNumber(Expand([r0, r1, r2, SectorRun(0, 0)]), a) ==
              if a < e0 then a / r0.size
              else if a < e1 then r0.n + (a - e0) / r1.size
              else r0.n + r1.n + (a - e1) / r2.size
  {
    hide SectorNumber;
    var t2, t1 := [r2, SectorRun(0, 0)], [r1, r2, SectorRun(0, 0)];
    assert [r1] + t2 == t1 && [r0] + t1 == [r0, r1, r2, SectorRun(0, 0)];
    ExpandRun(r1, t2);
    ExpandRun(r0, t1);
    LongTableTotal(r0, r1, r2);
    RunTotalStep(r1, t2);
    RunTotalStep(r2, [SectorRun(0, 0)]);
    assert [r2] + [SectorRun(0, 0)] == t2;
    ExpandCorrect(t1);
    ExpandCorrect(t2);
    var e0 := r0.n * r0.size;
    RunSector(r0.n, r0.size, Expand(t1), a);
    if e0 <= a {
      RunSector(r1.n, r1.size, Expand(t2), a - e0);
      if e0 + r1.n * r1.size <= a {
        ShortTableSectors(r2, a - e0 - r1.n * r1.size);
      }
    }
  }

  /** The sector of every flash address of the four maps, and how many sectors each has: 15 of 4 KiB;
      15 of 8 KiB; 8 of 8 KiB, 2 of 64 KiB, 8 of 8 KiB; 8 of 4 KiB, 14 of 32 KiB, 5 of 4 KiB. */
  lemma TableSectors(a: nat)
    ensures |Expand(GEOMETRY0)| == 15 && |Expand(GEOMETRY1)| == 15
    ensures |Expand(GEOMETRY2)| == 18 && |Expand(GEOMETRY3)| == 27
    ensures a < 0xF000 ==> SectorNumber(Expand(GEOMETRY0), a) == a / 0x1000
    ensures a < 0x1_E000 ==> SectorNumber(Expand(GEOMETRY1), a) == a / 0x2000
    ensures a < 0x4_0000 ==>
              SectorNumber(Expand(GEOMETRY2), a) ==
              if a < 0x1_0000 then a / 0x2000
              else if a < 0x3_0000 then 8 + (a - 0x1_0000) / 0x1_0000
              else 10 + (a - 0x3_0000) / 0x2000
    ensures a < 0x7_D000 ==>
              SectorNumber(Expand(GEOMETRY3), a) ==
              if a < 0x8000 then a / 0x1000
              else if a < 0x7_8000 then 8 + (a - 0x8000) / 0x8000
              else 22 + (a - 0x7_8000) / 0x1000
  {
    hide SectorNumber, Expand;
    ShortTableSectors(SectorRun(15, 0x1000), a);
    ShortTableSectors(SectorRun(15, 0x2000), a);
    LongTableSectors(SectorRun(8, 0x2000), SectorRun(2, 0x1_0000), SectorRun(8, 0x2000), a);
    LongTableSectors(SectorRun(8, 0x1000), SectorRun(14, 0x8000), SectorRun(5, 0x1000), a);
  }
}
