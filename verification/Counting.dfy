/** How many blocks are written back to flash. */
module Counting {
  import opened Words
  import opened Geometry
  import opened Iap
  import opened Cache
  import opened Outcome
  import opened Protocol
  import opened Refinement
  import opened Commands

  function Copies(trace: seq<Event>): nat
  {
    if |trace| == 0 then 0
    else Copies(trace[..|trace| - 1]) + if trace[|trace| - 1].cmd.Copy? then 1 else 0
  }

  function CopyCount(s: State): nat
  {
    Copies(s.dev.trace)
  }

  lemma CopiesOfTwo(trace: seq<Event>, e0: Event, e1: Event)
    ensures Copies(trace + [e0, e1]) ==
            Copies(trace) + (if e0.cmd.Copy? then 1 else 0) + (if e1.cmd.Copy? then 1 else 0)
  {
    assert (trace + [e0, e1])[..|trace| + 1] == trace + [e0];
    assert (trace + [e0])[..|trace|] == trace;
  }

  /** A write-back that nothing fails is one copy when a block of the geometry is cached, and none
      otherwise. */
  lemma WriteBackCopies(c: Config, s: State)
    requires WellFormed(c) && Valid(s) && Clean(c)
    ensures CopyCount(WriteBack(c, s).1) == CopyCount(s) + if Pending(c, s) then 1 else 0
  {
    if Pending(c, s) {
      hide WriteBack;
      WriteBackOutcome(c, s);
      BlockInOneSector(c.sectors, s.current);
      CopiesOfTwo(s.dev.trace, WriteBackEvents(c, s)[0], WriteBackEvents(c, s)[1]);
    } else {
      NothingPending(c, s);
    }
  }

  lemma WriteByteCopies(c: Config, s: State, a: Address, b: Byte)
    requires WellFormed(c) && Valid(s) && Clean(c)
    ensures CopyCount(WriteByte(c, s, a, b)) ==
            CopyCount(s) + if s.current != BlockOf(a) && Pending(c, s) then 1 else 0
  {
    hide WriteBack;
    WriteBackCopies(c, s);
  }

  lemma BlockStep(a: Address)
    requires 0 < a
    ensures a / BLOCK_SIZE - (a - 1) / BLOCK_SIZE == if BlockOf(a) == BlockOf(a - 1) then 0 else 1
  {
  }

  /** Poking the `k` bytes from `a` writes back one block for every block boundary crossed, and one
      more exactly when another block of the geometry was cached before. */
  lemma {:induction false} PokeCopies(c: Config, s: State, a: Address, bytes: seq<Byte>, k: nat)
    requires WellFormed(c) && Valid(s) && Clean(c)
    requires 0 < k <= |bytes| && a + |bytes| <= FlashSize(c)
    ensures CopyCount(WriteBytes(c, s, a, bytes[..k])) ==
            CopyCount(s) + (a + k - 1) / BLOCK_SIZE - a / BLOCK_SIZE
            + if s.current != BlockOf(a) && Pending(c, s) then 1 else 0
    decreases k
  {
    hide WriteByte, WriteBytes, Copies, BlockOf;
    WriteBytesSnoc(c, s, a, bytes, k - 1);
    if k == 1 {
      WriteNothing(c, s, a, bytes[..0]);
      WriteByteCopies(c, s, a, bytes[0]);
    } else {
      PokeCopies(c, s, a, bytes, k - 1);
      var s1 := WriteBytes(c, s, a, bytes[..k - 1]);
      WriteBytesCurrent(c, s, a, bytes[..k - 1]);
      WriteByteCopies(c, s1, a + k - 1, bytes[k - 1]);
      BlockStep(a + k - 1);
    }
  }

  /** Memset writes back exactly as often. */
  lemma MemsetCopies(c: Config, s: State, a: Address, n: Address, v: Byte)
    requires WellFormed(c) && Valid(s) && Clean(c)
    requires 0 < n && a + n <= FlashSize(c)
    ensures CopyCount(FillFragments(c, s, a, n, v)) ==
            CopyCount(s) + (a + n - 1) / BLOCK_SIZE - a / BLOCK_SIZE
            + if s.current != BlockOf(a) && Pending(c, s) then 1 else 0
  {
    hide WriteBytes, FillFragments, Copies, BlockOf;
    FillIsWrite(c, s, a, n, v);
    assert Filled(n, v)[..n] == Filled(n, v);
    PokeCopies(c, s, a, Filled(n, v), n);
  }

  lemma RunTwo(c: Config, s: State, x: Op, y: Op)
    requires Valid(s) && Legal(x) && Legal(y)
    ensures Run(c, s, [x, y]) == Step(c, Step(c, s, x), y)
  {
    hide Step;
    assert [x, y][1..] == [y];
    assert Run(c, Step(c, s, x), [y]) == Step(c, Step(c, s, x), y);
  }

  /** An upload from an empty cache, closed by a flush, programs each block it meets once. */
  lemma UploadCopies(c: Config, s: State, a: Address, bytes: seq<Byte>)
    requires WellFormed(c) && Valid(s) && Clean(c) && s.current == INVALID
    requires 0 < |bytes| && a + |bytes| <= FlashSize(c)
    ensures CopyCount(Run(c, s, [Poke(a, bytes), Flush])) ==
            CopyCount(s) + (a + |bytes| - 1) / BLOCK_SIZE - a / BLOCK_SIZE + 1
  {
    hide WriteBytes, Copies, WriteBack, BlockOf;
    assert bytes[..|bytes|] == bytes;
    PokeCopies(c, s, a, bytes, |bytes|);
    WriteBytesCurrent(c, s, a, bytes);
    var s1 := WriteBytes(c, s, a, bytes);
    WriteBackCopies(c, s1);
    RunTwo(c, s, Poke(a, bytes), Flush);
  }

  // ----- attempts, whatever fails -----

  function Prepares(trace: seq<Event>): nat
  {
    if |trace| == 0 then 0
    else Prepares(trace[..|trace| - 1]) + if trace[|trace| - 1].cmd.Prepare? then 1 else 0
  }

  lemma {:induction false} PreparesOfSum(xs: seq<Event>, ys: seq<Event>)
    ensures Prepares(xs + ys) == Prepares(xs) + Prepares(ys)
    decreases |ys|
  {
    if |ys| == 0 {
      assert xs + ys == xs;
    } else {
      assert (xs + ys)[..|xs + ys| - 1] == xs + ys[..|ys| - 1];
      PreparesOfSum(xs, ys[..|ys| - 1]);
    }
  }

  lemma PreparesOfOne(e: Event)
    ensures Prepares([e]) == if e.cmd.Prepare? then 1 else 0
  {
    assert [e][..0] == [];
  }

  lemma AttemptPrepares(c: Config, s: State)
    requires WellFormed(c) && Valid(s)
    ensures Prepares(Attempt(c, s)) == if Pending(c, s) then 1 else 0
  {
    hide SectorNumber;
    if Pending(c, s) {
      BlockInOneSector(c.sectors, s.current);
      var events := WriteBackEvents(c, s);
      PreparesOfOne(events[0]);
      if |events| == 2 {
        PreparesOfOne(events[1]);
        PreparesOfSum([events[0]], [events[1]]);
        assert events == [events[0]] + [events[1]];
      } else {
        assert events == [events[0]];
      }
    }
  }

  lemma PreparesOfNone()
    ensures Prepares([]) == 0
  {
  }

  lemma BlockBorder(a: Address)
    requires 0 < a
    ensures a / 0x1000 - (a - 1) / 0x1000 == if a % 0x1000 == 0 then 1 else 0
  {
  }

  /** For every schedule of failures: poking [a, a+k) attempts one write-back for every block boundary
      crossed, and one more exactly when another block of the geometry was cached before. */
  lemma {:induction false} PokeAttempts(c: Config, s: State, a: Address, bytes: seq<Byte>, k: nat)
    requires WellFormed(c) && Valid(s)
    requires 0 < k <= |bytes| && a + |bytes| <= FlashSize(c)
    ensures Prepares(WriteBytes(c, s, a, bytes[..k]).dev.trace) ==
            Prepares(s.dev.trace) + (a + k - 1) / 0x1000 - a / 0x1000
            + if s.current != BlockOf(a) && Pending(c, s) then 1 else 0
    decreases k
  {
    hide WriteByte, WriteBytes, Prepares, BlockOf, Attempt;
    var s1 := WriteBytes(c, s, a, bytes[..k - 1]);
    PokeTurn(c, s, a, bytes, k - 1);
    AttemptPrepares(c, s1);
    PreparesOfSum(s1.dev.trace, if ChangesBlock(s, a, k - 1) then Attempt(c, s1) else []);
    PreparesOfNone();
    if k == 1 {
      WriteNothing(c, s, a, bytes[..0]);
    } else {
      PokeAttempts(c, s, a, bytes, k - 1);
      WriteBytesCurrent(c, s, a, bytes[..k - 1]);
      BlockBorder(a + k - 1);
    }
  }
}
