/** What failed commands can and cannot do: poke and memset ignore the result of a write-back. */
module Failures {
  import opened Words
  import opened Geometry
  import opened Iap
  import opened Cache
  import opened Outcome
  import opened Protocol
  import opened Refinement
  import opened Programming

  /** The cached block differs from the flash below it. */
  predicate Dirty(s: State)
    requires Valid(s) && s.current != INVALID && s.current + BLOCK_SIZE <= ADDRESS_SPACE
  {
    exists k :: 0 <= k < BLOCK_SIZE && s.buffer[k] != s.dev.memory[s.current + k]
  }

  /** A failing eviction confines its damage: outside the evicted block, writing a byte still acts as
      on plain memory; inside it, exactly the bytes not yet in flash revert to what flash holds. */
  lemma EvictionDamage(c: Config, s: State, a: Address, b: Byte, x: nat)
    requires WellFormed(c) && Valid(s) && c.mode == Overwrite && x < FlashSize(c)
    ensures ViewAt(WriteByte(c, s, a, b), x) ==
            if EvictionFails(c, s, a) && Cached(s, x) then s.dev.memory[x]
            else RefStep(c, ViewAt(s, x), Poke(a, [b]), x)
  {
    WriteByteView(c, s, a, b, x);
  }

  lemma OtherBlock(c: Config, s: State, a: Address, b: Byte, x: Address)
    requires Valid(s) && Cached(s, x) && s.current != BlockOf(a)
    ensures RefStep(c, ViewAt(s, x), Poke(a, [b]), x) == ViewAt(s, x)
  {
  }

  /** Writing a byte acts as on plain memory exactly when it does not evict a dirty block of the
      geometry with a failing write-back. */
  lemma WriteByteExact(c: Config, s: State, a: Address, b: Byte)
    requires WellFormed(c) && Valid(s) && c.mode == Overwrite
    ensures (forall x :: 0 <= x < FlashSize(c) < ADDRESS_SPACE ==>
               ViewAt(WriteByte(c, s, a, b), x) == RefStep(c, ViewAt(s, x), Poke(a, [b]), x))
            <==> !(EvictionFails(c, s, a) && Dirty(s))
  {
    hide WriteByte, RefStep, Accepted;
    forall x | 0 <= x < FlashSize(c)
      ensures ViewAt(WriteByte(c, s, a, b), x) ==
              if EvictionFails(c, s, a) && Cached(s, x) then s.dev.memory[x]
              else RefStep(c, ViewAt(s, x), Poke(a, [b]), x)
    {
      EvictionDamage(c, s, a, b, x);
    }
    if EvictionFails(c, s, a) {
      BlockInOneSector(c.sectors, s.current);
      forall x | 0 <= x < FlashSize(c) && Cached(s, x)
        ensures RefStep(c, ViewAt(s, x), Poke(a, [b]), x) == ViewAt(s, x)
      {
        OtherBlock(c, s, a, b, x);
      }
      if Dirty(s) {
        var k :| 0 <= k < BLOCK_SIZE && s.buffer[k] != s.dev.memory[s.current + k];
        assert ViewAt(s, s.current + k) == s.buffer[k];
      }
    }
  }

  /** A poke of any length acts on flash and cache as on plain memory exactly when none of its evictions
      damages a byte that the rest of the poke does not overwrite: none fails on a byte not yet in
      flash, and on NOR flash none would have to set bits. */
  lemma PokeExact(c: Config, s: State, a: Address, bytes: seq<Byte>)
    requires WellFormed(c) && Valid(s) && |bytes| < ADDRESS_SPACE
    ensures (forall x :: 0 <= x < FlashSize(c) < ADDRESS_SPACE ==>
               ViewAt(Step(c, s, Poke(a, bytes)), x) == RefStep(c, ViewAt(s, x), Poke(a, bytes), x))
            <==>
            (forall x :: 0 <= x < FlashSize(c) < ADDRESS_SPACE ==> !Loses(c, s, a, bytes, x))
  {
    hide WriteBytes, Loses, ViewAt, RefStep;
    forall x | 0 <= x < FlashSize(c)
      ensures ViewAt(WriteBytes(c, s, a, bytes), x) == RefStep(c, ViewAt(s, x), Poke(a, bytes), x) <==>
              !Loses(c, s, a, bytes, x)
    {
      WriteBytesExact(c, s, a, bytes, x);
    }
  }

  /** The same for memset, whose fragments lose what the poke of as many equal bytes loses. */
  lemma MemsetExact(c: Config, s: State, a: Address, n: Address, v: Byte)
    requires WellFormed(c) && Valid(s)
    ensures (forall x :: 0 <= x < FlashSize(c) < ADDRESS_SPACE ==>
               ViewAt(Step(c, s, Memset(a, n, v)), x) == RefStep(c, ViewAt(s, x), Memset(a, n, v), x))
            <==>
            (forall x :: 0 <= x < FlashSize(c) < ADDRESS_SPACE ==> !Loses(c, s, a, Filled(n, v), x))
  {
    hide WriteBytes, FillFragments, Loses, ViewAt;
    FillIsWrite(c, s, a, n, v);
    forall x | 0 <= x < FlashSize(c)
      ensures ViewAt(FillFragments(c, s, a, n, v), x) == RefStep(c, ViewAt(s, x), Memset(a, n, v), x) <==>
              !Loses(c, s, a, Filled(n, v), x)
    {
      WriteBytesExact(c, s, a, Filled(n, v), x);
    }
  }

  lemma PokeOne(c: Config, s: State, a: Address, b: Byte)
    requires Valid(s)
    ensures Step(c, s, Poke(a, [b])) == WriteByte(c, s, a, b)
  {
    hide WriteByte;
    assert [b][..0 + 1] == [b];
    WriteBytesSnoc(c, s, a, [b], 0);
    WriteNothing(c, s, a, [b][..0]);
  }

  /** The smallest loss: the first command of a run fails, and the byte poked before it is gone although
      both pokes return success. */
  lemma LostPokeExample(c: Config, s: State, b: Byte)
    requires WellFormed(c) && Initial(s) && c.mode == Overwrite && 2 * BLOCK_SIZE <= FlashSize(c)
    requires c.schedule(0) != CMD_SUCCESS && b != s.dev.memory[0]
    ensures ViewAt(Run(c, s, [Poke(0, [b]), Poke(BLOCK_SIZE, [b])]), 0) == s.dev.memory[0]
    ensures RefRunAt(c, s.dev.memory[0], [Poke(0, [b]), Poke(BLOCK_SIZE, [b])], 0) == b
    ensures ViewAt(Run(c, s, [Poke(0, [b]), Poke(BLOCK_SIZE, [b])]), 0) !=
            RefRunAt(c, s.dev.memory[0], [Poke(0, [b]), Poke(BLOCK_SIZE, [b])], 0)
  {
    var ops := [Poke(0, [b]), Poke(BLOCK_SIZE, [b])];
    var s1 := WriteByte(c, s, 0, b);
    assert s1.dev == s.dev && s1.current == 0;
    hide WriteByte;
    PokeOne(c, s, 0, b);
    PokeOne(c, s1, BLOCK_SIZE, b);
    assert ops[1..] == [Poke(BLOCK_SIZE, [b])];
    assert Run(c, s1, ops[1..]) == Step(c, s1, Poke(BLOCK_SIZE, [b]));
    WriteByteView(c, s1, BLOCK_SIZE, b, 0);
    assert RefRunAt(c, b, ops[1..], 0) == b;
  }

  /** A single call can lose its own bytes: a memset of two blocks whose first write-back fails does
      not leave its value in the first block, although nothing was cached when it was called. */
  lemma LostMemsetExample(c: Config, s: State, v: Byte)
    requires WellFormed(c) && Initial(s) && c.mode == Overwrite && 2 * BLOCK_SIZE <= FlashSize(c)
    requires c.schedule(0) != CMD_SUCCESS && v != s.dev.memory[0]
    ensures LosesAt(c, s, 0, Filled(2 * BLOCK_SIZE, v), BLOCK_SIZE, 0)
    ensures ViewAt(Step(c, s, Memset(0, 2 * BLOCK_SIZE, v)), 0) != v
  {
    var n := 2 * BLOCK_SIZE;
    var s1 := FillBuffer(Select(c, s, 0), 0, BLOCK_SIZE, v);
    assert s1.dev == s.dev && s1.current == 0 && s1.buffer[0] == v;
    FillOneFragment(c, s, 0, BLOCK_SIZE, v);
    assert Filled(n, v)[..BLOCK_SIZE] == Filled(BLOCK_SIZE, v);
    hide WriteBytes, FillFragments, WriteByte, Select, FillBuffer;
    assert LosesAt(c, s, 0, Filled(n, v), BLOCK_SIZE, 0);
    FillIsWrite(c, s, 0, n, v);
    WriteBytesExact(c, s, 0, Filled(n, v), 0);
  }

  // ----- flushing again -----

  function Flushes(n: nat): (ops: seq<Op>)
    ensures AllLegal(ops)
  {
    seq(n, _ => Flush)
  }

  /** Either still cached and nothing lost, or committed. */
  predicate Kept(c: Config, s: State, t: State)
    requires WellFormed(c) && Valid(s) && Valid(t)
  {
    if t.current == INVALID then forall x :: 0 <= x < FlashSize(c) ==> t.dev.memory[x] == FlashView(c, s)[x]
    else t.current == s.current && t.buffer == s.buffer && t.dev.memory == s.dev.memory
  }

  lemma FlushKeeps(c: Config, s: State)
    requires WellFormed(c) && Valid(s) && c.mode == Overwrite
    ensures Kept(c, s, Step(c, s, Flush))
    ensures Step(c, s, Flush).current == INVALID <==> !Pending(c, s) || Accepted(c, s)
  {
    hide WriteBack;
    if Pending(c, s) && !Accepted(c, s) {
      WriteBackOutcome(c, s);
    } else {
      WriteBackKeepsSize(c, s);
      forall x | 0 <= x < FlashSize(c) ensures WriteBack(c, s).1.dev.memory[x] == ViewAt(s, x) {
        CommitView(c, s, x);
      }
      if !Pending(c, s) {
        NothingPending(c, s);
      } else {
        WriteBackOutcome(c, s);
      }
    }
  }

  lemma EmptyView(c: Config, s: State)
    requires WellFormed(c) && Valid(s) && s.current == INVALID
    ensures forall x :: 0 <= x < FlashSize(c) ==> FlashView(c, s)[x] == s.dev.memory[x]
  {
  }

  lemma KeptView(c: Config, s: State, t: State)
    requires WellFormed(c) && Valid(s) && Valid(t) && Kept(c, s, t)
    ensures FlashView(c, t) == FlashView(c, s)
  {
    if t.current == INVALID {
      EmptyView(c, t);
    }
  }

  lemma {:induction false} EmptyStaysEmpty(c: Config, s: State, n: nat)
    requires Valid(s) && s.current == INVALID
    ensures Run(c, s, Flushes(n)) == s
    decreases n
  {
    if n > 0 {
      assert Flushes(n)[0] == Flush && Flushes(n)[1..] == Flushes(n - 1);
      EmptyStaysEmpty(c, s, n - 1);
    }
  }

  /** A flush may be repeated: after any number of flushes, failed or not, the block is either still
      cached with nothing changed, or all that flash and cache stood for is in flash. */
  lemma {:induction false} FlushRetry(c: Config, s: State, n: nat)
    requires WellFormed(c) && Valid(s) && c.mode == Overwrite
    ensures Kept(c, s, Run(c, s, Flushes(n)))
    ensures FlashView(c, Run(c, s, Flushes(n))) == FlashView(c, s)
    decreases n
  {
    hide Step, ViewAt;
    if n == 0 {
      if s.current == INVALID {
        EmptyView(c, s);
      }
    } else {
      var s1 := Step(c, s, Flush);
      FlushKeeps(c, s);
      assert Flushes(n)[0] == Flush && Flushes(n)[1..] == Flushes(n - 1);
      FlushRetry(c, s1, n - 1);
      KeptView(c, s, s1);
      if s1.current == INVALID {
        EmptyStaysEmpty(c, s1, n - 1);
      }
    }
  }

  /** Failed commands in between do no harm by themselves: whatever failed, if every operation was
      faithful to byte `x`, a flush that goes through (or has nothing to write) leaves it in flash as
      in the plain memory. */
  lemma IntactThenFlushed(c: Config, s: State, ops: seq<Op>, x: nat)
    requires WellFormed(c) && Valid(s) && AllLegal(ops) && x < FlashSize(c)
    requires Intact(c, s, ops, x)
    requires Pending(c, Run(c, s, ops)) ==> Accepted(c, Run(c, s, ops))
    requires Faithful(c, Run(c, s, ops), Flush, x)
    ensures Step(c, Run(c, s, ops), Flush).dev.memory[x] == RefRunAt(c, ViewAt(s, x), ops, x)
  {
    hide Run, WriteBack, Intact, BitSubset;
    IntactSession(c, s, ops, x);
    WriteBackMemory(c, Run(c, s, ops), x);
  }

  // ----- no invented bytes -----

  /** The bits of `b` that `mask` selects. */
  function Masked(b: Byte, mask: Byte): Byte
  {
    b & mask
  }

  predicate OneBit(mask: Byte)
  {
    mask == 1 || mask == 2 || mask == 4 || mask == 8 || mask == 16 || mask == 32 || mask == 64 || mask == 128
  }

  /** What flash of the given kind keeps together: any group of bits when bytes are overwritten, single
      bits when programming only clears bits. */
  predicate KeptTogether(mode: Mode, mask: Byte)
  {
    mode == Overwrite || OneBit(mask)
  }

  lemma AndMasked(f: Byte, b: Byte, mask: Byte)
    requires OneBit(mask)
    ensures (f & b) & mask == f & mask || (f & b) & mask == b & mask
  {
  }

  lemma ProgramMasked(mode: Mode, f: Byte, b: Byte, mask: Byte)
    requires KeptTogether(mode, mask)
    ensures Masked(Program(mode, f, b), mask) in {Masked(f, mask), Masked(b, mask)}
  {
    if mode == ClearBits {
      AndMasked(f, b, mask);
    }
  }

  /** The two places that hold byte `x` hold, within `mask`, one of the two values they held, or `w`. */
  predicate Among(s: State, t: State, x: Address, w: Byte, mask: Byte)
    requires Valid(s) && Valid(t)
  {
    var before := {Masked(s.dev.memory[x], mask), Masked(ViewAt(s, x), mask), Masked(w, mask)};
    Masked(t.dev.memory[x], mask) in before && Masked(ViewAt(t, x), mask) in before
  }

  lemma AmongRefl(s: State, x: Address, w: Byte, mask: Byte)
    requires Valid(s)
    ensures Among(s, s, x, w, mask)
  {
  }

  lemma AmongTrans(s: State, t: State, u: State, x: Address, w: Byte, mask: Byte)
    requires Valid(s) && Valid(t) && Valid(u)
    requires Among(s, t, x, w, mask) && Among(t, u, x, w, mask)
    ensures Among(s, u, x, w, mask)
  {
    hide Valid, ViewAt, Masked;
  }

  lemma WriteBackAmong(c: Config, s: State, x: nat, w: Byte, mask: Byte)
    requires WellFormed(c) && Valid(s) && KeptTogether(c.mode, mask) && x < FlashSize(c)
    ensures Valid(WriteBack(c, s).1) && Among(s, WriteBack(c, s).1, x, w, mask)
  {
    hide WriteBack, Masked, KeptTogether;
    WriteBackKeepsSize(c, s);
    if Pending(c, s) {
      WriteBackOutcome(c, s);
      ProgramMasked(c.mode, s.dev.memory[x], ViewAt(s, x), mask);
    } else {
      NothingPending(c, s);
    }
  }

  lemma WriteByteAmong(c: Config, s: State, a: Address, b: Byte, x: nat, w: Byte, mask: Byte)
    requires WellFormed(c) && Valid(s) && KeptTogether(c.mode, mask) && x < FlashSize(c)
    requires x == a ==> b == w
    ensures Among(s, WriteByte(c, s, a, b), x, w, mask)
  {
    hide WriteBack, Masked, KeptTogether;
    WriteBackAmong(c, s, x, w, mask);
  }

  lemma {:induction false} WriteBytesAmong(c: Config, s: State, a: Address, bytes: seq<Byte>, k: nat,
                                           x: nat, w: Byte, mask: Byte)
    requires WellFormed(c) && Valid(s) && KeptTogether(c.mode, mask) && x < FlashSize(c)
    requires k <= |bytes| < ADDRESS_SPACE
    requires Offset(a, x) < |bytes| ==> w == bytes[Offset(a, x)]
    ensures Among(s, WriteBytes(c, s, a, bytes[..k]), x, w, mask)
  {
    hide WriteByte, WriteBytes, Among, KeptTogether, Valid;
    if k == 0 {
      WriteNothing(c, s, a, bytes[..0]);
      AmongRefl(s, x, w, mask);
    } else {
      var s1 := WriteBytes(c, s, a, bytes[..k - 1]);
      WriteBytesAmong(c, s, a, bytes, k - 1, x, w, mask);
      WriteBytesSnoc(c, s, a, bytes, k - 1);
      AdvanceOffset(a, x, k - 1);
      WriteByteAmong(c, s1, Advance(a, k - 1), bytes[k - 1], x, w, mask);
      AmongTrans(s, s1, WriteBytes(c, s, a, bytes[..k]), x, w, mask);
    }
  }

  lemma EraseAmong(c: Config, s: State, first: nat, last: nat, x: nat, mask: Byte)
    requires WellFormed(c) && Valid(s) && x < FlashSize(c)
    ensures Among(s, EraseSectors(c, s, first, last), x,
                  if first <= SectorNumber(c.sectors, x) <= last then ERASED else ViewAt(s, x), mask)
  {
    hide EraseSectors, SectorNumber, Masked;
    EraseOutcome(c, s, first, last);
    if EraseAnswered(c, s, first, last) {
      ErasedBySector(c.sectors, first, last, x);
    }
  }

  lemma StepAmong(c: Config, s: State, op: Op, x: nat, mask: Byte)
    requires WellFormed(c) && Valid(s) && Legal(op) && KeptTogether(c.mode, mask) && x < FlashSize(c)
    ensures Among(s, Step(c, s, op), x, RefStep(c, ViewAt(s, x), op, x), mask)
  {
    hide WriteByte, WriteBytes, FillFragments, EraseSectors, WriteBack, SectorNumber, Masked, KeptTogether;
    var w := RefStep(c, ViewAt(s, x), op, x);
    match op
    case Poke(a, bytes) =>
      assert bytes[..|bytes|] == bytes;
      WriteBytesAmong(c, s, a, bytes, |bytes|, x, w, mask);
    case Memset(a, n, v) =>
      FillIsWrite(c, s, a, n, v);
      assert Filled(n, v)[..n] == Filled(n, v);
      WriteBytesAmong(c, s, a, Filled(n, v), n, x, w, mask);
    case EraseOp(a, n) =>
      var first, last := SectorNumber(c.sectors, a), SectorNumber(c.sectors, LastAddress(a, n));
      if 0 <= first && 0 <= last {
        EraseAmong(c, s, first, last, x, mask);
      }
    case EraseAllOp =>
      EraseAmong(c, s, 0, (|c.sectors| - 1) % ADDRESS_SPACE, x, mask);
    case Flush =>
      WriteBackAmong(c, s, x, w, mask);
  }

  /** Within `mask`, `b` is a value byte `x` had before the session, or was given by one of its operations. */
  predicate Origin(c: Config, s: State, ops: seq<Op>, x: Address, b: Byte, mask: Byte)
    requires Valid(s)
  {
    || b == Masked(s.dev.memory[x], mask)
    || b == Masked(ViewAt(s, x), mask)
    || (b == Masked(ERASED, mask) && ErasedBy(c, ops, x))
    || (exists i :: 0 <= i < |ops| && Covers(ops[i], x) && b == Masked(Payload(ops[i], x), mask))
  }

  lemma OriginStep(c: Config, s: State, s1: State, ops: seq<Op>, x: Address, b: Byte, mask: Byte)
    requires Valid(s) && Valid(s1) && |ops| > 0
    requires Among(s, s1, x, RefStep(c, ViewAt(s, x), ops[0], x), mask)
    requires Origin(c, s1, ops[1..], x, b, mask)
    ensures Origin(c, s, ops, x, b, mask)
  {
    hide Clears, Covers, ViewAt, Valid, Masked;
    var rest := ops[1..];
    assert forall i :: 0 <= i < |rest| ==> rest[i] == ops[i + 1];
    if i :| 0 <= i < |rest| && Clears(c, rest[i], x) {
      assert Clears(c, ops[i + 1], x);
    }
    if i :| 0 <= i < |rest| && Covers(rest[i], x) && b == Masked(Payload(rest[i], x), mask) {
      assert Covers(ops[i + 1], x);
    }
  }

  /** For every session and every schedule of failures, neither flash nor cache ever holds a bit at `x`
      that byte `x` did not have before and that no operation of the session put there. When bytes are
      overwritten, this holds of all bits of the byte together. */
  lemma {:induction false} NoInventedBits(c: Config, s: State, ops: seq<Op>, x: nat, mask: Byte)
    requires WellFormed(c) && Valid(s) && AllLegal(ops) && KeptTogether(c.mode, mask) && x < FlashSize(c)
    ensures Origin(c, s, ops, x, Masked(Run(c, s, ops).dev.memory[x], mask), mask)
    ensures Origin(c, s, ops, x, Masked(ViewAt(Run(c, s, ops), x), mask), mask)
    decreases |ops|
  {
    hide Step, Clears, Covers, ViewAt, Masked, KeptTogether, Among;
    if |ops| > 0 {
      var s1, rest := Step(c, s, ops[0]), ops[1..];
      StepAmong(c, s, ops[0], x, mask);
      NoInventedBits(c, s1, rest, x, mask);
      OriginStep(c, s, s1, ops, x, Masked(Run(c, s, ops).dev.memory[x], mask), mask);
      OriginStep(c, s, s1, ops, x, Masked(ViewAt(Run(c, s, ops), x), mask), mask);
    }
  }

  lemma AllBits(b: Byte)
    ensures Masked(b, 0xFF) == b
  {
  }

  /** Overwritten flash and its cache only ever hold bytes that were there before or were put there. */
  lemma NoInventedBytes(c: Config, s: State, ops: seq<Op>, x: nat)
    requires WellFormed(c) && Valid(s) && AllLegal(ops) && c.mode == Overwrite && x < FlashSize(c)
    ensures Origin(c, s, ops, x, Run(c, s, ops).dev.memory[x], 0xFF)
    ensures Origin(c, s, ops, x, ViewAt(Run(c, s, ops), x), 0xFF)
  {
    hide Origin, Masked, Run, ViewAt;
    NoInventedBits(c, s, ops, x, 0xFF);
    AllBits(Run(c, s, ops).dev.memory[x]);
    AllBits(ViewAt(Run(c, s, ops), x));
  }
}
