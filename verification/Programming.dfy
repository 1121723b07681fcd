/** The loader's purpose: erase some ranges, write disjoint data into them, flush. */
module Programming {
  import opened Words
  import opened Geometry
  import opened Iap
  import opened Cache
  import opened Outcome
  import opened Protocol
  import opened Refinement
  import opened Nor
  import opened Erasing

  predicate OnlyErases(ops: seq<Op>)
  {
    forall i :: 0 <= i < |ops| ==> ops[i].EraseOp? || ops[i].EraseAllOp?
  }

  /** Pokes and memsets, with flushes in between. */
  predicate OnlyWrites(ops: seq<Op>)
  {
    forall i :: 0 <= i < |ops| ==> ops[i].Poke? || ops[i].Memset? || ops[i].Flush?
  }

  predicate CoveredBy(ops: seq<Op>, x: Address)
  {
    exists i :: 0 <= i < |ops| && Covers(ops[i], x)
  }

  predicate ErasedBy(c: Config, ops: seq<Op>, x: Address)
  {
    exists i :: 0 <= i < |ops| && Clears(c, ops[i], x)
  }

  /** No byte is written twice. */
  predicate DisjointAt(ops: seq<Op>, x: Address)
  {
    forall i, j :: 0 <= i < j < |ops| && Covers(ops[i], x) ==> !Covers(ops[j], x)
  }

  /** The byte that a programming session should leave at `x`. */
  predicate ProgrammedAs(c: Config, erases: seq<Op>, writes: seq<Op>, x: Address, before: Byte, after: Byte)
  {
    && (forall i :: 0 <= i < |writes| && Covers(writes[i], x) ==> after == Payload(writes[i], x))
    && (!CoveredBy(writes, x) ==> after == if ErasedBy(c, erases, x) then ERASED else before)
  }

  // ----- NOR flash between erases -----

  /** Between erases, NOR flash only loses bits, whatever fails. */
  lemma NorWriteByteMonotone(c: Config, s: State, a: Address, b: Byte, x: nat)
    requires WellFormed(c) && Valid(s) && c.mode == ClearBits && x < ADDRESS_SPACE
    ensures BitSubset(WriteBack(c, s).1.dev.memory[x], s.dev.memory[x])
    ensures BitSubset(WriteByte(c, s, a, b).dev.memory[x], s.dev.memory[x])
  {
    hide WriteBack, BitSubset;
    BitFacts(s.dev.memory[x]);
    if Pending(c, s) {
      WriteBackOutcome(c, s);
      if s.current <= x < s.current + BLOCK_SIZE {
        AndSubset(s.dev.memory[x], s.buffer[x - s.current]);
      }
    } else {
      NothingPending(c, s);
    }
  }

  lemma {:induction false} NorWriteBytesMonotone(c: Config, s: State, a: Address, bytes: seq<Byte>, k: nat, x: nat)
    requires WellFormed(c) && Valid(s) && c.mode == ClearBits && x < ADDRESS_SPACE
    requires k <= |bytes| < ADDRESS_SPACE
    ensures BitSubset(WriteBytes(c, s, a, bytes[..k]).dev.memory[x], s.dev.memory[x])
  {
    hide WriteByte, WriteBytes, BitSubset;
    if k == 0 {
      WriteNothing(c, s, a, bytes[..0]);
      BitFacts(s.dev.memory[x]);
    } else {
      NorWriteBytesMonotone(c, s, a, bytes, k - 1, x);
      WriteBytesSnoc(c, s, a, bytes, k - 1);
      var s1 := WriteBytes(c, s, a, bytes[..k - 1]);
      var t := WriteByte(c, s1, Advance(a, k - 1), bytes[k - 1]);
      NorWriteByteMonotone(c, s1, Advance(a, k - 1), bytes[k - 1], x);
      SubsetTrans(t.dev.memory[x], s1.dev.memory[x], s.dev.memory[x]);
    }
  }

  lemma EraseMisses(c: Config, s: State, op: Op, x: nat)
    requires WellFormed(c) && Valid(s) && op.EraseOp? && x < FlashSize(c) && !Clears(c, op, x)
    ensures Step(c, s, op).dev.memory[x] == s.dev.memory[x]
  {
    hide EraseSectors, SectorNumber;
    var first := SectorNumber(c.sectors, op.address);
    var last := SectorNumber(c.sectors, LastAddress(op.address, op.length));
    if 0 <= first && 0 <= last {
      EraseOutcome(c, s, first, last);
      if EraseAnswered(c, s, first, last) {
        ErasedBySector(c.sectors, first, last, x);
      }
    }
  }

  lemma NorStepMonotone(c: Config, s: State, op: Op, x: nat)
    requires WellFormed(c) && Valid(s) && Legal(op) && c.mode == ClearBits && x < ADDRESS_SPACE
    requires !Clears(c, op, x) || FlashSize(c) <= x
    ensures BitSubset(Step(c, s, op).dev.memory[x], s.dev.memory[x])
  {
    hide WriteByte, WriteBytes, FillFragments, EraseSectors, WriteBack, BitSubset, SectorNumber;
    BitFacts(s.dev.memory[x]);
    match op
    case Poke(a, bytes) =>
      assert bytes[..|bytes|] == bytes;
      NorWriteBytesMonotone(c, s, a, bytes, |bytes|, x);
    case Memset(a, n, v) =>
      FillIsWrite(c, s, a, n, v);
      assert Filled(n, v)[..n] == Filled(n, v);
      NorWriteBytesMonotone(c, s, a, Filled(n, v), n, x);
    case Flush =>
      NorWriteByteMonotone(c, s, 0, 0, x);
    case _ =>
      if FlashSize(c) <= x {
        StepEvolves(c, s, op);
      } else {
        EraseMisses(c, s, op, x);
      }
  }

  /** NOR flash never regains a bit without an erase: for every session and every schedule of
      failures, a byte that no operation erases ends with a subset of its bits. */
  lemma {:induction false} NorBitsOnlyClear(c: Config, s: State, ops: seq<Op>, x: nat)
    requires WellFormed(c) && Valid(s) && AllLegal(ops) && c.mode == ClearBits && x < ADDRESS_SPACE
    requires FlashSize(c) <= x || !ErasedBy(c, ops, x)
    ensures BitSubset(Run(c, s, ops).dev.memory[x], s.dev.memory[x])
    decreases |ops|
  {
    hide Step, Clears, BitSubset;
    if |ops| == 0 {
      BitFacts(s.dev.memory[x]);
    } else {
      var s1 := Step(c, s, ops[0]);
      assert !ErasedBy(c, ops, x) ==> !ErasedBy(c, ops[1..], x) by {
        assert forall i :: 0 <= i < |ops| - 1 ==> ops[1..][i] == ops[i + 1];
      }
      NorStepMonotone(c, s, ops[0], x);
      NorBitsOnlyClear(c, s1, ops[1..], x);
      SubsetTrans(Run(c, s, ops).dev.memory[x], s1.dev.memory[x], s.dev.memory[x]);
    }
  }

  // ----- exactly when a programming session comes out right -----

  /** The byte at `x` after the erases. */
  function Prepared(c: Config, erases: seq<Op>, x: Address, before: Byte): Byte
  {
    if ErasedBy(c, erases, x) then ERASED else before
  }

  /** The write covering `x`, if there is one, only clears bits of what the erases leave. */
  predicate FindsRoom(c: Config, erases: seq<Op>, writes: seq<Op>, x: Address, before: Byte)
  {
    forall i :: 0 <= i < |writes| && Covers(writes[i], x) ==>
      BitSubset(Payload(writes[i], x), Prepared(c, erases, x, before))
  }

  /** The flash byte at `x` after the erases alone. */
  lemma {:induction false} ErasedMemory(c: Config, s: State, erases: seq<Op>, x: nat)
    requires WellFormed(c) && Valid(s) && s.current == INVALID && Clean(c)
    requires AllLegal(erases) && OnlyErases(erases) && x < FlashSize(c)
    ensures Run(c, s, erases).dev.memory[x] == Prepared(c, erases, x, s.dev.memory[x])
    ensures Run(c, s, erases).current == INVALID
    decreases |erases|
  {
    hide Step, Clears;
    if |erases| > 0 {
      var s1, rest := Step(c, s, erases[0]), erases[1..];
      AcceptedErase(c, s, erases[0], x);
      ErasedMemory(c, s1, rest, x);
      assert ErasedBy(c, erases, x) <==> Clears(c, erases[0], x) || ErasedBy(c, rest, x) by {
        assert forall i :: 0 <= i < |rest| ==> rest[i] == erases[i + 1];
        if i :| 0 <= i < |rest| && Clears(c, rest[i], x) {
          assert Clears(c, erases[i + 1], x);
        }
      }
    }
  }

  // ----- one byte through the writes, when nothing fails -----

  /** Byte `x` is `v`, in flash and through the cache. */
  predicate Settled(s: State, x: Address, v: Byte)
    requires Valid(s)
  {
    ViewAt(s, x) == v && s.dev.memory[x] == v
  }

  /** What becomes of flash byte `v` when `p` is written to it. */
  function Landed(mode: Mode, v: Byte, p: Byte): Byte
  {
    if mode == Overwrite then p else v & p
  }

  /** `p` was written over flash byte `v` at `x`: it is still in the cache, or it has landed. */
  predicate Holding(c: Config, s: State, x: Address, v: Byte, p: Byte)
    requires Valid(s)
  {
    || (Cached(s, x) && ViewAt(s, x) == p && s.dev.memory[x] == v)
    || Settled(s, x, Landed(c.mode, v, p))
  }

  lemma ProgramLands(mode: Mode, v: Byte, p: Byte)
    ensures Program(mode, v, p) == Landed(mode, v, p)
  {
  }

  lemma CommitLands(c: Config, s: State, x: nat, v: Byte, p: Byte)
    requires WellFormed(c) && Valid(s) && Clean(c) && x < FlashSize(c)
    ensures |WriteBack(c, s).1.dev.memory| == ADDRESS_SPACE
    ensures Settled(s, x, v) ==> WriteBack(c, s).1.dev.memory[x] == v
    ensures Holding(c, s, x, v, p) ==> WriteBack(c, s).1.dev.memory[x] == Landed(c.mode, v, p)
  {
    hide WriteBack, Short, Dropped, Program, Landed;
    WriteBackMemory(c, s, x);
    ProgramLands(c.mode, v, p);
  }

  lemma OtherByteHolds(c: Config, s: State, a: Address, b: Byte, x: nat, v: Byte, p: Byte)
    requires WellFormed(c) && Valid(s) && Clean(c) && x < FlashSize(c) && x != a
    ensures Settled(s, x, v) ==> Settled(WriteByte(c, s, a, b), x, v)
    ensures Holding(c, s, x, v, p) ==> Holding(c, WriteByte(c, s, a, b), x, v, p)
  {
    hide WriteBack, Landed;
    CommitLands(c, s, x, v, p);
  }

  lemma WrittenByteHolds(c: Config, s: State, a: nat, b: Byte, v: Byte)
    requires WellFormed(c) && Valid(s) && Clean(c) && a < FlashSize(c) && Settled(s, a, v)
    ensures Holding(c, WriteByte(c, s, a, b), a, v, b)
  {
    hide WriteBack, Landed;
    CommitLands(c, s, a, v, b);
  }

  lemma {:induction false} BytesHold(c: Config, s: State, a: Address, bytes: seq<Byte>, k: nat,
                                     x: nat, v: Byte, p: Byte)
    requires WellFormed(c) && Valid(s) && Clean(c) && x < FlashSize(c) && k <= |bytes| < ADDRESS_SPACE
    ensures var t := WriteBytes(c, s, a, bytes[..k]);
            && (Settled(s, x, v) ==>
                  if Offset(a, x) < k then Holding(c, t, x, v, bytes[Offset(a, x)]) else Settled(t, x, v))
            && (Holding(c, s, x, v, p) && |bytes| <= Offset(a, x) ==> Holding(c, t, x, v, p))
    decreases k
  {
    hide WriteByte, WriteBytes, Settled, Holding, Valid;
    if k == 0 {
      WriteNothing(c, s, a, bytes[..0]);
    } else {
      var s1, at, b := WriteBytes(c, s, a, bytes[..k - 1]), Advance(a, k - 1), bytes[k - 1];
      BytesHold(c, s, a, bytes, k - 1, x, v, p);
      WriteBytesSnoc(c, s, a, bytes, k - 1);
      AdvanceOffset(a, x, k - 1);
      if x == at {
        if Settled(s1, x, v) {
          WrittenByteHolds(c, s1, x, b, v);
        }
      } else {
        OtherByteHolds(c, s1, at, b, x, v, if Offset(a, x) < k then bytes[Offset(a, x)] else p);
      }
    }
  }

  lemma FlushHolds(c: Config, s: State, x: nat, v: Byte, p: Byte)
    requires WellFormed(c) && Valid(s) && Clean(c) && x < FlashSize(c)
    ensures Settled(s, x, v) ==> Settled(Step(c, s, Flush), x, v)
    ensures Holding(c, s, x, v, p) ==> Settled(Step(c, s, Flush), x, Landed(c.mode, v, p))
    ensures Holding(c, s, x, v, p) ==> Holding(c, Step(c, s, Flush), x, v, p)
  {
    hide WriteBack, Landed;
    CurrentAfter(c, s, Flush);
    CommitLands(c, s, x, v, p);
  }

  lemma StepHolds(c: Config, s: State, op: Op, x: nat, v: Byte, p: Byte)
    requires WellFormed(c) && Valid(s) && Clean(c) && x < FlashSize(c) && Legal(op)
    requires op.Poke? || op.Memset? || op.Flush?
    ensures Settled(s, x, v) ==>
              if Covers(op, x) then Holding(c, Step(c, s, op), x, v, Payload(op, x))
              else Settled(Step(c, s, op), x, v)
    ensures Holding(c, s, x, v, p) && !Covers(op, x) ==> Holding(c, Step(c, s, op), x, v, p)
  {
    hide WriteByte, WriteBytes, FillFragments, WriteBack, Settled, Holding, Landed;
    match op
    case Poke(a, bytes) =>
      assert bytes[..|bytes|] == bytes;
      BytesHold(c, s, a, bytes, |bytes|, x, v, p);
    case Memset(a, n, b) =>
      FillIsWrite(c, s, a, n, b);
      assert Filled(n, b)[..n] == Filled(n, b);
      BytesHold(c, s, a, Filled(n, b), n, x, v, p);
    case Flush =>
      FlushHolds(c, s, x, v, p);
  }

  lemma {:induction false} UncoveredHolds(c: Config, s: State, ops: seq<Op>, x: nat, v: Byte, p: Byte)
    requires WellFormed(c) && Valid(s) && Clean(c) && x < FlashSize(c) && AllLegal(ops)
    requires OnlyWrites(ops) && !CoveredBy(ops, x)
    ensures Settled(s, x, v) ==> Settled(Run(c, s, ops), x, v)
    ensures Holding(c, s, x, v, p) ==> Holding(c, Run(c, s, ops), x, v, p)
    decreases |ops|
  {
    hide Covers, Step, Settled, Holding;
    if |ops| > 0 {
      assert !Covers(ops[0], x);
      assert forall i :: 0 <= i < |ops| - 1 ==> ops[1..][i] == ops[i + 1];
      StepHolds(c, s, ops[0], x, v, p);
      UncoveredHolds(c, Step(c, s, ops[0]), ops[1..], x, v, p);
    }
  }

  lemma {:induction false} CoveredHolds(c: Config, s: State, ops: seq<Op>, x: nat, v: Byte, i: nat)
    requires WellFormed(c) && Valid(s) && Clean(c) && x < FlashSize(c) && AllLegal(ops)
    requires OnlyWrites(ops) && DisjointAt(ops, x) && i < |ops| && Covers(ops[i], x) && Settled(s, x, v)
    ensures Holding(c, Run(c, s, ops), x, v, Payload(ops[i], x))
    decreases |ops|
  {
    hide Covers, Step, Settled, Holding;
    var rest := ops[1..];
    assert forall j :: 0 <= j < |rest| ==> rest[j] == ops[j + 1];
    StepHolds(c, s, ops[0], x, v, 0);
    if i == 0 {
      assert !CoveredBy(rest, x);
      UncoveredHolds(c, Step(c, s, ops[0]), rest, x, v, Payload(ops[0], x));
    } else {
      assert !Covers(ops[0], x);
      CoveredHolds(c, Step(c, s, ops[0]), rest, x, v, i - 1);
    }
  }

  lemma EmptySettled(s: State, x: Address, v: Byte)
    requires Valid(s) && s.current == INVALID && s.dev.memory[x] == v
    ensures Settled(s, x, v)
  {
  }

  lemma RunOne(c: Config, s: State, op: Op)
    requires Valid(s) && Legal(op)
    ensures Run(c, s, [op]) == Step(c, s, op)
  {
    hide Step;
    assert [op][1..] == [];
  }

  lemma FlushLegal()
    ensures AllLegal([Flush])
  {
  }

  lemma FlushedMemory(c: Config, s: State, x: nat, v: Byte, p: Byte)
    requires WellFormed(c) && Valid(s) && Clean(c) && x < FlashSize(c)
    ensures Settled(s, x, v) ==> Step(c, s, Flush).dev.memory[x] == v
    ensures Holding(c, s, x, v, p) ==> Step(c, s, Flush).dev.memory[x] == Landed(c.mode, v, p)
  {
    hide Step, Holding, Landed;
    FlushHolds(c, s, x, v, p);
  }

  lemma WritesOutcome(c: Config, s: State, writes: seq<Op>, x: nat, v: Byte)
    requires WellFormed(c) && Valid(s) && Clean(c) && x < FlashSize(c) && Settled(s, x, v)
    requires AllLegal(writes) && OnlyWrites(writes) && DisjointAt(writes, x)
    ensures var end := Step(c, Run(c, s, writes), Flush).dev.memory[x];
            && (forall i :: 0 <= i < |writes| && Covers(writes[i], x) ==>
                  end == if c.mode == Overwrite then Payload(writes[i], x) else v & Payload(writes[i], x))
            && (!CoveredBy(writes, x) ==> end == v)
  {
    hide Run, Step, Covers, Holding, Settled, OnlyWrites, DisjointAt;
    var t := Run(c, s, writes);
    forall i | 0 <= i < |writes| && Covers(writes[i], x)
      ensures Step(c, t, Flush).dev.memory[x] == Landed(c.mode, v, Payload(writes[i], x))
    {
      CoveredHolds(c, s, writes, x, v, i);
      FlushedMemory(c, t, x, v, Payload(writes[i], x));
    }
    if !CoveredBy(writes, x) {
      UncoveredHolds(c, s, writes, x, v, 0);
      FlushedMemory(c, t, x, v, 0);
    }
  }

  /** Erases, then pokes, memsets and flushes in any order that write byte `x` at most once, then a flush,
      without failures: the byte ends as the one write covering it says, on NOR flash with only those
      of its bits that were set after the erases; a byte not written ends as the erases left it. */
  lemma ProgrammingOutcome(c: Config, s: State, erases: seq<Op>, writes: seq<Op>, x: nat)
    requires WellFormed(c) && Initial(s) && Clean(c) && x < FlashSize(c)
    requires AllLegal(erases) && AllLegal(writes) && OnlyErases(erases) && OnlyWrites(writes)
    requires DisjointAt(writes, x)
    ensures AllLegal(erases + writes + [Flush])
    ensures var v := if ErasedBy(c, erases, x) then 0xFF else s.dev.memory[x];
            var end := Run(c, s, erases + writes + [Flush]).dev.memory[x];
            && (forall i :: 0 <= i < |writes| && Covers(writes[i], x) ==>
                  end == if c.mode == Overwrite then Payload(writes[i], x) else v & Payload(writes[i], x))
            && (!CoveredBy(writes, x) ==> end == v)
  {
    hide Run, Step, Covers, Clears, OnlyWrites, DisjointAt, Settled, AllLegal, CoveredBy, ErasedBy;
    FlushLegal();
    var v, s1 := Prepared(c, erases, x, s.dev.memory[x]), Run(c, s, erases);
    ErasedMemory(c, s, erases, x);
    EmptySettled(s1, x, v);
    RunSplit(c, s, erases, writes);
    RunSplit(c, s, erases + writes, [Flush]);
    RunOne(c, Run(c, s1, writes), Flush);
    WritesOutcome(c, s1, writes, x, v);
  }

  lemma LandsWhole(mode: Mode, v: Byte, p: Byte)
    ensures Landed(mode, v, p) == p <==> (mode == ClearBits ==> BitSubset(p, v))
  {
  }

  lemma RoomDecides(c: Config, erases: seq<Op>, writes: seq<Op>, x: Address, before: Byte, after: Byte)
    requires forall i :: 0 <= i < |writes| && Covers(writes[i], x) ==>
               after == Landed(c.mode, Prepared(c, erases, x, before), Payload(writes[i], x))
    requires !CoveredBy(writes, x) ==> after == Prepared(c, erases, x, before)
    ensures ProgrammedAs(c, erases, writes, x, before, after) <==>
            (c.mode == ClearBits ==> FindsRoom(c, erases, writes, x, before))
  {
    hide CoveredBy, ErasedBy, Covers, Landed, BitSubset, Payload;
    var v := Prepared(c, erases, x, before);
    forall i | 0 <= i < |writes| && Covers(writes[i], x)
      ensures after == Payload(writes[i], x) <==> (c.mode == ClearBits ==> BitSubset(Payload(writes[i], x), v))
    {
      LandsWhole(c.mode, v, Payload(writes[i], x));
    }
  }

  /** Byte by byte: the write covering `x` arrives exactly when on NOR flash it only clears bits of what
      the erases leave there, whatever is written elsewhere. */
  lemma ProgrammingExactAt(c: Config, s: State, erases: seq<Op>, writes: seq<Op>, x: nat)
    requires WellFormed(c) && Initial(s) && Clean(c) && x < FlashSize(c)
    requires AllLegal(erases) && AllLegal(writes) && OnlyErases(erases) && OnlyWrites(writes)
    requires DisjointAt(writes, x)
    ensures AllLegal(erases + writes + [Flush])
    ensures ProgrammedAs(c, erases, writes, x, s.dev.memory[x],
                         Run(c, s, erases + writes + [Flush]).dev.memory[x])
            <==>
            (c.mode == ClearBits ==> FindsRoom(c, erases, writes, x, s.dev.memory[x]))
  {
    hide DisjointAt, CoveredBy, ErasedBy, Covers, Run, OnlyWrites, OnlyErases, AllLegal, ProgrammedAs, FindsRoom;
    ProgrammingOutcome(c, s, erases, writes, x);
    RoomDecides(c, erases, writes, x, s.dev.memory[x], Run(c, s, erases + writes + [Flush]).dev.memory[x]);
  }

  /** Erase, then write data that does not overlap, then flush, without failures and however the writes
      alternate between blocks: every flash byte ends as the write covering it says, as 0xFF if it was
      only erased, and as it was before otherwise, exactly when on NOR flash every write only clears
      bits of what the erases leave. */
  lemma ProgrammingExact(c: Config, s: State, erases: seq<Op>, writes: seq<Op>)
    requires WellFormed(c) && Initial(s) && Clean(c)
    requires AllLegal(erases) && AllLegal(writes) && OnlyErases(erases) && OnlyWrites(writes)
    requires forall x :: 0 <= x < FlashSize(c) < ADDRESS_SPACE ==> DisjointAt(writes, x)
    ensures AllLegal(erases + writes + [Flush])
    ensures (forall x :: 0 <= x < FlashSize(c) < ADDRESS_SPACE ==>
               ProgrammedAs(c, erases, writes, x, s.dev.memory[x],
                            Run(c, s, erases + writes + [Flush]).dev.memory[x]))
            <==>
            (c.mode == ClearBits ==>
               forall x :: 0 <= x < FlashSize(c) < ADDRESS_SPACE ==>
                 FindsRoom(c, erases, writes, x, s.dev.memory[x]))
  {
    hide DisjointAt, ProgrammedAs, FindsRoom, Run;
    var end := Run(c, s, erases + writes + [Flush]).dev.memory;
    forall x | 0 <= x < FlashSize(c)
      ensures ProgrammedAs(c, erases, writes, x, s.dev.memory[x], end[x]) <==>
              (c.mode == ClearBits ==> FindsRoom(c, erases, writes, x, s.dev.memory[x]))
    {
      ProgrammingExactAt(c, s, erases, writes, x);
    }
  }

  /** The loader's promise: disjoint data written into erased sectors arrives, on flash of either kind. */
  lemma ProgrammingSession(c: Config, s: State, erases: seq<Op>, writes: seq<Op>)
    requires WellFormed(c) && Initial(s) && Clean(c)
    requires AllLegal(erases) && AllLegal(writes) && OnlyErases(erases) && OnlyWrites(writes)
    requires forall x :: 0 <= x < FlashSize(c) < ADDRESS_SPACE ==> DisjointAt(writes, x)
    requires forall x :: 0 <= x < FlashSize(c) < ADDRESS_SPACE && CoveredBy(writes, x) ==> ErasedBy(c, erases, x)
    ensures AllLegal(erases + writes + [Flush])
    ensures forall x :: 0 <= x < FlashSize(c) < ADDRESS_SPACE ==>
              ProgrammedAs(c, erases, writes, x, s.dev.memory[x],
                           Run(c, s, erases + writes + [Flush]).dev.memory[x])
  {
    hide DisjointAt, ErasedBy, Covers, BitSubset, ProgrammedAs, Step;
    forall x | 0 <= x < FlashSize(c) ensures FindsRoom(c, erases, writes, x, s.dev.memory[x]) {
      forall i | 0 <= i < |writes| && Covers(writes[i], x)
        ensures BitSubset(Payload(writes[i], x), Prepared(c, erases, x, s.dev.memory[x]))
      {
        assert CoveredBy(writes, x);
        BitFacts(Payload(writes[i], x));
      }
    }
    ProgrammingExact(c, s, erases, writes);
  }

  lemma OneWrite(c: Config, op: Op, x: Address, before: Byte, after: Byte)
    requires op.Poke? || op.Memset?
    ensures ProgrammedAs(c, [], [op], x, before, after) <==> after == RefRunAt(c, before, [op], x)
    ensures FindsRoom(c, [], [op], x, before) <==> Covers(op, x) ==> BitSubset(Payload(op, x), before)
  {
    hide Covers, BitSubset;
    var one := [op];
    assert one[0] == op && one[1..] == [];
    assert RefRunAt(c, RefStep(c, before, op, x), one[1..], x) == RefStep(c, before, op, x);
  }

  /** One poke or memset followed by a flush leaves NOR flash as the host asked exactly when every
      byte written to flash only clears bits of the byte already there. */
  lemma NorWriteExact(c: Config, s: State, op: Op)
    requires WellFormed(c) && Initial(s) && Clean(c) && c.mode == ClearBits
    requires Legal(op) && (op.Poke? || op.Memset?)
    ensures Run(c, s, [op] + [Flush]).dev.memory[..FlashSize(c)] ==
              RefRun(c, s.dev.memory[..FlashSize(c)], [op])
            <==>
            forall x :: 0 <= x < FlashSize(c) < ADDRESS_SPACE && Covers(op, x) ==>
              BitSubset(Payload(op, x), s.dev.memory[x])
  {
    hide Step, BitSubset, Covers;
    var m, end := s.dev.memory[..FlashSize(c)], Run(c, s, [op] + [Flush]).dev.memory;
    ProgrammingExact(c, s, [], [op]);
    assert [] + [op] + [Flush] == [op] + [Flush];
    forall x | 0 <= x < FlashSize(c)
      ensures ProgrammedAs(c, [], [op], x, m[x], end[x]) <==> end[x] == RefRun(c, m, [op])[x]
      ensures FindsRoom(c, [], [op], x, m[x]) <==> Covers(op, x) ==> BitSubset(Payload(op, x), m[x])
    {
      OneWrite(c, op, x, m[x], end[x]);
    }
  }

  /** What NOR flash holds after one poke or memset and a flush, also where bits would have to be set. */
  lemma NorWriteOutcome(c: Config, s: State, op: Op, x: nat)
    requires WellFormed(c) && Initial(s) && Clean(c) && c.mode == ClearBits && x < FlashSize(c)
    requires Legal(op) && (op.Poke? || op.Memset?)
    ensures Run(c, s, [op] + [Flush]).dev.memory[x] ==
            if Covers(op, x) then s.dev.memory[x] & Payload(op, x) else s.dev.memory[x]
  {
    hide Run, Covers;
    ProgrammingOutcome(c, s, [], [op], x);
    assert [] + [op] + [Flush] == [op] + [Flush];
    assert Covers([op][0], x) == Covers(op, x);
  }
}
