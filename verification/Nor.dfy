/** NOR flash: programming only clears bits. Sessions that only clear bits end as on flash that is
    simply overwritten, and no others do. */
module Nor {
  import opened Words
  import opened Geometry
  import opened Iap
  import opened Cache
  import opened Outcome
  import opened Protocol
  import opened Refinement

  /** The same run on flash that programming overwrites. */
  function Overwriting(c: Config): Config
  {
    c.(mode := Overwrite)
  }

  /** Every cached flash byte can be reached from the byte below it by clearing bits. */
  predicate Programmable(c: Config, s: State)
    requires Valid(s)
  {
    forall x :: 0 <= x < FlashSize(c) < ADDRESS_SPACE ==> BitSubset(ViewAt(s, x), s.dev.memory[x])
  }

  lemma SubsetTrans(a: Byte, b: Byte, c: Byte)
    requires BitSubset(a, b) && BitSubset(b, c)
    ensures BitSubset(a, c)
  {
    assert c & (b & a) == (c & b) & a;
  }

  lemma AndSubset(a: Byte, b: Byte)
    ensures BitSubset(a & b, a)
  {
  }

  // ----- simulation -----

  lemma ProgramSubset(mode: Mode, f: Byte, b: Byte)
    requires BitSubset(b, f)
    ensures Program(mode, f, b) == b
  {
  }

  lemma WriteBackSame(c: Config, s: State)
    requires WellFormed(c) && Valid(s) && Programmable(c, s)
    ensures WriteBack(c, s) == WriteBack(Overwriting(c), s)
  {
    if Pending(c, s) {
      hide BitSubset;
      BlockInOneSector(c.sectors, s.current);
      var m, m' := Programmed(c.mode, s.dev.memory, s.current, s.buffer),
                   Programmed(Overwrite, s.dev.memory, s.current, s.buffer);
      forall x | 0 <= x < |m| ensures m[x] == m'[x] {
        if s.current <= x < s.current + BLOCK_SIZE {
          assert BitSubset(ViewAt(s, x), s.dev.memory[x]);
          ProgramSubset(c.mode, s.dev.memory[x], s.buffer[x - s.current]);
        }
      }
      assert m == m';
      hide Programmed, SectorNumber, SectorsTouched, SectorsBetween;
    } else {
      NothingPending(c, s);
      NothingPending(Overwriting(c), s);
    }
  }

  lemma SelectSame(c: Config, s: State, block: Address)
    requires Valid(s) && Aligned(block) && block + BLOCK_SIZE <= ADDRESS_SPACE
    requires WriteBack(c, s) == WriteBack(Overwriting(c), s)
    ensures Select(c, s, block) == Select(Overwriting(c), s, block)
  {
    hide WriteBack;
  }

  lemma {:induction false} WriteByteSame(c: Config, s: State, a: Address, b: Byte)
    requires WellFormed(c) && Valid(s) && Programmable(c, s)
    requires a < FlashSize(c) ==> BitSubset(b, ViewAt(s, a))
    ensures WriteByte(c, s, a, b) == WriteByte(Overwriting(c), s, a, b)
    ensures Programmable(c, WriteByte(c, s, a, b))
    ensures forall x :: 0 <= x < FlashSize(c) && x != a ==>
              BitSubset(ViewAt(s, x), ViewAt(WriteByte(c, s, a, b), x))
  {
    WriteBackSame(c, s);
    hide WriteBack, BitSubset, Select;
    var ow := Overwriting(c);
    WriteByteSelects(c, s, a, b);
    WriteByteSelects(ow, s, a, b);
    SelectSame(c, s, BlockOf(a));
    var t := WriteByte(c, s, a, b);
    forall x | 0 <= x < FlashSize(c)
      ensures BitSubset(ViewAt(t, x), t.dev.memory[x])
      ensures x != a ==> BitSubset(ViewAt(s, x), ViewAt(t, x))
    {
      BitFacts(ViewAt(s, x));
      BitFacts(t.dev.memory[x]);
      WriteByteView(ow, s, a, b, x);
      SelectMemory(ow, s, BlockOf(a), x);
      if x == a {
        SubsetTrans(b, ViewAt(s, a), s.dev.memory[a]);
      }
    }
  }

  lemma {:induction false} WriteBytesSame(c: Config, s: State, a: Address, bytes: seq<Byte>, k: nat)
    requires WellFormed(c) && Valid(s) && Programmable(c, s) && k <= |bytes| < ADDRESS_SPACE
    requires forall x :: 0 <= x < FlashSize(c) && Offset(a, x) < |bytes| ==>
               BitSubset(bytes[Offset(a, x)], ViewAt(s, x))
    ensures var t := WriteBytes(c, s, a, bytes[..k]);
            && t == WriteBytes(Overwriting(c), s, a, bytes[..k])
            && Programmable(c, t)
            && forall x :: 0 <= x < FlashSize(c) && k <= Offset(a, x) ==> BitSubset(ViewAt(s, x), ViewAt(t, x))
  {
    hide WriteByte, WriteBytes, ViewAt, Programmable, BitSubset, Valid;
    var ow := Overwriting(c);
    if k == 0 {
      WriteNothing(c, s, a, bytes[..0]);
      WriteNothing(ow, s, a, bytes[..0]);
      forall x | 0 <= x < FlashSize(c) ensures BitSubset(ViewAt(s, x), ViewAt(s, x)) {
        BitFacts(ViewAt(s, x));
      }
    } else {
      var s1, at, b := WriteBytes(c, s, a, bytes[..k - 1]), Advance(a, k - 1), bytes[k - 1];
      WriteBytesSame(c, s, a, bytes, k - 1);
      WriteBytesSnoc(c, s, a, bytes, k - 1);
      WriteBytesSnoc(ow, s, a, bytes, k - 1);
      AdvanceOffset(a, at, k - 1);
      if at < FlashSize(c) {
        SubsetTrans(b, ViewAt(s, at), ViewAt(s1, at));
      }
      WriteByteSame(c, s1, at, b);
      var t := WriteByte(c, s1, at, b);
      forall x | 0 <= x < FlashSize(c) && k <= Offset(a, x) ensures BitSubset(ViewAt(s, x), ViewAt(t, x)) {
        SubsetTrans(ViewAt(s, x), ViewAt(s1, x), ViewAt(t, x));
      }
    }
  }

  lemma EraseSectorsSame(c: Config, s: State, first: nat, last: nat)
    requires WellFormed(c) && Valid(s) && Programmable(c, s)
    ensures EraseSectors(c, s, first, last) == EraseSectors(Overwriting(c), s, first, last)
    ensures Programmable(c, EraseSectors(c, s, first, last))
  {
    hide BitSubset;
    var t := EraseSectors(c, s, first, last);
    EraseOutcome(c, s, first, last);
    forall x | 0 <= x < FlashSize(c) ensures BitSubset(ViewAt(t, x), t.dev.memory[x]) {
      BitFacts(ViewAt(t, x));
    }
  }

  /** Each byte the operation writes only clears bits of the byte that flash and cache stand for. */
  predicate ClearsOnly(c: Config, s: State, op: Op)
    requires Valid(s)
  {
    forall x :: 0 <= x < FlashSize(c) < ADDRESS_SPACE && Covers(op, x) ==> BitSubset(Payload(op, x), ViewAt(s, x))
  }

  lemma FlushProgrammable(c: Config, s: State)
    requires WellFormed(c) && Valid(s) && Programmable(c, s)
    ensures Programmable(c, WriteBack(c, s).1)
  {
    hide WriteBack, BitSubset, Programmed;
    var t := WriteBack(c, s).1;
    WriteBackKeepsSize(c, s);
    if Pending(c, s) {
      WriteBackOutcome(c, s);
    } else {
      NothingPending(c, s);
    }
    forall x | 0 <= x < FlashSize(c) ensures BitSubset(ViewAt(t, x), t.dev.memory[x]) {
      BitFacts(t.dev.memory[x]);
      assert BitSubset(ViewAt(s, x), s.dev.memory[x]);
    }
  }

  lemma StepSame(c: Config, s: State, op: Op)
    requires WellFormed(c) && Valid(s) && Programmable(c, s) && Legal(op) && ClearsOnly(c, s, op)
    ensures Step(c, s, op) == Step(Overwriting(c), s, op)
    ensures Programmable(c, Step(c, s, op))
  {
    hide WriteByte, WriteBytes, FillFragments, EraseSectors, WriteBack, SectorNumber, ViewAt, BitSubset;
    match op
    case Poke(a, bytes) =>
      assert bytes[..|bytes|] == bytes;
      assert forall x :: 0 <= x < FlashSize(c) && Covers(op, x) ==> BitSubset(Payload(op, x), ViewAt(s, x));
      assert forall x :: 0 <= x < FlashSize(c) && Offset(a, x) < |bytes| ==> Covers(op, x);
      WriteBytesSame(c, s, a, bytes, |bytes|);
    case Memset(a, n, v) =>
      FillIsWrite(c, s, a, n, v);
      FillIsWrite(Overwriting(c), s, a, n, v);
      assert Filled(n, v)[..n] == Filled(n, v);
      assert forall x :: 0 <= x < FlashSize(c) && Offset(a, x) < n ==> Covers(op, x) && Payload(op, x) == v;
      WriteBytesSame(c, s, a, Filled(n, v), n);
    case EraseOp(a, n) =>
      if 0 <= SectorNumber(c.sectors, a) && 0 <= SectorNumber(c.sectors, LastAddress(a, n)) {
        EraseSectorsSame(c, s, SectorNumber(c.sectors, a), SectorNumber(c.sectors, LastAddress(a, n)));
      }
    case EraseAllOp =>
      EraseSectorsSame(c, s, 0, (|c.sectors| - 1) % ADDRESS_SPACE);
    case Flush =>
      WriteBackSame(c, s);
      FlushProgrammable(c, s);
  }

  /** Every operation of the session only clears bits when its turn comes. */
  predicate OnlyClears(c: Config, s: State, ops: seq<Op>)
    requires Valid(s) && AllLegal(ops)
    decreases |ops|
  {
    |ops| > 0 ==> ClearsOnly(c, s, ops[0]) && OnlyClears(c, Step(Overwriting(c), s, ops[0]), ops[1..])
  }

  /** For every schedule of failures, a session that only clears bits runs on NOR flash exactly as on
      flash that is overwritten: same memory, same buffer, same commands. */
  lemma {:induction false} NorIsOverwrite(c: Config, s: State, ops: seq<Op>)
    requires WellFormed(c) && Valid(s) && Programmable(c, s) && AllLegal(ops) && OnlyClears(c, s, ops)
    ensures Run(c, s, ops) == Run(Overwriting(c), s, ops)
    ensures Programmable(c, Run(c, s, ops))
    decreases |ops|
  {
    hide Step, ClearsOnly, Programmable;
    if |ops| > 0 {
      StepSame(c, s, ops[0]);
      NorIsOverwrite(c, Step(c, s, ops[0]), ops[1..]);
    }
  }

  // ----- a condition on the plain memory -----

  /** Byte `x`, starting from `v`, is only ever overwritten by clearing bits. */
  predicate RefClearsAt(c: Config, v: Byte, ops: seq<Op>, x: Address)
    decreases |ops|
  {
    |ops| > 0 ==>
      && (Covers(ops[0], x) ==> BitSubset(Payload(ops[0], x), v))
      && RefClearsAt(c, RefStep(c, v, ops[0], x), ops[1..], x)
  }

  lemma CleanStepView(c: Config, s: State, op: Op, x: nat)
    requires WellFormed(c) && Reachable(c, s) && Legal(op) && x < FlashSize(c)
    requires c.mode == Overwrite && Clean(c) && !ErasesBlock(c, op, s.current)
    ensures ViewAt(Step(c, s, op), x) == RefStep(c, ViewAt(s, x), op, x)
  {
    hide Step, EventsOk, Evolves, RefStep, ViewAt, Unharmed, Faithful;
    StepEvolves(c, s, op);
    EvolvesSound(c, s, Step(c, s, op));
    CleanIsUnharmed(c, Step(c, s, op).dev.trace, Now(s), x);
    if Cached(s, x) && Clears(c, op, x) {
      ClearsWholeBlock(c, s, op, x);
    }
    UnharmedFaithful(c, s, op, x);
    StepExact(c, s, op, x);
  }

  lemma ErasesBlockSame(c: Config, op: Op, block: Address)
    ensures ErasesBlock(c, op, block) == ErasesBlock(Overwriting(c), op, block)
  {
  }

  lemma ReachableSame(c: Config, s: State)
    ensures Reachable(c, s) <==> Reachable(Overwriting(c), s)
  {
    var trace := s.dev.trace;
    forall i | 0 <= i < |trace| ensures EventOk(c, trace, i) == EventOk(Overwriting(c), trace, i) {
    }
  }

  lemma RefStepSame(c: Config, v: Byte, op: Op, x: Address)
    ensures RefStep(c, v, op, x) == RefStep(Overwriting(c), v, op, x)
  {
  }

  lemma {:induction false} RefClearsSuffices(c: Config, s: State, ops: seq<Op>)
    requires WellFormed(c) && Reachable(c, s) && AllLegal(ops)
    requires Clean(c) && SafeErases(c, ops, s.current)
    requires forall x :: 0 <= x < FlashSize(c) ==> RefClearsAt(c, ViewAt(s, x), ops, x)
    ensures OnlyClears(c, s, ops)
    decreases |ops|
  {
    hide Step, ViewAt, RefStep, CachedAfter, BitSubset, EventsOk, Evolves, Covers, ErasesBlock;
    if |ops| > 0 {
      var ow := Overwriting(c);
      var s1 := Step(ow, s, ops[0]);
      ErasesBlockSame(c, ops[0], s.current);
      ReachableSame(c, s);
      StepEvolves(ow, s, ops[0]);
      EvolvesSound(ow, s, s1);
      ReachableSame(c, s1);
      CurrentAfter(ow, s, ops[0]);
      forall x | 0 <= x < FlashSize(c) ensures RefClearsAt(c, ViewAt(s1, x), ops[1..], x) {
        CleanStepView(ow, s, ops[0], x);
        RefStepSame(c, ViewAt(s, x), ops[0], x);
        assert RefClearsAt(c, ViewAt(s, x), ops, x);
      }
      assert ClearsOnly(c, s, ops[0]) by {
        forall x | 0 <= x < FlashSize(c) && Covers(ops[0], x)
          ensures BitSubset(Payload(ops[0], x), ViewAt(s, x))
        {
          assert RefClearsAt(c, ViewAt(s, x), ops, x);
        }
      }
      RefClearsSuffices(c, s1, ops[1..]);
    }
  }

  // The reference and the trace conditions do not depend on the programming mode.

  lemma {:induction false} RefRunSame(c: Config, v: Byte, ops: seq<Op>, x: Address)
    ensures RefRunAt(c, v, ops, x) == RefRunAt(Overwriting(c), v, ops, x)
    decreases |ops|
  {
    hide RefStep;
    if |ops| > 0 {
      RefStepSame(c, v, ops[0], x);
      RefRunSame(c, RefStep(c, v, ops[0], x), ops[1..], x);
    }
  }

  lemma {:induction false} SafeErasesSame(c: Config, ops: seq<Op>, current: Address)
    requires AllLegal(ops)
    ensures SafeErases(c, ops, current) == SafeErases(Overwriting(c), ops, current)
    decreases |ops|
  {
    hide ErasesBlock, CachedAfter;
    if |ops| > 0 {
      ErasesBlockSame(c, ops[0], current);
      SafeErasesSame(c, ops[1..], CachedAfter(ops[0], current));
    }
  }

  lemma InitialProgrammable(c: Config, s: State)
    requires WellFormed(c) && Valid(s) && s.current == INVALID
    ensures Programmable(c, s)
  {
    forall x | 0 <= x < FlashSize(c) ensures BitSubset(ViewAt(s, x), s.dev.memory[x]) {
      BitFacts(s.dev.memory[x]);
    }
  }

  /** The session theorem on NOR flash: without failures, with erases not under the cache, a session
      that in plain memory only clears bits between erases leaves the flash equal to plain memory. */
  lemma NorSession(c: Config, s: State, ops: seq<Op>)
    requires WellFormed(c) && Initial(s) && AllLegal(ops)
    requires Clean(c) && SafeErases(c, ops, INVALID)
    requires forall x :: 0 <= x < FlashSize(c) ==> RefClearsAt(c, s.dev.memory[x], ops, x)
    ensures AllLegal(ops + [Flush])
    ensures Run(c, s, ops + [Flush]) == Run(Overwriting(c), s, ops + [Flush])
    ensures Run(c, s, ops + [Flush]).dev.memory[..FlashSize(c)] ==
            RefRun(c, s.dev.memory[..FlashSize(c)], ops)
  {
    hide SafeErases, BitSubset, Step;
    var ow, m := Overwriting(c), s.dev.memory[..FlashSize(c)];
    assert forall x :: 0 <= x < FlashSize(c) ==> ViewAt(s, x) == s.dev.memory[x];
    RefClearsSuffices(c, s, ops);
    InitialProgrammable(c, s);
    NorIsOverwrite(c, s, ops);
    RunSplit(c, s, ops, [Flush]);
    RunSplit(ow, s, ops, [Flush]);
    var s1 := Run(c, s, ops);
    StepSame(c, s1, Flush);
    assert Run(c, s1, [Flush]) == Step(c, s1, Flush) && Run(ow, s1, [Flush]) == Step(ow, s1, Flush);
    SafeErasesSame(c, ops, INVALID);
    FlushedSession(ow, s, ops);
    forall x | 0 <= x < |m| ensures RefRun(c, m, ops)[x] == RefRun(ow, m, ops)[x] {
      RefRunSame(c, m[x], ops, x);
    }
  }
}
