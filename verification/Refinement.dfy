/** The cache and the flash together behave like plain byte memory. */
module Refinement {
  import opened Words
  import opened Geometry
  import opened Iap
  import opened Cache
  import opened Outcome
  import opened Protocol

  // ----- the memory that the cache stands for -----

  predicate Cached(s: State, x: nat)
  {
    s.current != INVALID && s.current <= x < s.current + BLOCK_SIZE
  }

  /** The byte at `x` as a later flush would leave it: from the buffer if its block is cached. */
  function ViewAt(s: State, x: Address): Byte
    requires Valid(s)
  {
    if Cached(s, x) then s.buffer[x - s.current] else s.dev.memory[x]
  }

  function FlashView(c: Config, s: State): (view: seq<Byte>)
    requires Valid(s) && WellFormed(c)
    ensures |view| == FlashSize(c)
  {
    seq(FlashSize(c), x requires 0 <= x < FlashSize(c) => ViewAt(s, x))
  }

  // ----- the reference: a memory each byte of which only remembers its last write -----

  predicate Covers(op: Op, x: Address)
  {
    match op
    case Poke(a, bytes) => Offset(a, x) < |bytes|
    case Memset(a, n, _) => Offset(a, x) < n
    case _ => false
  }

  function Payload(op: Op, x: Address): Byte
    requires Covers(op, x)
  {
    match op
    case Poke(a, bytes) => bytes[Offset(a, x)]
    case Memset(_, _, v) => v
  }

  /** A range that does not run past the last address covers exactly its addresses, in order. */
  lemma CoversRange(op: Op, x: Address)
    requires Legal(op)
    ensures op.Poke? && op.address + |op.bytes| <= 0x1_0000_0000 ==>
              && (Covers(op, x) <==> op.address <= x < op.address + |op.bytes|)
              && (Covers(op, x) ==> Payload(op, x) == op.bytes[x - op.address])
    ensures op.Memset? && op.address + op.length <= 0x1_0000_0000 ==>
              && (Covers(op, x) <==> op.address <= x < op.address + op.length)
              && (Covers(op, x) ==> Payload(op, x) == op.value)
  {
  }

  /** Both ends of the range lie in the geometry, and `x` in a sector from that of the first to that
      of the last address. */
  predicate EraseHits(c: Config, a: Address, n: Address, x: nat)
  {
    var first := SectorNumber(c.sectors, a);
    var last := SectorNumber(c.sectors, LastAddress(a, n));
    0 <= first && 0 <= last && first <= SectorNumber(c.sectors, x) <= last
  }

  predicate Clears(c: Config, op: Op, x: nat)
  {
    match op
    case EraseOp(a, n) => EraseHits(c, a, n, x)
    case EraseAllOp => true
    case _ => false
  }

  function RefStep(c: Config, v: Byte, op: Op, x: Address): Byte
  {
    if Covers(op, x) then Payload(op, x) else if Clears(c, op, x) then ERASED else v
  }

  function RefRunAt(c: Config, v: Byte, ops: seq<Op>, x: Address): Byte
    decreases |ops|
  {
    if |ops| == 0 then v else RefRunAt(c, RefStep(c, v, ops[0], x), ops[1..], x)
  }

  /** The plain memory after a session. */
  function RefRun(c: Config, m: seq<Byte>, ops: seq<Op>): (m': seq<Byte>)
    requires |m| <= ADDRESS_SPACE
    ensures |m'| == |m|
  {
    seq(|m|, x requires 0 <= x < |m| => RefRunAt(c, m[x], ops, x))
  }

  // ----- one byte -----

  /** A write to `a` evicts a block of the geometry, and a command of that eviction fails. */
  predicate EvictionFails(c: Config, s: State, a: Address)
  {
    s.current != BlockOf(a) && Pending(c, s) && !Accepted(c, s)
  }

  /** The eviction that a write to `a` starts fails to commit byte `x`. */
  predicate Lost(c: Config, s: State, a: Address, x: nat)
  {
    EvictionFails(c, s, a) && Cached(s, x)
  }

  /** A cached block outside the geometry holds no flash byte. */
  lemma NotCachedBeyond(c: Config, s: State, x: nat)
    requires WellFormed(c) && Valid(s) && !Pending(c, s) && x < FlashSize(c)
    ensures !Cached(s, x)
  {
  }

  lemma CommitView(c: Config, s: State, x: nat)
    requires WellFormed(c) && Valid(s) && x < FlashSize(c)
    requires c.mode == Overwrite && (Pending(c, s) ==> Accepted(c, s))
    ensures WriteBack(c, s).1.dev.memory[x] == ViewAt(s, x)
    ensures WriteBack(c, s).1.current == INVALID
  {
    if Pending(c, s) {
      hide WriteBack;
      WriteBackOutcome(c, s);
    } else {
      NothingPending(c, s);
      NotCachedBeyond(c, s, x);
    }
  }

  lemma FailedView(c: Config, s: State, x: nat)
    requires WellFormed(c) && Valid(s) && Pending(c, s) && !Accepted(c, s) && x < FlashSize(c)
    ensures WriteBack(c, s).1.dev.memory == s.dev.memory
    ensures WriteBack(c, s).1.current == s.current && WriteBack(c, s).1.buffer == s.buffer
  {
    WriteBackOutcome(c, s);
  }

  /** The bytes of a freshly selected block are those in memory, so only memory shows. */
  lemma SelectView(c: Config, s: State, block: Address, x: Address)
    requires Valid(s) && Aligned(block) && block + BLOCK_SIZE <= ADDRESS_SPACE
    ensures ViewAt(Select(c, s, block), x) ==
            if s.current == block then ViewAt(s, x) else WriteBack(c, s).1.dev.memory[x]
  {
    hide WriteBack;
    WriteBackKeepsSize(c, s);
  }

  lemma WriteByteView(c: Config, s: State, a: Address, b: Byte, x: nat)
    requires WellFormed(c) && Valid(s) && c.mode == Overwrite && x < FlashSize(c)
    ensures ViewAt(WriteByte(c, s, a, b), x) ==
            if x == a then b else if Lost(c, s, a, x) then s.dev.memory[x] else ViewAt(s, x)
  {
    hide WriteBack, Select;
    SelectView(c, s, BlockOf(a), x);
    WriteByteSelects(c, s, a, b);
    var s1 := Select(c, s, BlockOf(a));
    assert x != a ==> ViewAt(WriteByte(c, s, a, b), x) == ViewAt(s1, x);
    if s.current != BlockOf(a) {
      if Pending(c, s) && !Accepted(c, s) {
        FailedView(c, s, x);
      } else {
        CommitView(c, s, x);
      }
    }
  }

  /** After a block change the flash below shows through, except that a failed commit left it as it was. */
  lemma SelectMemory(c: Config, s: State, block: Address, x: nat)
    requires WellFormed(c) && Valid(s) && c.mode == Overwrite && x < FlashSize(c)
    requires Aligned(block) && block + BLOCK_SIZE <= ADDRESS_SPACE
    ensures var t := Select(c, s, block);
            if s.current == block then t == s
            else
              && (Cached(t, x) ==> ViewAt(t, x) == t.dev.memory[x])
              && t.dev.memory[x] == if Pending(c, s) && !Accepted(c, s) then s.dev.memory[x] else ViewAt(s, x)
  {
    hide WriteBack;
    WriteBackKeepsSize(c, s);
    if Pending(c, s) && !Accepted(c, s) {
      FailedView(c, s, x);
    } else {
      CommitView(c, s, x);
    }
  }

  // ----- one byte, on either kind of flash -----

  /** Committing the cached block would have to set bits of byte `x`, which NOR flash cannot. */
  predicate Short(c: Config, s: State, x: Address)
    requires Valid(s)
  {
    && Pending(c, s) && Accepted(c, s) && Cached(s, x)
    && c.mode == ClearBits && !BitSubset(ViewAt(s, x), s.dev.memory[x])
  }

  /** Committing the cached block fails, and byte `x` is not yet in flash. */
  predicate Dropped(c: Config, s: State, x: Address)
    requires Valid(s)
  {
    && Pending(c, s) && !Accepted(c, s) && Cached(s, x)
    && ViewAt(s, x) != s.dev.memory[x]
  }

  /** A write to `a` evicts the cached block and in doing so changes what is read at `x`. */
  predicate Damaged(c: Config, s: State, a: Address, x: Address)
    requires Valid(s)
  {
    s.current != BlockOf(a) && (Short(c, s, x) || Dropped(c, s, x))
  }

  /** What flash holds at `x` after a write-back of the cached block. */
  function WrittenBack(c: Config, s: State, x: Address): Byte
    requires Valid(s)
  {
    if Pending(c, s) && Accepted(c, s) && Cached(s, x) then Program(c.mode, s.dev.memory[x], ViewAt(s, x))
    else s.dev.memory[x]
  }

  lemma WriteBackMemory(c: Config, s: State, x: nat)
    requires WellFormed(c) && Valid(s) && x < FlashSize(c)
    ensures |WriteBack(c, s).1.dev.memory| == ADDRESS_SPACE
    ensures WriteBack(c, s).1.dev.memory[x] == WrittenBack(c, s, x)
    ensures WrittenBack(c, s, x) != ViewAt(s, x) <==> Short(c, s, x) || Dropped(c, s, x)
    ensures ViewAt(s, x) == s.dev.memory[x] ==> WrittenBack(c, s, x) == s.dev.memory[x]
  {
    hide WriteBack;
    WriteBackKeepsSize(c, s);
    if Pending(c, s) {
      WriteBackOutcome(c, s);
      BitFacts(s.dev.memory[x]);
    } else {
      NothingPending(c, s);
    }
  }

  /** Writing the byte at `a`, seen at another byte: it reads as before unless the eviction damages it,
      and a byte that reads as in flash, or was damaged, reads as in flash afterwards. */
  lemma OtherByte(c: Config, s: State, a: Address, b: Byte, x: nat)
    requires WellFormed(c) && Valid(s) && x < FlashSize(c) && x != a
    ensures var t := WriteByte(c, s, a, b);
            && (ViewAt(t, x) == ViewAt(s, x) <==> !Damaged(c, s, a, x))
            && (Damaged(c, s, a, x) || ViewAt(s, x) == s.dev.memory[x] ==> ViewAt(t, x) == t.dev.memory[x])
            && (ViewAt(s, x) == s.dev.memory[x] ==> !Damaged(c, s, a, x))
  {
    hide WriteBack, Short, Dropped, WrittenBack;
    WriteBackMemory(c, s, x);
  }

  lemma WrittenByte(c: Config, s: State, a: Address, b: Byte)
    requires Valid(s)
    ensures ViewAt(WriteByte(c, s, a, b), a) == b
  {
    hide WriteBack;
  }

  /** A flush, failed or not, leaves the byte that flash and cache stand for, unless it would have to set
      bits of NOR flash. */
  lemma FlushExact(c: Config, s: State, x: nat)
    requires WellFormed(c) && Valid(s) && x < FlashSize(c)
    ensures ViewAt(Step(c, s, Flush), x) == ViewAt(s, x) <==> !Short(c, s, x)
  {
    hide WriteBack, BitSubset;
    WriteBackMemory(c, s, x);
    if Pending(c, s) {
      WriteBackOutcome(c, s);
    } else {
      NothingPending(c, s);
    }
  }

  // ----- one operation -----

  /** The eviction by the `k`-th byte of a write to `a` damages byte `x`, and none of the bytes still to
      come overwrites it. */
  predicate LosesAt(c: Config, s: State, a: Address, bytes: seq<Byte>, k: nat, x: Address)
    requires Valid(s) && k < |bytes| < ADDRESS_SPACE
  {
    Damaged(c, WriteBytes(c, s, a, bytes[..k]), Advance(a, k), x) && !(k <= Offset(a, x) < |bytes|)
  }

  predicate Loses(c: Config, s: State, a: Address, bytes: seq<Byte>, x: Address)
    requires Valid(s) && |bytes| < ADDRESS_SPACE
  {
    exists k :: 0 <= k < |bytes| && LosesAt(c, s, a, bytes, k, x)
  }

  predicate LosesBefore(c: Config, s: State, a: Address, bytes: seq<Byte>, x: Address, k: nat)
    requires Valid(s) && k <= |bytes| < ADDRESS_SPACE
  {
    exists j :: 0 <= j < k && LosesAt(c, s, a, bytes, j, x)
  }

  /** The progress of a write at byte `x`: once `x` has its last value, it keeps it until it is damaged,
      and then it shows what flash holds, up to the end. */
  lemma {:induction false} WriteBytesTrack(c: Config, s: State, a: Address, bytes: seq<Byte>, k: nat, x: nat)
    requires WellFormed(c) && Valid(s) && x < FlashSize(c)
    requires k <= |bytes| < ADDRESS_SPACE
    ensures var t := WriteBytes(c, s, a, bytes[..k]);
            var v := RefStep(c, ViewAt(s, x), Poke(a, bytes), x);
            if k <= Offset(a, x) < |bytes| then !LosesBefore(c, s, a, bytes, x, k)
            else if LosesBefore(c, s, a, bytes, x, k) then ViewAt(t, x) == t.dev.memory[x] != v
            else ViewAt(t, x) == v
    decreases k
  {
    hide WriteByte, WriteBytes, Damaged, ViewAt;
    if k == 0 {
      WriteNothing(c, s, a, bytes[..0]);
    } else {
      var s1, at, b := WriteBytes(c, s, a, bytes[..k - 1]), Advance(a, k - 1), bytes[k - 1];
      WriteBytesTrack(c, s, a, bytes, k - 1, x);
      WriteBytesSnoc(c, s, a, bytes, k - 1);
      AdvanceOffset(a, x, k - 1);
      assert LosesBefore(c, s, a, bytes, x, k) <==>
             LosesBefore(c, s, a, bytes, x, k - 1) || LosesAt(c, s, a, bytes, k - 1, x);
      if x == at {
        WrittenByte(c, s1, at, b);
      } else {
        OtherByte(c, s1, at, b, x);
      }
    }
  }

  /** A write of any length acts on a flash byte as on plain memory exactly when it does not lose it. */
  lemma WriteBytesExact(c: Config, s: State, a: Address, bytes: seq<Byte>, x: nat)
    requires WellFormed(c) && Valid(s) && x < FlashSize(c) && |bytes| < ADDRESS_SPACE
    ensures ViewAt(WriteBytes(c, s, a, bytes), x) == RefStep(c, ViewAt(s, x), Poke(a, bytes), x) <==>
            !Loses(c, s, a, bytes, x)
  {
    hide WriteBytes, LosesAt, ViewAt, RefStep;
    WriteBytesTrack(c, s, a, bytes, |bytes|, x);
    assert bytes[..|bytes|] == bytes;
    assert LosesBefore(c, s, a, bytes, x, |bytes|) == Loses(c, s, a, bytes, x);
  }

  /** An erase of `first` to `last` shows at a byte of these sectors exactly when the byte read 0xFF
      already, or its block is not cached and the erase goes through. Other bytes stay. */
  lemma EraseSectorsExact(c: Config, s: State, first: nat, last: nat, x: nat)
    requires WellFormed(c) && Valid(s) && x < FlashSize(c)
    ensures var t := EraseSectors(c, s, first, last);
            if first <= SectorNumber(c.sectors, x) <= last then
              ViewAt(t, x) == ERASED <==>
              ViewAt(s, x) == ERASED || (!Cached(s, x) && EraseAnswered(c, s, first, last))
            else ViewAt(t, x) == ViewAt(s, x)
  {
    hide EraseSectors, SectorNumber, SectorsBetween;
    EraseOutcome(c, s, first, last);
    if EraseAnswered(c, s, first, last) {
      ErasedBySector(c.sectors, first, last, x);
    }
  }

  /** The erase that `op` asks for goes through. */
  predicate OpAnswered(c: Config, s: State, op: Op)
  {
    match op
    case EraseOp(a, n) =>
      var first, last := SectorNumber(c.sectors, a), SectorNumber(c.sectors, LastAddress(a, n));
      0 <= first && 0 <= last && EraseAnswered(c, s, first, last)
    case EraseAllOp => EraseAnswered(c, s, 0, (|c.sectors| - 1) % ADDRESS_SPACE)
    case _ => false
  }

  /** An erase, failed or not, acts on a flash byte as on plain memory exactly when it does not clear it,
      or the byte read 0xFF already, or its block is not cached and the erase goes through. */
  lemma EraseExact(c: Config, s: State, op: Op, x: nat)
    requires WellFormed(c) && Valid(s) && x < FlashSize(c) && (op.EraseOp? || op.EraseAllOp?)
    ensures ViewAt(Step(c, s, op), x) == RefStep(c, ViewAt(s, x), op, x) <==>
            (Clears(c, op, x) ==> ViewAt(s, x) == ERASED || (!Cached(s, x) && OpAnswered(c, s, op)))
  {
    hide EraseSectors, SectorNumber, EraseAnswered, ViewAt;
    match op
    case EraseOp(a, n) =>
      var first, last := SectorNumber(c.sectors, a), SectorNumber(c.sectors, LastAddress(a, n));
      SectorNumberCorrect(c.sectors, a);
      SectorNumberCorrect(c.sectors, LastAddress(a, n));
      if 0 <= first && 0 <= last {
        EraseSectorsExact(c, s, first, last, x);
      }
    case EraseAllOp =>
      SectorNumberCorrect(c.sectors, x);
      EraseSectorsExact(c, s, 0, |c.sectors| - 1, x);
  }

  /** At byte `x`, a write of `op` loses nothing, a flush need not set bits of NOR flash, and an erase finds
      0xFF or goes through while the block of `x` is not cached. */
  predicate Faithful(c: Config, s: State, op: Op, x: Address)
    requires Valid(s) && Legal(op)
  {
    match op
    case Poke(a, bytes) => !Loses(c, s, a, bytes, x)
    case Memset(a, n, v) => !Loses(c, s, a, Filled(n, v), x)
    case Flush => !Short(c, s, x)
    case _ => Clears(c, op, x) ==> ViewAt(s, x) == ERASED || (!Cached(s, x) && OpAnswered(c, s, op))
  }

  /** For every operation, state and schedule of failures: the operation acts on a flash byte as on plain
      memory exactly when it is faithful there. */
  lemma StepExact(c: Config, s: State, op: Op, x: nat)
    requires WellFormed(c) && Valid(s) && Legal(op) && x < FlashSize(c)
    ensures ViewAt(Step(c, s, op), x) == RefStep(c, ViewAt(s, x), op, x) <==> Faithful(c, s, op, x)
  {
    hide WriteByte, WriteBytes, FillFragments, EraseSectors, WriteBack, SectorNumber, Loses, ViewAt, EraseAnswered;
    match op
    case Poke(a, bytes) =>
      WriteBytesExact(c, s, a, bytes, x);
    case Memset(a, n, v) =>
      FillIsWrite(c, s, a, n, v);
      WriteBytesExact(c, s, a, Filled(n, v), x);
    case Flush =>
      FlushExact(c, s, x);
    case _ =>
      EraseExact(c, s, op, x);
  }

  // ----- sessions -----

  /** Every operation of the session is faithful at `x` when its turn comes. */
  predicate Intact(c: Config, s: State, ops: seq<Op>, x: Address)
    requires Valid(s) && AllLegal(ops)
    decreases |ops|
  {
    |ops| > 0 ==> Faithful(c, s, ops[0], x) && Intact(c, Step(c, s, ops[0]), ops[1..], x)
  }

  /** The first `i` operations leave byte `x` as in plain memory. */
  predicate AgreesAfter(c: Config, s: State, ops: seq<Op>, x: Address, i: nat)
    requires Valid(s) && AllLegal(ops) && i <= |ops|
  {
    ViewAt(Run(c, s, ops[..i]), x) == RefRunAt(c, ViewAt(s, x), ops[..i], x)
  }

  lemma AgreesOne(c: Config, s: State, ops: seq<Op>, x: Address)
    requires Valid(s) && AllLegal(ops) && |ops| > 0
    ensures AgreesAfter(c, s, ops, x, 1) <==> ViewAt(Step(c, s, ops[0]), x) == RefStep(c, ViewAt(s, x), ops[0], x)
  {
    hide Step, RefStep, ViewAt;
    var one := ops[..1];
    assert one[0] == ops[0] && one[1..] == [];
    assert Run(c, Step(c, s, ops[0]), one[1..]) == Step(c, s, ops[0]);
    assert RefRunAt(c, RefStep(c, ViewAt(s, x), ops[0], x), one[1..], x) == RefStep(c, ViewAt(s, x), ops[0], x);
  }

  /** For every session and every schedule of failures: a flash byte reads as in the plain memory after
      each operation of the session exactly when every operation is faithful to it. */
  lemma {:induction false} SessionExact(c: Config, s: State, ops: seq<Op>, x: nat)
    requires WellFormed(c) && Valid(s) && AllLegal(ops) && x < FlashSize(c)
    ensures (forall i :: 0 <= i <= |ops| ==> AgreesAfter(c, s, ops, x, i)) <==> Intact(c, s, ops, x)
    decreases |ops|
  {
    hide Step, RefStep, Faithful, ViewAt;
    assert ops[..0] == [] && AgreesAfter(c, s, ops, x, 0);
    if |ops| > 0 {
      var s1, rest := Step(c, s, ops[0]), ops[1..];
      StepExact(c, s, ops[0], x);
      AgreesOne(c, s, ops, x);
      assert AgreesAfter(c, s, ops, x, 1) <==> Faithful(c, s, ops[0], x);
      if Faithful(c, s, ops[0], x) {
        SessionExact(c, s1, rest, x);
        forall i | 0 <= i <= |rest| ensures AgreesAfter(c, s, ops, x, i + 1) <==> AgreesAfter(c, s1, rest, x, i) {
          assert ops[..i + 1][1..] == rest[..i] && ops[..i + 1][0] == ops[0];
        }
        assert forall i :: 1 <= i <= |ops| ==> (AgreesAfter(c, s, ops, x, i) <==> AgreesAfter(c, s1, rest, x, i - 1));
      }
    }
  }

  lemma IntactSession(c: Config, s: State, ops: seq<Op>, x: nat)
    requires WellFormed(c) && Valid(s) && AllLegal(ops) && x < FlashSize(c)
    requires Intact(c, s, ops, x)
    ensures ViewAt(Run(c, s, ops), x) == RefRunAt(c, ViewAt(s, x), ops, x)
  {
    SessionExact(c, s, ops, x);
    assert AgreesAfter(c, s, ops, x, |ops|) && ops[..|ops|] == ops;
  }

  // ----- failures, and the bytes they can hurt -----

  /** A command that prepares, programs or erases the place of byte `x`. */
  predicate Concerns(c: Config, cmd: Command, x: nat)
  {
    match cmd
    case Prepare(first, last) => first <= SectorNumber(c.sectors, x) <= last
    case Copy(dst, data, _) => dst <= x < dst + |data|
    case Erase(first, last, _) => first <= SectorNumber(c.sectors, x) <= last
  }

  /** No command from position `from` on that concerns `x` failed. */
  predicate Unharmed(c: Config, trace: seq<Event>, from: nat, x: nat)
  {
    forall i :: from <= i < |trace| && Concerns(c, trace[i].cmd, x) ==> trace[i].status == CMD_SUCCESS
  }

  lemma UnharmedPart(c: Config, trace: seq<Event>, longer: seq<Event>, from: nat, x: nat)
    requires trace <= longer && Unharmed(c, longer, from, x)
    ensures Unharmed(c, trace, from, x)
    ensures Unharmed(c, longer, |trace|, x) || |trace| < from
  {
    forall i | from <= i < |trace| && Concerns(c, trace[i].cmd, x) ensures trace[i].status == CMD_SUCCESS {
      assert longer[i] == trace[i];
    }
  }

  lemma LostIsHarmed(c: Config, s: State, a: Address, b: Byte, x: nat)
    requires WellFormed(c) && Valid(s) && x < FlashSize(c) && Lost(c, s, a, x)
    ensures !Unharmed(c, WriteByte(c, s, a, b).dev.trace, Now(s), x)
  {
    hide WriteBack;
    WriteBackOutcome(c, s);
    BlockInOneSector(c.sectors, s.current);
    var trace := WriteByte(c, s, a, b).dev.trace;
    assert trace == s.dev.trace + WriteBackEvents(c, s);
    if c.schedule(Now(s)) != CMD_SUCCESS {
      assert trace[Now(s)] == WriteBackEvents(c, s)[0];
    } else {
      assert trace[Now(s) + 1] == WriteBackEvents(c, s)[1];
    }
  }

  /** A write none of whose failed commands concerns `x` does not lose `x`. */
  lemma UnharmedWrite(c: Config, s: State, a: Address, bytes: seq<Byte>, x: nat)
    requires WellFormed(c) && Valid(s) && c.mode == Overwrite && x < FlashSize(c) && |bytes| < ADDRESS_SPACE
    requires Unharmed(c, WriteBytes(c, s, a, bytes).dev.trace, Now(s), x)
    ensures !Loses(c, s, a, bytes, x)
  {
    hide WriteByte, WriteBytes, ViewAt, Unharmed;
    forall k | 0 <= k < |bytes| ensures !LosesAt(c, s, a, bytes, k, x) {
      var s1 := WriteBytes(c, s, a, bytes[..k]);
      var s2 := WriteBytes(c, s, a, bytes[..k + 1]);
      var rest := bytes[k + 1..];
      WriteBytesSnoc(c, s, a, bytes, k);
      WriteBytesEvolves(c, s, a, bytes, k);
      WriteByteEvolves(c, s1, Advance(a, k), bytes[k]);
      assert bytes[..k + 1] + rest == bytes && rest[..|rest|] == rest;
      WriteBytesSplit(c, s, a, bytes[..k + 1], rest);
      WriteBytesEvolves(c, s2, Advance(a, k + 1), rest, |rest|);
      UnharmedPart(c, s2.dev.trace, WriteBytes(c, s, a, bytes).dev.trace, Now(s), x);
      UnharmedPart(c, s1.dev.trace, s2.dev.trace, Now(s), x);
      if Damaged(c, s1, Advance(a, k), x) {
        LostIsHarmed(c, s1, Advance(a, k), bytes[k], x);
      }
    }
  }

  lemma UnharmedErase(c: Config, s: State, first: nat, last: nat, x: nat)
    requires first <= SectorNumber(c.sectors, x) <= last
    requires Unharmed(c, EraseSectors(c, s, first, last).dev.trace, Now(s), x)
    ensures EraseAnswered(c, s, first, last)
  {
    hide EraseSectors, SectorNumber, EraseAnswered;
    EraseOutcome(c, s, first, last);
    assert EraseSectors(c, s, first, last).dev.trace[Now(s) + 1].cmd == Erase(first, last, c.clock / 1000);
  }

  /** An operation is faithful to a byte none of whose commands failed and that it does not erase under
      the cache. */
  lemma UnharmedFaithful(c: Config, s: State, op: Op, x: nat)
    requires WellFormed(c) && Valid(s) && Legal(op) && c.mode == Overwrite && x < FlashSize(c)
    requires Unharmed(c, Step(c, s, op).dev.trace, Now(s), x)
    requires Clears(c, op, x) ==> !Cached(s, x)
    ensures Faithful(c, s, op, x)
  {
    hide WriteBytes, FillFragments, EraseSectors, SectorNumber, Loses, ViewAt, EraseAnswered, Unharmed, SectorFrom;
    match op
    case Poke(a, bytes) =>
      UnharmedWrite(c, s, a, bytes, x);
    case Memset(a, n, v) =>
      FillIsWrite(c, s, a, n, v);
      UnharmedWrite(c, s, a, Filled(n, v), x);
    case EraseOp(a, n) =>
      if EraseHits(c, a, n, x) {
        UnharmedErase(c, s, SectorNumber(c.sectors, a), SectorNumber(c.sectors, LastAddress(a, n)), x);
      }
    case EraseAllOp =>
      SectorNumberCorrect(c.sectors, x);
      UnharmedErase(c, s, 0, |c.sectors| - 1, x);
    case Flush =>
  }

  /** No erase of the session clears byte `x` while its block is cached. */
  predicate Coherent(c: Config, s: State, ops: seq<Op>, x: nat)
    requires Valid(s) && AllLegal(ops)
    decreases |ops|
  {
    |ops| > 0 ==>
      && (Clears(c, ops[0], x) ==> !Cached(s, x))
      && Coherent(c, Step(c, s, ops[0]), ops[1..], x)
  }

  lemma {:induction false} UnharmedIntact(c: Config, s: State, ops: seq<Op>, x: nat)
    requires WellFormed(c) && Valid(s) && AllLegal(ops) && c.mode == Overwrite && x < FlashSize(c)
    requires Unharmed(c, Run(c, s, ops).dev.trace, Now(s), x)
    requires Coherent(c, s, ops, x)
    ensures Intact(c, s, ops, x)
    decreases |ops|
  {
    hide Step, Clears, Unharmed, Faithful;
    if |ops| > 0 {
      var s1 := Step(c, s, ops[0]);
      StepEvolves(c, s, ops[0]);
      RunEvolves(c, s1, ops[1..]);
      UnharmedPart(c, s1.dev.trace, Run(c, s, ops).dev.trace, Now(s), x);
      UnharmedFaithful(c, s, ops[0], x);
      UnharmedIntact(c, s1, ops[1..], x);
    }
  }

  /** What the trace alone tells, for every session and every schedule of failures: a flash byte that no
      failed command concerns, and that is never erased while cached, reads as in the plain memory. */
  lemma SessionAt(c: Config, s: State, ops: seq<Op>, x: nat)
    requires WellFormed(c) && Valid(s) && AllLegal(ops) && c.mode == Overwrite && x < FlashSize(c)
    requires Unharmed(c, Run(c, s, ops).dev.trace, Now(s), x)
    requires Coherent(c, s, ops, x)
    ensures ViewAt(Run(c, s, ops), x) == RefRunAt(c, ViewAt(s, x), ops, x)
  {
    UnharmedIntact(c, s, ops, x);
    IntactSession(c, s, ops, x);
  }

  // ----- sessions without failures -----

  /** The block left in the cache by `op`, when nothing fails. */
  function CachedAfter(op: Op, current: Address): Address
    requires Legal(op)
  {
    match op
    case Poke(a, bytes) => if |bytes| == 0 then current else BlockOf(Advance(a, |bytes| - 1))
    case Memset(a, n, _) => if n == 0 then current else BlockOf(Advance(a, n - 1))
    case Flush => INVALID
    case _ => current
  }

  /** `block` is a block of the geometry lying in a sector that `op` erases. */
  predicate ErasesBlock(c: Config, op: Op, block: Address)
  {
    block < FlashSize(c) && Clears(c, op, block)
  }

  /** A caller's discipline, visible from the list of operations alone: no erase is asked for while a
      block of the erased sectors is still in the cache. */
  predicate SafeErases(c: Config, ops: seq<Op>, current: Address)
    requires AllLegal(ops)
    decreases |ops|
  {
    |ops| > 0 ==>
      && !ErasesBlock(c, ops[0], current)
      && SafeErases(c, ops[1..], CachedAfter(ops[0], current))
  }

  lemma {:induction false} WriteBytesCurrent(c: Config, s: State, a: Address, bytes: seq<Byte>)
    requires Valid(s) && 0 < |bytes| <= ADDRESS_SPACE
    ensures WriteBytes(c, s, a, bytes).current == BlockOf(Advance(a, |bytes| - 1))
  {
    hide WriteByte, Select, BlockOf;
    var k := |bytes| - 1;
    assert bytes[..k + 1] == bytes;
    WriteBytesSnoc(c, s, a, bytes, k);
    WriteByteSelects(c, WriteBytes(c, s, a, bytes[..k]), Advance(a, k), bytes[k]);
  }

  lemma CurrentAfter(c: Config, s: State, op: Op)
    requires WellFormed(c) && Valid(s) && Legal(op) && Clean(c)
    ensures Step(c, s, op).current == CachedAfter(op, s.current)
  {
    hide WriteByte, WriteBytes, FillFragments, WriteBack, SectorNumber, BlockOf;
    match op
    case Poke(a, bytes) =>
      if |bytes| == 0 {
        WriteNothing(c, s, a, bytes);
      } else {
        WriteBytesCurrent(c, s, a, bytes);
      }
    case Memset(a, n, v) =>
      FillIsWrite(c, s, a, n, v);
      if n == 0 {
        WriteNothing(c, s, a, Filled(n, v));
      } else {
        WriteBytesCurrent(c, s, a, Filled(n, v));
      }
    case Flush =>
      if Pending(c, s) {
        WriteBackOutcome(c, s);
      } else {
        NothingPending(c, s);
      }
    case _ =>
  }

  /** All bytes of a cached block are erased by an operation or none is. */
  lemma ClearsWholeBlock(c: Config, s: State, op: Op, x: nat)
    requires WellFormed(c) && Valid(s) && x < FlashSize(c) && Cached(s, x) && Clears(c, op, x)
    ensures ErasesBlock(c, op, s.current)
  {
    BlockInOneSector(c.sectors, s.current);
  }

  lemma {:induction false} SafeIsCoherent(c: Config, s: State, ops: seq<Op>, x: nat)
    requires WellFormed(c) && Valid(s) && AllLegal(ops) && Clean(c) && x < FlashSize(c)
    requires SafeErases(c, ops, s.current)
    ensures Coherent(c, s, ops, x)
    decreases |ops|
  {
    hide Step, Clears, CachedAfter;
    if |ops| > 0 {
      if Cached(s, x) && Clears(c, ops[0], x) {
        ClearsWholeBlock(c, s, ops[0], x);
      }
      CurrentAfter(c, s, ops[0]);
      SafeIsCoherent(c, Step(c, s, ops[0]), ops[1..], x);
    }
  }

  /** When the environment never fails a command, no command concerning a flash byte fails. */
  lemma CleanIsUnharmed(c: Config, trace: seq<Event>, from: nat, x: nat)
    requires Clean(c) && x < FlashSize(c) && EventsOk(c, trace, 0)
    ensures Unharmed(c, trace, from, x)
  {
    SectorNumberCorrect(c.sectors, x);
    forall i | from <= i < |trace| && Concerns(c, trace[i].cmd, x) ensures trace[i].status == CMD_SUCCESS {
      assert EventOk(c, trace, i);
      if trace[i].cmd.Erase? {
        assert EventOk(c, trace, i - 1);
      }
    }
  }

  /** The states that sessions start from and lead to. */
  ghost predicate Reachable(c: Config, s: State)
  {
    Valid(s) && EventsOk(c, s.dev.trace, 0)
  }

  lemma RunReachable(c: Config, s: State, ops: seq<Op>)
    requires WellFormed(c) && Reachable(c, s) && AllLegal(ops)
    ensures Reachable(c, Run(c, s, ops))
  {
    hide Evolves, EventsOk;
    RunEvolves(c, s, ops);
    EvolvesSound(c, s, Run(c, s, ops));
  }

  /** Whole sessions: erases, pokes, memsets and flushes in any order and with any arguments leave
      flash and cache standing for exactly the plain memory, if no command fails and no sector is
      erased under a cached block. */
  lemma SessionRefines(c: Config, s: State, ops: seq<Op>)
    requires WellFormed(c) && Reachable(c, s) && AllLegal(ops)
    requires c.mode == Overwrite && Clean(c) && SafeErases(c, ops, s.current)
    ensures FlashView(c, Run(c, s, ops)) == RefRun(c, FlashView(c, s), ops)
  {
    hide EventsOk, Unharmed, ViewAt, SafeErases, Coherent;
    RunReachable(c, s, ops);
    forall x | 0 <= x < FlashSize(c)
      ensures ViewAt(Run(c, s, ops), x) == RefRunAt(c, ViewAt(s, x), ops, x)
    {
      SafeIsCoherent(c, s, ops, x);
      CleanIsUnharmed(c, Run(c, s, ops).dev.trace, Now(s), x);
      SessionAt(c, s, ops, x);
    }
  }

  /** Without failures a flush leaves in flash what flash and cache stood for. */
  lemma FlushCommits(c: Config, s: State)
    requires WellFormed(c) && Valid(s) && c.mode == Overwrite && Clean(c)
    ensures Step(c, s, Flush).current == INVALID
    ensures Step(c, s, Flush).dev.memory[..FlashSize(c)] == FlashView(c, s)
  {
    hide WriteBack;
    CurrentAfter(c, s, Flush);
    forall x | 0 <= x < FlashSize(c) ensures WriteBack(c, s).1.dev.memory[x] == FlashView(c, s)[x] {
      CommitView(c, s, x);
    }
  }

  /** A session closed by a flush leaves the flash itself equal to the plain memory. */
  lemma FlushedSession(c: Config, s: State, ops: seq<Op>)
    requires WellFormed(c) && Initial(s) && AllLegal(ops)
    requires c.mode == Overwrite && Clean(c) && SafeErases(c, ops, INVALID)
    ensures AllLegal(ops + [Flush])
    ensures Run(c, s, ops + [Flush]).current == INVALID
    ensures Run(c, s, ops + [Flush]).dev.memory[..FlashSize(c)] ==
            RefRun(c, s.dev.memory[..FlashSize(c)], ops)
  {
    hide Step, SafeErases;
    SessionRefines(c, s, ops);
    RunSplit(c, s, ops, [Flush]);
    var s1 := Run(c, s, ops);
    assert Run(c, s1, [Flush]) == Step(c, s1, Flush);
    assert FlashView(c, s) == s.dev.memory[..FlashSize(c)];
    FlushCommits(c, s1);
  }
}
