/** What every loader operation guarantees about the commands it issues and the memory it may change,
    for every schedule of failures, every argument and every session. */
module Protocol {
  import opened Words
  import opened Geometry
  import opened Iap
  import opened Cache
  import opened Outcome

  /** A copy commits one aligned block lying in one sector, right after that sector was successfully
      prepared and with the clock in kHz, and only the environment can make it fail. */
  predicate CopyOk(c: Config, trace: seq<Event>, i: nat, dst: nat, data: seq<Byte>, khz: nat)
    requires i < |trace|
  {
    var n := SectorNumber(c.sectors, dst);
    && Aligned(dst) && |data| == BLOCK_SIZE && khz == c.clock / 1000
    && 0 <= n < |c.sectors|
    && Start(c.sectors, n) <= dst && dst + BLOCK_SIZE <= Start(c.sectors, n + 1)
    && 0 < i && trace[i - 1] == Event(Prepare(n, n), CMD_SUCCESS)
    && trace[i].status == c.schedule(i)
  }

  /** A prepare names existing sectors unless its range is reversed (or there are no sectors at all). */
  predicate PrepareOk(c: Config, trace: seq<Event>, i: nat, first: nat, last: nat)
    requires i < |trace|
  {
    && (first <= last && 0 < |c.sectors| ==> last < |c.sectors|)
    && trace[i].status == if SectorRange(c, first, last) then c.schedule(i) else INVALID_SECTOR
  }

  /** An erase follows a prepare of the same sectors, and when that succeeded only the environment can
      make the erase fail. */
  predicate EraseOk(c: Config, trace: seq<Event>, i: nat, first: nat, last: nat, khz: nat)
    requires i < |trace|
  {
    && 0 < i && trace[i - 1].cmd == Prepare(first, last) && khz == c.clock / 1000
    && (trace[i - 1].status == CMD_SUCCESS ==> trace[i].status == c.schedule(i))
    && (trace[i].status == CMD_SUCCESS ==> SectorRange(c, first, last))
  }

  predicate EventOk(c: Config, trace: seq<Event>, i: nat)
    requires i < |trace|
  {
    match trace[i].cmd
    case Prepare(first, last) => PrepareOk(c, trace, i, first, last)
    case Copy(dst, data, khz) => CopyOk(c, trace, i, dst, data, khz)
    case Erase(first, last, khz) => EraseOk(c, trace, i, first, last, khz)
  }

  predicate EventsOk(c: Config, trace: seq<Event>, from: nat)
  {
    forall i :: from <= i < |trace| ==> EventOk(c, trace, i)
  }

  predicate SameBeyondFlash(c: Config, m: seq<Byte>, m': seq<Byte>)
  {
    |m| == |m'| && forall x :: FlashSize(c) <= x < |m| ==> m'[x] == m[x]
  }

  /** `t` comes after `s`: commands were appended, all of them in order; memory past the flash is the
      same; and if nothing failed, no sector is left unprotected that was protected before. */
  ghost predicate Evolves(c: Config, s: State, t: State)
  {
    && s.dev.trace <= t.dev.trace
    && EventsOk(c, t.dev.trace, |s.dev.trace|)
    && SameBeyondFlash(c, s.dev.memory, t.dev.memory)
    && (Clean(c) ==> t.dev.prepared <= s.dev.prepared)
  }

  lemma EvolvesRefl(c: Config, s: State, t: State)
    requires s.dev == t.dev
    ensures Evolves(c, s, t)
  {
  }

  lemma EventOkPrefix(c: Config, trace: seq<Event>, longer: seq<Event>, i: nat)
    requires trace <= longer && i < |trace| && EventOk(c, trace, i)
    ensures EventOk(c, longer, i)
  {
    hide Start, SectorNumber;
    assert longer[i] == trace[i] && (0 < i ==> longer[i - 1] == trace[i - 1]);
  }

  lemma EvolvesTrans(c: Config, s: State, t: State, u: State)
    requires Evolves(c, s, t) && Evolves(c, t, u)
    ensures Evolves(c, s, u)
  {
    hide CopyOk, PrepareOk, EraseOk;
    var trace := u.dev.trace;
    forall i | |s.dev.trace| <= i < |trace| ensures EventOk(c, trace, i) {
      if i < |t.dev.trace| {
        EventOkPrefix(c, t.dev.trace, trace, i);
      }
    }
  }

  /** Sound traces stay sound. */
  lemma EvolvesSound(c: Config, s: State, t: State)
    requires EventsOk(c, s.dev.trace, 0) && Evolves(c, s, t)
    ensures EventsOk(c, t.dev.trace, 0)
  {
    hide CopyOk, PrepareOk, EraseOk;
    var trace := t.dev.trace;
    forall i | 0 <= i < |trace| ensures EventOk(c, trace, i) {
      if i < |s.dev.trace| {
        EventOkPrefix(c, s.dev.trace, trace, i);
      }
    }
  }

  // ----- the three places that issue commands -----

  lemma WriteBackEvolves(c: Config, s: State)
    requires WellFormed(c) && Valid(s)
    ensures Evolves(c, s, WriteBack(c, s).1)
  {
    if !Pending(c, s) {
      NothingPending(c, s);
    } else {
      hide WriteBack;
      WriteBackOutcome(c, s);
      BlockInOneSector(c.sectors, s.current);
      var t := WriteBack(c, s).1;
      var k := Now(s);
      assert t.dev.trace[k] == WriteBackEvents(c, s)[0];
      assert EventOk(c, t.dev.trace, k);
      if |t.dev.trace| > k + 1 {
        assert t.dev.trace[k + 1] == WriteBackEvents(c, s)[1];
        assert EventOk(c, t.dev.trace, k + 1);
      }
    }
  }

  lemma EraseRefused(c: Config, s: State, first: nat, last: nat)
    requires !SectorRange(c, first, last)
    ensures LastStatus(EraseSectors(c, s, first, last).dev) == INVALID_SECTOR
    ensures EraseSectors(c, s, first, last).dev.prepared == s.dev.prepared
    ensures EraseSectors(c, s, first, last).dev.memory == s.dev.memory
  {
  }

  lemma EraseSectorsEvolves(c: Config, s: State, first: nat, last: nat)
    requires WellFormed(c)
    requires |c.sectors| > 0 ==> first < |c.sectors| && last < |c.sectors|
    ensures Evolves(c, s, EraseSectors(c, s, first, last))
  {
    hide EraseSectors, SectorsBetween;
    EraseOutcome(c, s, first, last);
    var t := EraseSectors(c, s, first, last);
    var k := Now(s);
    if SectorRange(c, first, last) {
      StartMonotone(c.sectors, last + 1, |c.sectors|);
    } else {
      EraseRefused(c, s, first, last);
    }
    assert t.dev.trace[k].cmd == Prepare(first, last);
    assert EventOk(c, t.dev.trace, k);
    assert t.dev.trace[k + 1].cmd == Erase(first, last, c.clock / 1000);
    assert EventOk(c, t.dev.trace, k + 1);
  }

  // ----- operations and sessions -----

  lemma WriteByteEvolves(c: Config, s: State, a: Address, b: Byte)
    requires WellFormed(c) && Valid(s)
    ensures Evolves(c, s, WriteByte(c, s, a, b))
  {
    hide WriteBack, Evolves;
    WriteBackEvolves(c, s);
    if s.current == BlockOf(a) {
      EvolvesRefl(c, s, WriteByte(c, s, a, b));
    } else {
      var s1 := WriteBack(c, s).1;
      EvolvesRefl(c, s1, WriteByte(c, s, a, b));
      EvolvesTrans(c, s, s1, WriteByte(c, s, a, b));
    }
  }

  lemma {:induction false} WriteBytesEvolves(c: Config, s: State, a: Address, bytes: seq<Byte>, k: nat)
    requires WellFormed(c) && Valid(s) && k <= |bytes| <= ADDRESS_SPACE
    ensures Evolves(c, s, WriteBytes(c, s, a, bytes[..k]))
  {
    hide WriteByte, Evolves, WriteBytes;
    if k == 0 {
      WriteNothing(c, s, a, bytes[..0]);
      EvolvesRefl(c, s, s);
    } else {
      WriteBytesEvolves(c, s, a, bytes, k - 1);
      var s1 := WriteBytes(c, s, a, bytes[..k - 1]);
      WriteBytesSnoc(c, s, a, bytes, k - 1);
      WriteByteEvolves(c, s1, Advance(a, k - 1), bytes[k - 1]);
      EvolvesTrans(c, s, s1, WriteBytes(c, s, a, bytes[..k]));
    }
  }

  lemma StepEvolves(c: Config, s: State, op: Op)
    requires WellFormed(c) && Valid(s) && Legal(op)
    ensures Evolves(c, s, Step(c, s, op))
  {
    hide WriteByte, Evolves, WriteBytes, FillFragments, EraseSectors, WriteBack, SectorFrom;
    match op
    case Poke(a, bytes) =>
      WriteBytesEvolves(c, s, a, bytes, |bytes|);
      assert bytes[..|bytes|] == bytes;
    case Memset(a, n, v) =>
      FillIsWrite(c, s, a, n, v);
      WriteBytesEvolves(c, s, a, Filled(n, v), n);
      assert Filled(n, v)[..n] == Filled(n, v);
    case EraseOp(a, n) =>
      var last := LastAddress(a, n);
      SectorNumberCorrect(c.sectors, a);
      SectorNumberCorrect(c.sectors, last);
      if SectorNumber(c.sectors, a) < 0 || SectorNumber(c.sectors, last) < 0 {
        EvolvesRefl(c, s, s);
      } else {
        EraseSectorsEvolves(c, s, SectorNumber(c.sectors, a), SectorNumber(c.sectors, last));
      }
    case EraseAllOp =>
      EraseSectorsEvolves(c, s, 0, (|c.sectors| - 1) % ADDRESS_SPACE);
    case Flush =>
      WriteBackEvolves(c, s);
  }

  /** Every session, with any arguments and any failures, only appends well-ordered commands and
      changes nothing past the end of flash. */
  lemma {:induction false} RunEvolves(c: Config, s: State, ops: seq<Op>)
    requires WellFormed(c) && Valid(s) && AllLegal(ops)
    ensures Evolves(c, s, Run(c, s, ops))
    decreases |ops|
  {
    hide Step, Evolves;
    if |ops| == 0 {
      EvolvesRefl(c, s, s);
    } else {
      var s1 := Step(c, s, ops[0]);
      StepEvolves(c, s, ops[0]);
      RunEvolves(c, s1, ops[1..]);
      EvolvesTrans(c, s, s1, Run(c, s, ops));
    }
  }

  /** The state at power-on: empty cache, nothing prepared, no command issued yet. */
  predicate Initial(s: State)
  {
    Valid(s) && s.current == INVALID && s.dev.prepared == {} && s.dev.trace == []
  }

  /** Safety of the command protocol over every run: each copy in the trace of any session directly
      follows a successful prepare of the one sector holding its whole aligned block, and is never
      refused by the device; each erase directly follows a prepare of the same sectors. */
  lemma ProtocolSafety(c: Config, s: State, ops: seq<Op>, i: nat)
    requires WellFormed(c) && Initial(s) && AllLegal(ops)
    requires i < |Run(c, s, ops).dev.trace|
    ensures var trace := Run(c, s, ops).dev.trace;
            match trace[i].cmd
            case Prepare(first, last) => PrepareOk(c, trace, i, first, last)
            case Copy(dst, data, khz) => CopyOk(c, trace, i, dst, data, khz)
            case Erase(first, last, khz) => EraseOk(c, trace, i, first, last, khz)
  {
    RunEvolves(c, s, ops);
    assert EventOk(c, Run(c, s, ops).dev.trace, i);
  }

  /** When nothing fails, the device is fully write-protected again after every session. */
  lemma CleanSessionsProtect(c: Config, s: State, ops: seq<Op>)
    requires WellFormed(c) && Initial(s) && AllLegal(ops) && Clean(c)
    ensures Run(c, s, ops).dev.prepared == {}
  {
    RunEvolves(c, s, ops);
  }

  /** No session changes memory past the end of the geometry. */
  lemma FlashFrame(c: Config, s: State, ops: seq<Op>, x: nat)
    requires WellFormed(c) && Valid(s) && AllLegal(ops) && FlashSize(c) <= x < ADDRESS_SPACE
    ensures Run(c, s, ops).dev.memory[x] == s.dev.memory[x]
  {
    RunEvolves(c, s, ops);
  }
}
