/** What an erase covers, in sectors and bytes, and when the cache hides it. */
module Erasing {
  import opened Words
  import opened Geometry
  import opened Iap
  import opened Cache
  import opened Outcome
  import opened Protocol
  import opened Refinement

  // ----- which bytes -----

  /** A non-empty range inside the geometry hits exactly the sectors that meet it, so it is covered. */
  lemma EraseHitsMeeting(c: Config, a: Address, n: Address, x: nat)
    requires 0 < n && a + n <= FlashSize(c) < ADDRESS_SPACE && x < FlashSize(c)
    ensures EraseHits(c, a, n, x) <==>
            exists y :: a <= y < a + n && SectorNumber(c.sectors, y) == SectorNumber(c.sectors, x)
  {
    hide SectorNumber;
    var last := a + n - 1;
    assert LastAddress(a, n) == last;
    SectorNumberMonotone(c.sectors, a, last);
    if EraseHits(c, a, n, x) {
      if x < a {
        SectorNumberMonotone(c.sectors, x, a);
        assert SectorNumber(c.sectors, a) == SectorNumber(c.sectors, x);
      } else if last < x {
        SectorNumberMonotone(c.sectors, last, x);
        assert SectorNumber(c.sectors, last) == SectorNumber(c.sectors, x);
      }
    }
    if y :| a <= y < a + n && SectorNumber(c.sectors, y) == SectorNumber(c.sectors, x) {
      SectorNumberMonotone(c.sectors, a, y);
      SectorNumberMonotone(c.sectors, y, last);
    }
  }

  /** An accepted erase fills exactly the hit flash bytes and changes no other byte of memory. */
  lemma EraseEffect(c: Config, s: State, a: Address, n: Address, x: nat)
    requires WellFormed(c) && Valid(s) && Accepted(c, s) && x < ADDRESS_SPACE
    ensures EraseRange(c, s, a, n).dev.memory[x] ==
            if x < FlashSize(c) && EraseHits(c, a, n, x) then ERASED else s.dev.memory[x]
  {
    hide EraseSectors, SectorNumber, SectorsBetween;
    var first, last := SectorNumber(c.sectors, a), SectorNumber(c.sectors, LastAddress(a, n));
    SectorNumberCorrect(c.sectors, a);
    SectorNumberCorrect(c.sectors, LastAddress(a, n));
    if 0 <= first && 0 <= last {
      EraseOutcome(c, s, first, last);
      if first <= last {
        if x < FlashSize(c) {
          ErasedBySector(c.sectors, first, last, x);
        } else {
          StartMonotone(c.sectors, last + 1, |c.sectors|);
        }
      }
    }
  }

  /** No command at all is issued exactly when an end of the range lies outside the geometry. */
  lemma EraseOutside(c: Config, s: State, a: Address, n: Address)
    ensures EraseRange(c, s, a, n) == s <==>
            FlashSize(c) <= a || FlashSize(c) <= LastAddress(a, n)
  {
    hide EraseSectors, SectorNumber;
    SectorNumberCorrect(c.sectors, a);
    SectorNumberCorrect(c.sectors, LastAddress(a, n));
    var first, last := SectorNumber(c.sectors, a), SectorNumber(c.sectors, LastAddress(a, n));
    if 0 <= first && 0 <= last {
      EraseOutcome(c, s, first, last);
      assert |EraseSectors(c, s, first, last).dev.trace| == |s.dev.trace| + 2;
    }
  }

  predicate StartsSector(sizes: seq<nat>, a: nat)
  {
    exists k :: 0 <= k < |sizes| && Start(sizes, k) == a
  }

  /** An empty range is not always harmless: it erases the whole sector of `a`, unless `a` is outside
      the geometry or the first byte of a sector. */
  lemma EmptyEraseExact(c: Config, a: Address, x: nat)
    requires WellFormed(c) && x < FlashSize(c)
    ensures EraseHits(c, a, 0, x) <==>
            && a < FlashSize(c)
            && !StartsSector(c.sectors, a)
            && SectorNumber(c.sectors, x) == SectorNumber(c.sectors, a)
  {
    hide SectorNumber;
    var k := SectorNumber(c.sectors, a);
    SectorNumberCorrect(c.sectors, a);
    SectorNumberCorrect(c.sectors, x);
    if a == 0 {
      assert LastAddress(a, 0) == ADDRESS_SPACE - 1;
      SectorNumberCorrect(c.sectors, ADDRESS_SPACE - 1);
      if |c.sectors| > 0 {
        assert Start(c.sectors, 0) == a;
      }
    } else if a < FlashSize(c) {
      assert LastAddress(a, 0) == a - 1;
      assert InSector(c.sectors, k, a);
      SectorNumberCorrect(c.sectors, a - 1);
      if StartsSector(c.sectors, a) {
        var j :| 0 <= j < |c.sectors| && Start(c.sectors, j) == a;
        SectorNumberOnto(c.sectors, j);
        SectorNumberOnto(c.sectors, j - 1);
      } else {
        assert a != Start(c.sectors, k);
        assert InSector(c.sectors, k, a - 1);
      }
    }
  }

  /** Such an empty range exists: on the LPC2146 map, erasing 0 bytes at address 1 clears byte 0. */
  lemma EmptyEraseExample(c: Config)
    requires c.sectors == Expand(GEOMETRY3)
    ensures EraseHits(c, 1, 0, 0)
  {
    TablesUsable();
    var sizes := c.sectors;
    assert sizes[0] == 0x1000;
    assert Start(sizes, 1) == Start(sizes, 0) + sizes[0];
    SectorNumberCorrect(sizes, 0);
    SectorNumberCorrect(sizes, 1);
    assert InSector(sizes, 0, 0) && InSector(sizes, 0, 1);
    if StartsSector(sizes, 1) {
      var k :| 0 <= k < |sizes| && Start(sizes, k) == 1;
      StartAligned(sizes, k);
      assert false;
    }
    EmptyEraseExact(c, 1, 0);
  }

  /** Erasing everything is erasing the range of the whole geometry, command for command, exactly when
      there is a sector at all. */
  lemma EraseAllIsErase(c: Config, s: State)
    requires WellFormed(c)
    ensures EraseAll(c, s) == EraseRange(c, s, 0, FlashSize(c)) <==> |c.sectors| > 0
  {
    hide EraseSectors, SectorNumber;
    if |c.sectors| > 0 {
      var last := |c.sectors| - 1;
      SectorNumberOnto(c.sectors, 0);
      SectorNumberOnto(c.sectors, last);
      assert LastAddress(0, FlashSize(c)) == FlashSize(c) - 1;
    } else {
      EraseOutside(c, s, 0, 0);
      EraseOutcome(c, s, 0, (|c.sectors| - 1) % ADDRESS_SPACE);
      assert |EraseAll(c, s).dev.trace| == |s.dev.trace| + 2;
    }
  }

  // ----- erases and the cache -----

  predicate Blank(s: State)
  {
    forall k :: 0 <= k < |s.buffer| ==> s.buffer[k] == ERASED
  }

  lemma AcceptedErase(c: Config, s: State, op: Op, x: nat)
    requires WellFormed(c) && Valid(s) && Accepted(c, s) && x < FlashSize(c)
    requires op.EraseOp? || op.EraseAllOp?
    ensures var t := Step(c, s, op);
            && t.buffer == s.buffer && t.current == s.current
            && t.dev.memory[x] == RefStep(c, s.dev.memory[x], op, x)
  {
    hide EraseSectors, SectorNumber;
    match op
    case EraseOp(a, n) =>
      EraseEffect(c, s, a, n, x);
      EraseOutcome(c, s, if SectorNumber(c.sectors, a) < 0 then 0 else SectorNumber(c.sectors, a),
                   if SectorNumber(c.sectors, LastAddress(a, n)) < 0 then 0
                   else SectorNumber(c.sectors, LastAddress(a, n)));
    case EraseAllOp =>
      SectorNumberCorrect(c.sectors, x);
      EraseAllIsErase(c, s);
      EraseEffect(c, s, 0, FlashSize(c), x);
      EraseOutcome(c, s, 0, (|c.sectors| - 1) % ADDRESS_SPACE);
      EraseHitsMeeting(c, 0, FlashSize(c), x);
  }

  /** For every schedule of failures: an erase is seen in flash and cache exactly when each byte it clears
      read 0xFF already, or was not cached while the erase went through. The result 1 is returned
      in every case. */
  lemma EraseSeenExactly(c: Config, s: State, op: Op)
    requires WellFormed(c) && Valid(s) && (op.EraseOp? || op.EraseAllOp?)
    ensures (forall x :: 0 <= x < FlashSize(c) < ADDRESS_SPACE ==>
               ViewAt(Step(c, s, op), x) == RefStep(c, ViewAt(s, x), op, x))
            <==>
            (forall x :: 0 <= x < FlashSize(c) < ADDRESS_SPACE && Clears(c, op, x) ==>
               ViewAt(s, x) == ERASED || (!Cached(s, x) && OpAnswered(c, s, op)))
  {
    hide Step, Clears, OpAnswered, ViewAt, RefStep, Cached;
    forall x | 0 <= x < FlashSize(c)
      ensures ViewAt(Step(c, s, op), x) == RefStep(c, ViewAt(s, x), op, x) <==>
              (Clears(c, op, x) ==> ViewAt(s, x) == ERASED || (!Cached(s, x) && OpAnswered(c, s, op)))
    {
      EraseExact(c, s, op, x);
    }
  }

  /** The smallest silent failure: the erase command fails, nothing is erased, and the result is 1. */
  lemma SilentEraseExample(c: Config, s: State)
    requires WellFormed(c) && Initial(s) && 0 < FlashSize(c)
    requires c.schedule(1) != CMD_SUCCESS && s.dev.memory[0] != ERASED
    ensures ViewAt(Step(c, s, EraseAllOp), 0) != RefStep(c, ViewAt(s, 0), EraseAllOp, 0)
    ensures Step(c, s, EraseAllOp).dev.memory == s.dev.memory
  {
    hide EraseSectors;
    EraseExact(c, s, EraseAllOp, 0);
    EraseOutcome(c, s, 0, (|c.sectors| - 1) % ADDRESS_SPACE);
  }

  lemma ClearsBlockwise(c: Config, s: State, op: Op, x: nat)
    requires WellFormed(c) && Valid(s) && x < FlashSize(c) && Cached(s, x)
    ensures Clears(c, op, x) <==> ErasesBlock(c, op, s.current)
  {
    BlockInOneSector(c.sectors, s.current);
  }

  /** An accepted erase is seen through the cache exactly when it does not erase the sector of a cached
      block, or that block is blank: the erase does not invalidate the cache. */
  lemma AcceptedEraseSeen(c: Config, s: State, op: Op)
    requires WellFormed(c) && Valid(s) && Accepted(c, s) && (op.EraseOp? || op.EraseAllOp?)
    ensures (forall x :: 0 <= x < FlashSize(c) < ADDRESS_SPACE ==>
               ViewAt(Step(c, s, op), x) == RefStep(c, ViewAt(s, x), op, x))
            <==> !ErasesBlock(c, op, s.current) || Blank(s)
  {
    hide Step, Clears;
    var t := Step(c, s, op);
    forall x | 0 <= x < FlashSize(c)
      ensures Cached(t, x) == Cached(s, x)
      ensures ViewAt(t, x) == if Cached(s, x) then s.buffer[x - s.current] else RefStep(c, ViewAt(s, x), op, x)
      ensures Cached(s, x) ==> (Clears(c, op, x) <==> ErasesBlock(c, op, s.current))
    {
      AcceptedErase(c, s, op, x);
      if Cached(s, x) {
        ClearsBlockwise(c, s, op, x);
      }
    }
    if ErasesBlock(c, op, s.current) && !Blank(s) {
      BlockInOneSector(c.sectors, s.current);
      var k :| 0 <= k < |s.buffer| && s.buffer[k] != ERASED;
      assert Cached(s, s.current + k) && RefStep(c, ViewAt(s, s.current + k), op, s.current + k) == ERASED;
    }
  }

  /** A block erased under the cache comes back: the next flush writes the old buffer over it. */
  lemma StaleBlockReturns(c: Config, s: State, op: Op, k: nat)
    requires WellFormed(c) && Valid(s) && Clean(c) && c.mode == Overwrite
    requires op.EraseOp? || op.EraseAllOp?
    requires ErasesBlock(c, op, s.current) && k < BLOCK_SIZE
    ensures s.current + k < ADDRESS_SPACE
    ensures Step(c, Step(c, s, op), Flush).dev.memory[s.current + k] == s.buffer[k]
  {
    BlockInOneSector(c.sectors, s.current);
    var x := s.current + k;
    var t := Step(c, s, op);
    AcceptedErase(c, s, op, x);
    hide Step, WriteBack;
    FlushCommits(c, t);
    assert Step(c, t, Flush).dev.memory[..FlashSize(c)][x] == FlashView(c, t)[x];
  }

  /** The smallest such session: poke a byte, erase its sector, flush. */
  lemma StaleBlockExample(c: Config, s: State, b: Byte)
    requires WellFormed(c) && Initial(s) && Clean(c) && c.mode == Overwrite && 0 < FlashSize(c)
    ensures Step(c, Step(c, WriteByte(c, s, 0, b), EraseOp(0, 1)), Flush).dev.memory[0] == b
    ensures RefRunAt(c, s.dev.memory[0], [Poke(0, [b]), EraseOp(0, 1), Flush], 0) == ERASED
  {
    var s1 := WriteByte(c, s, 0, b);
    assert s1.current == 0 && s1.buffer[0] == b;
    SectorNumberCorrect(c.sectors, 0);
    hide SectorNumber, WriteByte, Step;
    assert LastAddress(0, 1) == 0;
    assert Clears(c, EraseOp(0, 1), 0);
    StaleBlockReturns(c, s1, EraseOp(0, 1), 0);
    var ops := [Poke(0, [b]), EraseOp(0, 1), Flush];
    assert ops[1..] == [EraseOp(0, 1), Flush] && ops[1..][1..] == [Flush] && [Flush][1..] == [];
    assert RefRunAt(c, ERASED, [Flush], 0) == ERASED;
  }
}
