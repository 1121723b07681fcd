/** What one write-back and one erase do to the device, for every schedule of failures. */
module Outcome {
  import opened Words
  import opened Geometry
  import opened Iap
  import opened Cache

  /** The cache holds a block of the geometry: one that a write-back has to commit. */
  predicate Pending(c: Config, s: State)
  {
    s.current != INVALID && s.current < FlashSize(c)
  }

  function Now(s: State): nat
  {
    |s.dev.trace|
  }

  /** The environment lets the next two commands through. */
  predicate Accepted(c: Config, s: State)
  {
    c.schedule(Now(s)) == CMD_SUCCESS && c.schedule(Now(s) + 1) == CMD_SUCCESS
  }

  /** The commands of a write-back and their answers: the device itself refuses neither. */
  function WriteBackEvents(c: Config, s: State): seq<Event>
    requires Pending(c, s) && WellFormed(c) && Valid(s)
  {
    BlockInOneSector(c.sectors, s.current);
    var n := SectorNumber(c.sectors, s.current);
    if c.schedule(Now(s)) != CMD_SUCCESS then [Event(Prepare(n, n), c.schedule(Now(s)))]
    else [Event(Prepare(n, n), CMD_SUCCESS), Event(Copy(s.current, s.buffer, c.clock / 1000), c.schedule(Now(s) + 1))]
  }

  lemma OnlySectorTouched(sizes: seq<nat>, n: nat, dst: nat)
    requires n < |sizes| && Start(sizes, n) <= dst && dst + BLOCK_SIZE <= Start(sizes, n + 1)
    ensures SectorsTouched(sizes, dst, BLOCK_SIZE) == {n}
  {
    forall k: nat ensures Touches(sizes, k, dst, BLOCK_SIZE) <==> k == n {
      if k < n {
        StartMonotone(sizes, k + 1, n);
      } else if n < k < |sizes| {
        StartMonotone(sizes, n + 1, k);
      }
    }
  }

  lemma OneSectorBetween(n: nat)
    ensures SectorsBetween(n, n) == {n}
  {
    forall k: nat ensures Between(n, k, n) <==> k == n {
    }
  }

  /** Preparing the one sector of a pending block is enough for the copy that follows. */
  lemma CopyPassesChecks(c: Config, s: State, prepared: set<nat>)
    requires WellFormed(c) && Valid(s) && Pending(c, s)
    requires SectorNumber(c.sectors, s.current) in prepared
    ensures Check(c, prepared, CopyBlock(c, s)) == CMD_SUCCESS
    ensures SectorsTouched(c.sectors, s.current, BLOCK_SIZE) == {SectorNumber(c.sectors, s.current)}
  {
    BlockInOneSector(c.sectors, s.current);
    OnlySectorTouched(c.sectors, SectorNumber(c.sectors, s.current), s.current);
  }

  lemma NothingPending(c: Config, s: State)
    requires WellFormed(c) && Valid(s) && !Pending(c, s)
    ensures WriteBack(c, s) == (true, s.(current := INVALID))
  {
    if s.current != INVALID {
      SectorNumberCorrect(c.sectors, s.current);
    }
  }

  /** A pending block is committed exactly when the environment accepts both commands; otherwise
      only the trace and the protection change. */
  lemma WriteBackOutcome(c: Config, s: State)
    requires WellFormed(c) && Valid(s) && Pending(c, s)
    ensures WriteBack(c, s).0 <==> Accepted(c, s)
    ensures WriteBack(c, s).1.dev.trace == s.dev.trace + WriteBackEvents(c, s)
    ensures WriteBack(c, s).1.buffer == s.buffer
    ensures Accepted(c, s) ==>
              && WriteBack(c, s).1.current == INVALID
              && WriteBack(c, s).1.dev.memory == Programmed(c.mode, s.dev.memory, s.current, s.buffer)
              && WriteBack(c, s).1.dev.prepared == s.dev.prepared - {SectorNumber(c.sectors, s.current)}
    ensures !Accepted(c, s) ==>
              && WriteBack(c, s).1.current == s.current
              && WriteBack(c, s).1.dev.memory == s.dev.memory
              && WriteBack(c, s).1.dev.prepared ==
                   if c.schedule(Now(s)) == CMD_SUCCESS
                   then s.dev.prepared + {SectorNumber(c.sectors, s.current)} else s.dev.prepared
  {
    hide Start, SectorNumber, SectorsTouched, SectorsBetween, Programmed;
    var n := SectorNumber(c.sectors, s.current);
    BlockInOneSector(c.sectors, s.current);
    OneSectorBetween(n);
    CopyPassesChecks(c, s, s.dev.prepared + {n});
    assert Check(c, s.dev.prepared, Prepare(n, n)) == CMD_SUCCESS;
    var d1 := Execute(c, s.dev, Prepare(n, n));
    assert LastStatus(d1) == c.schedule(Now(s));
    if c.schedule(Now(s)) == CMD_SUCCESS {
      assert d1.prepared == s.dev.prepared + {n};
      var d2 := Execute(c, d1, CopyBlock(c, s));
      assert LastStatus(d2) == c.schedule(Now(s) + 1);
      assert d2.trace == s.dev.trace + WriteBackEvents(c, s);
      assert s.dev.prepared + {n} - {n} == s.dev.prepared - {n};
    }
  }

  // ----- erase -----

  /** What lets an erase through, as it stands before the call: the range names sectors in order, the
      environment accepts the second command, and the sectors are prepared, by the first command or
      still from an earlier one. */
  predicate EraseAnswered(c: Config, s: State, first: nat, last: nat)
  {
    && SectorRange(c, first, last)
    && c.schedule(Now(s) + 1) == CMD_SUCCESS
    && (c.schedule(Now(s)) == CMD_SUCCESS || SectorsBetween(first, last) <= s.dev.prepared)
  }

  lemma PrepareOutcome(c: Config, d: Device, first: nat, last: nat)
    ensures var d1 := Execute(c, d, Prepare(first, last));
            && d1.memory == d.memory
            && d1.trace == d.trace +
                 [Event(Prepare(first, last), Status(c, d.prepared, |d.trace|, Prepare(first, last)))]
            && d1.prepared == if SectorRange(c, first, last) && c.schedule(|d.trace|) == CMD_SUCCESS
                              then d.prepared + SectorsBetween(first, last) else d.prepared
  {
    hide SectorsBetween;
  }

  /** An erase issues both its commands, whatever the first one answers, and its last status is success
      exactly when the condition above held before; then it fills and protects its sectors, and
      otherwise it leaves memory alone. */
  lemma EraseOutcome(c: Config, s: State, first: nat, last: nat)
    ensures var t := EraseSectors(c, s, first, last);
            && t.buffer == s.buffer && t.current == s.current
            && t.dev.trace == s.dev.trace +
                 [Event(Prepare(first, last), Status(c, s.dev.prepared, Now(s), Prepare(first, last))),
                  Event(Erase(first, last, c.clock / 1000), LastStatus(t.dev))]
            && (LastStatus(t.dev) == CMD_SUCCESS <==> EraseAnswered(c, s, first, last))
            && (SectorRange(c, first, last) && c.schedule(Now(s)) == CMD_SUCCESS ==>
                  LastStatus(t.dev) == c.schedule(Now(s) + 1))
            && (EraseAnswered(c, s, first, last) ==>
                  && t.dev.memory == Erased(c.sectors, s.dev.memory, first, last)
                  && t.dev.prepared == s.dev.prepared - SectorsBetween(first, last))
            && (!EraseAnswered(c, s, first, last) ==>
                  && t.dev.memory == s.dev.memory
                  && t.dev.prepared ==
                       if SectorRange(c, first, last) && c.schedule(Now(s)) == CMD_SUCCESS
                       then s.dev.prepared + SectorsBetween(first, last) else s.dev.prepared)
  {
    hide SectorsBetween, Erased;
    var between := SectorsBetween(first, last);
    PrepareOutcome(c, s.dev, first, last);
    assert s.dev.prepared + between - between == s.dev.prepared - between;
  }

  /** An erased stretch, by sector number. */
  lemma ErasedBySector(sizes: seq<nat>, first: nat, last: nat, x: nat)
    requires first <= last < |sizes| && x < Total(sizes)
    ensures Start(sizes, first) <= x < Start(sizes, last + 1) <==>
            first <= SectorNumber(sizes, x) <= last
  {
    SectorNumberCorrect(sizes, x);
    var n := SectorNumber(sizes, x);
    assert InSector(sizes, n, x);
    if n < first {
      StartMonotone(sizes, n + 1, first);
    } else {
      StartMonotone(sizes, first, n);
    }
    if last < n {
      StartMonotone(sizes, last + 1, n);
    } else {
      StartMonotone(sizes, n + 1, last + 1);
    }
  }
}
