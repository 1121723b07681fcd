/** Exactly which commands each operation issues, with which answers, and which sectors it leaves
    unprotected, for every schedule of failures. */
module Commands {
  import opened Words
  import opened Geometry
  import opened Iap
  import opened Cache
  import opened Outcome
  import opened Refinement

  // ----- write-backs -----

  /** The commands of one attempt to write the cached block back: none unless it lies in the geometry. */
  function Attempt(c: Config, s: State): seq<Event>
    requires WellFormed(c) && Valid(s)
  {
    if Pending(c, s) then WriteBackEvents(c, s) else []
  }

  /** An attempt issues one command when its prepare fails and two otherwise, all with the answers of the
      schedule: a prepare of the one sector, then a copy of the whole buffer to the block's address. */
  lemma AttemptCommands(c: Config, s: State)
    requires WellFormed(c) && Valid(s)
    ensures !Pending(c, s) ==> Attempt(c, s) == []
    ensures Pending(c, s) && c.schedule(Now(s)) != 0 ==>
              exists n :: InSector(c.sectors, n, s.current) &&
                Attempt(c, s) == [Event(Prepare(n, n), c.schedule(Now(s)))]
    ensures Pending(c, s) && c.schedule(Now(s)) == 0 ==>
              exists n :: InSector(c.sectors, n, s.current) &&
                Attempt(c, s) == [Event(Prepare(n, n), 0),
                                  Event(Copy(s.current, s.buffer, c.clock / 1000), c.schedule(Now(s) + 1))]
  {
    SectorNumberCorrect(c.sectors, s.current);
    if Pending(c, s) {
      assert InSector(c.sectors, SectorNumber(c.sectors, s.current), s.current);
    }
  }

  /** Sector `k` is unprotected after the attempt. */
  predicate OpenAfterAttempt(c: Config, s: State, k: nat)
    requires WellFormed(c) && Valid(s)
  {
    if Pending(c, s) && InSector(c.sectors, k, s.current) && c.schedule(Now(s)) == 0
    then c.schedule(Now(s) + 1) != 0
    else k in s.dev.prepared
  }

  lemma WriteBackCommands(c: Config, s: State)
    requires WellFormed(c) && Valid(s)
    ensures WriteBack(c, s).1.dev.trace == s.dev.trace + Attempt(c, s)
    ensures forall k: nat :: k in WriteBack(c, s).1.dev.prepared <==> OpenAfterAttempt(c, s, k)
  {
    hide WriteBack, SectorNumber;
    if Pending(c, s) {
      WriteBackOutcome(c, s);
      SectorNumberCorrect(c.sectors, s.current);
    } else {
      NothingPending(c, s);
    }
  }

  lemma FlushCommands(c: Config, s: State)
    requires WellFormed(c) && Valid(s)
    ensures Step(c, s, Flush).dev.trace == s.dev.trace + Attempt(c, s)
    ensures forall k: nat :: k in Step(c, s, Flush).dev.prepared <==> OpenAfterAttempt(c, s, k)
  {
    hide WriteBack;
    WriteBackCommands(c, s);
  }

  // ----- pokes and memsets -----

  /** One turn of the poke loop attempts one write-back when it changes the block, and else none. */
  lemma WriteByteCommands(c: Config, s: State, a: Address, b: Byte)
    requires WellFormed(c) && Valid(s)
    ensures WriteByte(c, s, a, b).dev.trace ==
            s.dev.trace + if s.current != BlockOf(a) then Attempt(c, s) else []
    ensures forall k: nat :: k in WriteByte(c, s, a, b).dev.prepared <==>
              if s.current != BlockOf(a) then OpenAfterAttempt(c, s, k) else k in s.dev.prepared
  {
    hide WriteBack, Attempt;
    WriteBackCommands(c, s);
  }

  /** The `k`-th byte of a write to `a` changes the cached block: the first does when another block is
      cached before, any later one when it starts a block. */
  predicate ChangesBlock(s: State, a: Address, k: nat)
    requires k < ADDRESS_SPACE
  {
    if k == 0 then s.current != BlockOf(a) else Advance(a, k) % 0x1000 == 0
  }

  lemma NextBlock(a: Address)
    ensures BlockOf(a) != BlockOf(Advance(a, 1)) <==> Advance(a, 1) % 0x1000 == 0
  {
  }

  lemma BlockChange(a: Address, k: nat)
    requires 0 < k < ADDRESS_SPACE
    ensures BlockOf(Advance(a, k - 1)) != BlockOf(Advance(a, k)) <==> Advance(a, k) % 0x1000 == 0
  {
    AdvanceStep(a, k - 1);
    NextBlock(Advance(a, k - 1));
  }

  /** The `k`-th byte of a poke, for every schedule: the commands it adds and the sectors left open. */
  lemma PokeTurn(c: Config, s: State, a: Address, bytes: seq<Byte>, k: nat)
    requires WellFormed(c) && Valid(s) && k < |bytes| < ADDRESS_SPACE
    ensures var s1, t := WriteBytes(c, s, a, bytes[..k]), WriteBytes(c, s, a, bytes[..k + 1]);
            && t.dev.trace == s1.dev.trace + (if ChangesBlock(s, a, k) then Attempt(c, s1) else [])
            && forall n: nat :: n in t.dev.prepared <==>
                 if ChangesBlock(s, a, k) then OpenAfterAttempt(c, s1, n) else n in s1.dev.prepared
  {
    hide WriteByte, WriteBytes, Attempt, BlockOf, OpenAfterAttempt;
    var s1 := WriteBytes(c, s, a, bytes[..k]);
    WriteBytesSnoc(c, s, a, bytes, k);
    WriteByteCommands(c, s1, Advance(a, k), bytes[k]);
    if k == 0 {
      WriteNothing(c, s, a, bytes[..0]);
      AdvanceStep(a, 0);
    } else {
      WriteBytesCurrent(c, s, a, bytes[..k]);
      BlockChange(a, k);
    }
  }

  /** The commands of the first `k` bytes of a poke: one attempt for each change of block. */
  function PokeEvents(c: Config, s: State, a: Address, bytes: seq<Byte>, k: nat): seq<Event>
    requires WellFormed(c) && Valid(s) && k <= |bytes| < ADDRESS_SPACE
  {
    if k == 0 then []
    else
      PokeEvents(c, s, a, bytes, k - 1) +
      if ChangesBlock(s, a, k - 1) then Attempt(c, WriteBytes(c, s, a, bytes[..k - 1])) else []
  }

  lemma {:induction false} PokeCommands(c: Config, s: State, a: Address, bytes: seq<Byte>, k: nat)
    requires WellFormed(c) && Valid(s) && k <= |bytes| < ADDRESS_SPACE
    ensures WriteBytes(c, s, a, bytes[..k]).dev.trace == s.dev.trace + PokeEvents(c, s, a, bytes, k)
    decreases k
  {
    hide WriteBytes, Attempt, ChangesBlock;
    if k == 0 {
      WriteNothing(c, s, a, bytes[..0]);
    } else {
      PokeCommands(c, s, a, bytes, k - 1);
      PokeTurn(c, s, a, bytes, k - 1);
    }
  }

  /** For every schedule of failures, the trace of a whole poke or memset. */
  lemma WriteCommands(c: Config, s: State, op: Op)
    requires WellFormed(c) && Valid(s) && Legal(op) && (op.Poke? || op.Memset?)
    ensures var bytes := if op.Poke? then op.bytes else Filled(op.length, op.value);
            Step(c, s, op).dev.trace == s.dev.trace + PokeEvents(c, s, op.address, bytes, |bytes|)
  {
    hide WriteBytes, FillFragments, PokeEvents;
    match op
    case Poke(a, bytes) =>
      assert bytes[..|bytes|] == bytes;
      PokeCommands(c, s, a, bytes, |bytes|);
    case Memset(a, n, v) =>
      FillIsWrite(c, s, a, n, v);
      assert Filled(n, v)[..n] == Filled(n, v);
      PokeCommands(c, s, a, Filled(n, v), n);
  }

  // ----- erases -----

  /** The answers to the two commands of an erase of sectors `first` to `last`. */
  function PrepareAnswer(c: Config, s: State, first: nat, last: nat): nat
  {
    if first <= last < |c.sectors| then c.schedule(Now(s)) else 7
  }

  function EraseAnswer(c: Config, s: State, first: nat, last: nat): nat
  {
    if !(first <= last < |c.sectors|) then 7
    else if c.schedule(Now(s)) == 0 || forall k: nat :: first <= k <= last ==> k in s.dev.prepared
    then c.schedule(Now(s) + 1) else 9
  }

  /** `t` comes from `s` by one prepare and one erase of sectors `first` to `last`. */
  ghost predicate OneErase(c: Config, s: State, t: State, first: nat, last: nat)
  {
    var answer := EraseAnswer(c, s, first, last);
    && t.buffer == s.buffer && t.current == s.current
    && t.dev.trace == s.dev.trace + [Event(Prepare(first, last), PrepareAnswer(c, s, first, last)),
                                     Event(Erase(first, last, c.clock / 1000), answer)]
    && (forall k: nat :: k in t.dev.prepared <==>
         if first <= k <= last < |c.sectors| && answer == 0 then false
         else if first <= k <= last < |c.sectors| && c.schedule(Now(s)) == 0 then true
         else k in s.dev.prepared)
    && |t.dev.memory| == |s.dev.memory|
    && (forall x :: 0 <= x < |s.dev.memory| ==>
         t.dev.memory[x] ==
         if answer == 0 && first <= last < |c.sectors| && Start(c.sectors, first) <= x < Start(c.sectors, last + 1)
         then 0xFF else s.dev.memory[x])
  }

  lemma EraseStatus(c: Config, s: State, first: nat, last: nat)
    ensures LastStatus(EraseSectors(c, s, first, last).dev) ==
            if !SectorRange(c, first, last) then 7
            else if c.schedule(Now(s)) == 0 || SectorsBetween(first, last) <= s.dev.prepared
            then c.schedule(Now(s) + 1) else 9
  {
    hide SectorsBetween;
    PrepareOutcome(c, s.dev, first, last);
  }

  lemma EraseSectorsCommands(c: Config, s: State, first: nat, last: nat)
    ensures OneErase(c, s, EraseSectors(c, s, first, last), first, last)
  {
    EraseOutcome(c, s, first, last);
    hide EraseSectors;
    assert SectorsBetween(first, last) <= s.dev.prepared <==>
           forall k: nat :: first <= k <= last ==> k in s.dev.prepared by {
      forall k: nat | first <= k <= last ensures k in SectorsBetween(first, last) {
      }
    }
    EraseStatus(c, s, first, last);
  }

  /** The last address of a range, in plain arithmetic. */
  lemma LastAddressCases(a: Address, n: Address)
    ensures LastAddress(a, n) ==
            if a == 0 && n == 0 then 0xFFFF_FFFF
            else if a + n <= 0x1_0000_0000 then a + n - 1
            else a + n - 1 - 0x1_0000_0000
  {
  }

  /** For every address, length and schedule: an erase with both ends in the geometry issues exactly one
      prepare and one erase, of the sectors from that of the first to that of the last address. */
  lemma EraseCommands(c: Config, s: State, a: Address, n: Address) returns (first: nat, last: nat)
    requires WellFormed(c) && Valid(s) && a < FlashSize(c) && LastAddress(a, n) < FlashSize(c)
    ensures InSector(c.sectors, first, a) && InSector(c.sectors, last, LastAddress(a, n))
    ensures OneErase(c, s, Step(c, s, EraseOp(a, n)), first, last)
  {
    hide SectorNumber, EraseSectors;
    SectorNumberCorrect(c.sectors, a);
    SectorNumberCorrect(c.sectors, LastAddress(a, n));
    first, last := SectorNumber(c.sectors, a), SectorNumber(c.sectors, LastAddress(a, n));
    EraseSectorsCommands(c, s, first, last);
  }

  /** The same for erasing everything, from the first to the last sector. */
  lemma EraseAllCommands(c: Config, s: State)
    requires WellFormed(c) && Valid(s) && |c.sectors| > 0
    ensures OneErase(c, s, Step(c, s, EraseAllOp), 0, |c.sectors| - 1)
  {
    hide EraseSectors;
    EraseSectorsCommands(c, s, 0, |c.sectors| - 1);
  }

  // ----- an upload, command by command -----

  /** Poking a whole block that is not cached: one attempt for the old block, then the buffer is the data. */
  lemma WholeBlock(c: Config, s: State, a: Address, bytes: seq<Byte>)
    requires WellFormed(c) && Valid(s) && Aligned(a) && s.current != a
    requires |bytes| == BLOCK_SIZE && a + BLOCK_SIZE <= ADDRESS_SPACE
    ensures var t := WriteBytes(c, s, a, bytes);
            && t.buffer == bytes && t.current == a
            && t.dev.trace == s.dev.trace + Attempt(c, s)
  {
    hide WriteBytes, WriteBack, Attempt;
    assert BlockOf(a) == a;
    WriteInBlock(c, s, a, bytes, BLOCK_SIZE);
    assert bytes[..BLOCK_SIZE] == bytes;
    var s1 := Select(c, s, a);
    assert Overlay(s1.buffer, 0, bytes) == bytes;
    WriteBackCommands(c, s);
  }

  /** The commands for the cached block of sector `n`, if there is one, all answered by success. */
  function SucceedingEvents(c: Config, s: State, n: nat): seq<Event>
  {
    if s.current == INVALID then []
    else [Event(Prepare(n, n), 0), Event(Copy(s.current, s.buffer, c.clock / 1000), 0)]
  }

  lemma SucceedingAttempt(c: Config, s: State, n: nat)
    requires WellFormed(c) && Valid(s) && Clean(c) && Pending(c, s) && SectorNumber(c.sectors, s.current) == n
    ensures Attempt(c, s) == SucceedingEvents(c, s, n)
  {
  }

  /** When nothing fails, a block is uploaded by the commands for the block cached before, and waits in
      the cache. */
  lemma UploadBlock(c: Config, s: State, a: Address, bytes: seq<Byte>, n: nat)
    requires WellFormed(c) && Valid(s) && Clean(c) && Aligned(a) && a < FlashSize(c)
    requires s.current == INVALID ||
             (s.current != a && s.current < FlashSize(c) && SectorNumber(c.sectors, s.current) == n)
    requires |bytes| == BLOCK_SIZE && a + BLOCK_SIZE <= ADDRESS_SPACE
    ensures var t := WriteBytes(c, s, a, bytes);
            && t.buffer == bytes && t.current == a
            && t.dev.trace == s.dev.trace + SucceedingEvents(c, s, n)
  {
    hide WriteBytes, SectorNumber, Attempt;
    WholeBlock(c, s, a, bytes);
    AttemptCommands(c, s);
    if s.current != INVALID {
      SucceedingAttempt(c, s, n);
    }
  }

  lemma UploadEnd(c: Config, s: State, n: nat)
    requires WellFormed(c) && Valid(s) && Clean(c) && Pending(c, s) && SectorNumber(c.sectors, s.current) == n
    ensures Step(c, s, Flush).dev.trace == s.dev.trace + SucceedingEvents(c, s, n)
    ensures Step(c, s, Flush).current == INVALID
  {
    hide WriteBack, SectorNumber, Attempt;
    FlushCommands(c, s);
    SucceedingAttempt(c, s, n);
    CurrentAfter(c, s, Flush);
  }

  lemma RunPokeFlush(c: Config, s: State, a: Address, bytes: seq<Byte>)
    requires Valid(s) && |bytes| < ADDRESS_SPACE
    ensures Run(c, s, [Poke(a, bytes), Flush]) == Step(c, WriteBytes(c, s, a, bytes), Flush)
  {
    hide WriteBytes, WriteBack;
    var s1 := WriteBytes(c, s, a, bytes);
    assert [Poke(a, bytes), Flush][1..] == [Flush] && [Flush][1..] == [];
    assert Run(c, s1, [Flush]) == Step(c, s1, Flush);
  }

  /** On the LPC2146 map, when nothing fails and nothing is cached: uploading 8 KiB to 0x7000, across the
      border between a 4 KiB and a 32 KiB sector, issues these four commands and leaves no block cached. */
  lemma UploadExample(c: Config, s: State, bytes: seq<Byte>)
    requires c.sectors == Expand(GEOMETRY3) && Clean(c)
    requires Valid(s) && s.current == 0xFFFF_FFFF && |bytes| == 0x2000
    ensures Run(c, s, [Poke(0x7000, bytes), Flush]).current == 0xFFFF_FFFF
    ensures Run(c, s, [Poke(0x7000, bytes), Flush]).dev.trace ==
            s.dev.trace +
            [Event(Prepare(7, 7), 0), Event(Copy(0x7000, bytes[..0x1000], c.clock / 1000), 0),
             Event(Prepare(8, 8), 0), Event(Copy(0x8000, bytes[0x1000..], c.clock / 1000), 0)]
  {
    hide WriteBytes, WriteBack, Step, Run, Expand, SectorNumber;
    TablesUsable();
    TableSectors(0x7000);
    TableSectors(0x8000);
    var lo, hi := bytes[..0x1000], bytes[0x1000..];
    assert lo + hi == bytes;
    WriteBytesSplit(c, s, 0x7000, lo, hi);
    var s1 := WriteBytes(c, s, 0x7000, lo);
    UploadBlock(c, s, 0x7000, lo, 0);
    UploadBlock(c, s1, 0x8000, hi, 7);
    UploadEnd(c, WriteBytes(c, s1, 0x8000, hi), 8);
    RunPokeFlush(c, s, 0x7000, bytes);
  }
}
