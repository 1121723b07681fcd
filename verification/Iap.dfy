/** The In-Application Programming device that the loader drives: flash memory behind three commands. */
module Iap {
  import opened Words
  import opened Geometry

  // Status codes the model's device answers with, numbered as in the loader source.
  const CMD_SUCCESS: nat := 0
  const DST_ADDR_ERROR: nat := 3
  const DST_ADDR_NOT_MAPPED: nat := 5
  const INVALID_SECTOR: nat := 7
  const SECTOR_NOT_PREPARED: nat := 9

  /** What programming does to a flash byte: replace it, or (as NOR flash does) only clear bits. */
  datatype Mode = Overwrite | ClearBits

  function Program(mode: Mode, f: Byte, data: Byte): Byte
  {
    match mode
    case Overwrite => data
    case ClearBits => f & data
  }

  /** The fixed part of a run. `schedule(k)` is the environment's verdict on the k-th command: a
      command that passes the device's own checks answers `schedule(k)`, so a schedule that is not
      constantly `CMD_SUCCESS` makes commands fail at arbitrary moments. */
  datatype Config = Config(sectors: seq<nat>, mode: Mode, schedule: nat -> nat, clock: nat)

  datatype Command =
    | Prepare(first: nat, last: nat)
    | Copy(dst: nat, data: seq<Byte>, khz: nat)
    | Erase(first: nat, last: nat, khz: nat)

  datatype Event = Event(cmd: Command, status: nat)

  /** `memory` is the whole address space as the processor reads it; its first `Total` bytes are flash. */
  datatype Device = Device(memory: seq<Byte>, prepared: set<nat>, trace: seq<Event>)

  ghost predicate WellFormed(c: Config)
  {
    InBlocks(c.sectors) && FitsInWord(c.sectors)
  }

  /** The environment never makes a command fail. */
  ghost predicate Clean(c: Config)
  {
    forall k: nat :: c.schedule(k) == CMD_SUCCESS
  }

  function FlashSize(c: Config): nat
  {
    Total(c.sectors)
  }

  predicate Between(first: nat, n: nat, last: nat)
  {
    first <= n <= last
  }

  function SectorsBetween(first: nat, last: nat): set<nat>
  {
    set n: nat | n <= last && Between(first, n, last)
  }

  predicate Touches(sizes: seq<nat>, n: nat, dst: nat, len: nat)
  {
    n < |sizes| && Start(sizes, n) < dst + len && dst < Start(sizes, n + 1)
  }

  /** The sectors that share a byte with `[dst, dst + len)`. */
  function SectorsTouched(sizes: seq<nat>, dst: nat, len: nat): set<nat>
  {
    set n: nat | n < |sizes| && Touches(sizes, n, dst, len)
  }

  predicate SectorRange(c: Config, first: nat, last: nat)
  {
    first <= last < |c.sectors|
  }

  /** The device's own checks on a command. */
  function Check(c: Config, prepared: set<nat>, cmd: Command): nat
  {
    match cmd
    case Prepare(first, last) =>
      if !SectorRange(c, first, last) then INVALID_SECTOR else CMD_SUCCESS
    case Copy(dst, data, _) =>
      if !Aligned(dst) then DST_ADDR_ERROR
      else if FlashSize(c) < dst + |data| then DST_ADDR_NOT_MAPPED
      else if !(SectorsTouched(c.sectors, dst, |data|) <= prepared) then SECTOR_NOT_PREPARED
      else CMD_SUCCESS
    case Erase(first, last, _) =>
      if !SectorRange(c, first, last) then INVALID_SECTOR
      else if !(SectorsBetween(first, last) <= prepared) then SECTOR_NOT_PREPARED
      else CMD_SUCCESS
  }

  function Status(c: Config, prepared: set<nat>, time: nat, cmd: Command): nat
  {
    var own := Check(c, prepared, cmd);
    if own != CMD_SUCCESS then own else c.schedule(time)
  }

  function Programmed(mode: Mode, memory: seq<Byte>, dst: nat, data: seq<Byte>): (after: seq<Byte>)
    ensures |after| == |memory|
  {
    seq(|memory|, x requires 0 <= x < |memory| =>
      if dst <= x < dst + |data| then Program(mode, memory[x], data[x - dst]) else memory[x])
  }

  /** Sets every byte of sectors `first` to `last` to 0xFF. */
  function Erased(sizes: seq<nat>, memory: seq<Byte>, first: nat, last: nat): (after: seq<Byte>)
    requires last < |sizes| && first <= last
    ensures |after| == |memory|
  {
    seq(|memory|, x requires 0 <= x < |memory| =>
      if Start(sizes, first) <= x < Start(sizes, last + 1) then ERASED else memory[x])
  }

  /** One command. A command that does not succeed leaves memory and protection alone; a successful
      copy or erase protects its sectors again. */
  function Execute(c: Config, d: Device, cmd: Command): Device
  {
    var status := Status(c, d.prepared, |d.trace|, cmd);
    var trace := d.trace + [Event(cmd, status)];
    if status != CMD_SUCCESS then d.(trace := trace)
    else
      match cmd
      case Prepare(first, last) =>
        Device(d.memory, d.prepared + SectorsBetween(first, last), trace)
      case Copy(dst, data, _) =>
        Device(Programmed(c.mode, d.memory, dst, data),
               d.prepared - SectorsTouched(c.sectors, dst, |data|), trace)
      case Erase(first, last, _) =>
        Device(Erased(c.sectors, d.memory, first, last),
               d.prepared - SectorsBetween(first, last), trace)
  }

  function LastStatus(d: Device): nat
  {
    if |d.trace| == 0 then CMD_SUCCESS else d.trace[|d.trace| - 1].status
  }

  /** The device as an object: commands change it in place. */
  class Flash {
    const config: Config
    const memory: array<Byte>
    var prepared: set<nat>
    var trace: seq<Event>

    ghost function Value(): Device
      reads this, memory
    {
      Device(memory[..], prepared, trace)
    }

    constructor (config: Config, memory: array<Byte>)
      ensures this.config == config && this.memory == memory
      ensures Value() == Device(memory[..], {}, [])
    {
      this.config := config;
      this.memory := memory;
      prepared := {};
      trace := [];
    }

    method IapCommand(cmd: Command) returns (status: nat)
      modifies this, memory
      ensures Value() == Execute(config, old(Value()), cmd)
      ensures status == LastStatus(Value())
    {
      status := Status(config, prepared, |trace|, cmd);
      trace := trace + [Event(cmd, status)];
      if status == CMD_SUCCESS {
        match cmd
        case Prepare(first, last) =>
          prepared := prepared + SectorsBetween(first, last);
        case Copy(dst, data, _) =>
          forall x | 0 <= x < memory.Length && dst <= x < dst + |data| {
            memory[x] := Program(config.mode, memory[x], data[x - dst]);
          }
          prepared := prepared - SectorsTouched(config.sectors, dst, |data|);
        case Erase(first, last, _) =>
          var from, to := Start(config.sectors, first), Start(config.sectors, last + 1);
          forall x | 0 <= x < memory.Length && from <= x < to {
            memory[x] := ERASED;
          }
          prepared := prepared - SectorsBetween(first, last);
      }
    }
  }
}
