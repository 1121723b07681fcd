/** The one-block write-back cache, as functions from states to states. */
module Cache {
  import opened Words
  import opened Geometry
  import opened Iap

  /** Marks an empty cache; the address below the start of flash, in 32 bits. */
  const INVALID: Address := ADDRESS_SPACE - 1

  /** The device, the RAM image of one block, and the address of that block or `INVALID`. */
  datatype State = State(dev: Device, buffer: seq<Byte>, current: Address)

  /** What holds between any two loader operations: the cached address is a block's or the marker. */
  predicate Valid(s: State)
  {
    && |s.dev.memory| == ADDRESS_SPACE
    && |s.buffer| == BLOCK_SIZE
    && (s.current == INVALID || Aligned(s.current))
  }

  // ----- write-back -----

  function CopyBlock(c: Config, s: State): Command
  {
    Copy(s.current, s.buffer, c.clock / 1000)
  }

  /** Writes the cached block to flash and empties the cache; `false` when a command fails. A block
      outside the geometry is dropped without a command. */
  function WriteBack(c: Config, s: State): (bool, State)
  {
    if s.current == INVALID then (true, s)
    else
      var n := SectorNumber(c.sectors, s.current);
      if n < 0 then (true, s.(current := INVALID))
      else
        var prepared := Execute(c, s.dev, Prepare(n, n));
        if LastStatus(prepared) != CMD_SUCCESS then (false, s.(dev := prepared))
        else
          var copied := Execute(c, prepared, CopyBlock(c, s));
          if LastStatus(copied) != CMD_SUCCESS then (false, s.(dev := copied))
          else (true, State(copied, s.buffer, INVALID))
  }

  function BlockAt(memory: seq<Byte>, block: nat): seq<Byte>
    requires block + BLOCK_SIZE <= |memory|
  {
    seq(BLOCK_SIZE, i requires 0 <= i < BLOCK_SIZE => memory[block + i])
  }

  lemma WriteBackKeepsSize(c: Config, s: State)
    ensures |WriteBack(c, s).1.dev.memory| == |s.dev.memory|
  {
  }

  /** Brings `block` into the cache. The result of writing back the old block is ignored. */
  function Select(c: Config, s: State, block: Address): (t: State)
    requires Valid(s) && block + BLOCK_SIZE <= ADDRESS_SPACE && Aligned(block)
    ensures Valid(t) && t.current == block
  {
    if s.current == block then s
    else
      var dev := WriteBack(c, s).1.dev;
      WriteBackKeepsSize(c, s);
      State(dev, BlockAt(dev.memory, block), block)
  }

  // ----- writing -----

  function WriteByte(c: Config, s: State, a: Address, b: Byte): (t: State)
    requires Valid(s)
    ensures Valid(t)
  {
    var s1 := Select(c, s, BlockOf(a));
    s1.(buffer := s1.buffer[a - s1.current := b])
  }

  /** Writes `bytes` one by one from `a` upwards. */
  function WriteBytes(c: Config, s: State, a: Address, bytes: seq<Byte>): (t: State)
    requires Valid(s) && |bytes| <= ADDRESS_SPACE
    ensures Valid(t)
    decreases |bytes|
  {
    if |bytes| == 0 then s
    else
      var k := |bytes| - 1;
      WriteByte(c, WriteBytes(c, s, a, bytes[..k]), Advance(a, k), bytes[k])
  }

  function Filled(n: nat, v: Byte): seq<Byte>
  {
    seq(n, _ => v)
  }

  /** How many of `n` bytes from `a` fit the block of `a`. */
  function Fragment(a: Address, n: nat): (frag: nat)
    requires n > 0
    ensures 1 <= frag <= BLOCK_SIZE && frag <= n && a + frag <= BlockOf(a) + BLOCK_SIZE
  {
    var frag := BLOCK_SIZE - (a - BlockOf(a));
    if n < frag then n else frag
  }

  /** Overwrites the cached block with `v` from offset `at` on. */
  function FillBuffer(s: State, at: nat, frag: nat, v: Byte): (t: State)
    requires at + frag <= |s.buffer|
    ensures t.current == s.current && |t.buffer| == |s.buffer| && t.dev == s.dev
  {
    s.(buffer := seq(|s.buffer|, i requires 0 <= i < |s.buffer| =>
      if at <= i < at + frag then v else s.buffer[i]))
  }

  /** Fills `n` bytes from `a` with `v`, one block fragment at a time. */
  function FillFragments(c: Config, s: State, a: Address, n: nat, v: Byte): (t: State)
    requires Valid(s)
    ensures Valid(t)
    decreases n
  {
    if n == 0 then s
    else
      var s1 := Select(c, s, BlockOf(a));
      var frag := Fragment(a, n);
      FillFragments(c, FillBuffer(s1, a - s1.current, frag, v), Advance(a, frag), n - frag, v)
  }

  // The definitions of the two writes, one step at a time.

  lemma WriteNothing(c: Config, s: State, a: Address, bytes: seq<Byte>)
    requires Valid(s) && bytes == []
    ensures WriteBytes(c, s, a, bytes) == s
  {
  }

  lemma WriteBytesSnoc(c: Config, s: State, a: Address, bytes: seq<Byte>, k: nat)
    requires Valid(s) && k < |bytes| <= ADDRESS_SPACE
    ensures WriteBytes(c, s, a, bytes[..k + 1]) ==
            WriteByte(c, WriteBytes(c, s, a, bytes[..k]), Advance(a, k), bytes[k])
  {
    assert bytes[..k + 1][..k] == bytes[..k];
  }

  lemma WriteByteSelects(c: Config, s: State, a: Address, b: Byte)
    requires Valid(s)
    ensures var s1 := Select(c, s, BlockOf(a));
            WriteByte(c, s, a, b) == s1.(buffer := s1.buffer[a - s1.current := b])
  {
  }

  lemma FillNothing(c: Config, s: State, a: Address, v: Byte)
    requires Valid(s)
    ensures FillFragments(c, s, a, 0, v) == s
  {
  }

  lemma FillStep(c: Config, s: State, a: Address, n: nat, v: Byte)
    requires Valid(s) && n > 0
    ensures var s1 := Select(c, s, BlockOf(a));
            var frag := Fragment(a, n);
            FillFragments(c, s, a, n, v) ==
            FillFragments(c, FillBuffer(s1, a - s1.current, frag, v), Advance(a, frag), n - frag, v)
  {
  }

  lemma FillBufferIs(s: State, at: nat, frag: nat, v: Byte, buffer: seq<Byte>)
    requires at + frag <= |s.buffer| == |buffer|
    requires forall i :: 0 <= i < |buffer| ==> buffer[i] == if at <= i < at + frag then v else s.buffer[i]
    ensures FillBuffer(s, at, frag, v) == s.(buffer := buffer)
  {
    assert FillBuffer(s, at, frag, v).buffer == buffer;
  }

  // ----- erasing -----

  function EraseSectors(c: Config, s: State, first: nat, last: nat): State
  {
    var prepared := Execute(c, s.dev, Prepare(first, last));
    s.(dev := Execute(c, prepared, Erase(first, last, c.clock / 1000)))
  }

  /** `a + n - 1` in 32-bit arithmetic; for `a == n == 0` that is the last address. */
  function LastAddress(a: Address, n: Address): Address
  {
    (a + n - 1) % ADDRESS_SPACE
  }

  /** Erases from the sector of `a` to the sector of the last address, when both exist. */
  function EraseRange(c: Config, s: State, a: Address, n: Address): State
  {
    var first := SectorNumber(c.sectors, a);
    var last := SectorNumber(c.sectors, LastAddress(a, n));
    if first < 0 || last < 0 then s else EraseSectors(c, s, first, last)
  }

  function EraseAll(c: Config, s: State): State
  {
    EraseSectors(c, s, 0, (|c.sectors| - 1) % ADDRESS_SPACE)
  }

  // ----- sessions -----

  datatype Op =
    | Poke(address: Address, bytes: seq<Byte>)
    | Memset(address: Address, length: Address, value: Byte)
    | EraseOp(address: Address, length: Address)
    | EraseAllOp
    | Flush

  /** The lengths the host passes are 32-bit values. */
  predicate Legal(op: Op)
  {
    op.Poke? ==> |op.bytes| < ADDRESS_SPACE
  }

  predicate AllLegal(ops: seq<Op>)
  {
    forall i :: 0 <= i < |ops| ==> Legal(ops[i])
  }

  function Step(c: Config, s: State, op: Op): (t: State)
    requires Valid(s) && Legal(op)
    ensures Valid(t)
  {
    match op
    case Poke(a, bytes) => WriteBytes(c, s, a, bytes)
    case Memset(a, n, v) => FillFragments(c, s, a, n, v)
    case EraseOp(a, n) => EraseRange(c, s, a, n)
    case EraseAllOp => EraseAll(c, s)
    case Flush => WriteBack(c, s).1
  }

  function Run(c: Config, s: State, ops: seq<Op>): (t: State)
    requires Valid(s) && AllLegal(ops)
    ensures Valid(t)
    decreases |ops|
  {
    if |ops| == 0 then s else Run(c, Step(c, s, ops[0]), ops[1..])
  }

  lemma {:induction false} RunSplit(c: Config, s: State, xs: seq<Op>, ys: seq<Op>)
    requires Valid(s) && AllLegal(xs) && AllLegal(ys)
    ensures AllLegal(xs + ys)
    ensures Run(c, s, xs + ys) == Run(c, Run(c, s, xs), ys)
    decreases |xs|
  {
    hide Step;
    if |xs| == 0 {
      assert xs + ys == ys;
    } else {
      assert (xs + ys)[1..] == xs[1..] + ys;
      assert (xs + ys)[0] == xs[0];
      RunSplit(c, Step(c, s, xs[0]), xs[1..], ys);
    }
  }

  // ----- the two ways of writing agree -----

  /** Writing two stretches one after the other is writing them joined. */
  lemma {:induction false} WriteBytesSplit(c: Config, s: State, a: Address, xs: seq<Byte>, ys: seq<Byte>)
    requires Valid(s) && |xs| + |ys| < ADDRESS_SPACE
    ensures WriteBytes(c, s, a, xs + ys) == WriteBytes(c, WriteBytes(c, s, a, xs), Advance(a, |xs|), ys)
    decreases |ys|
  {
    hide WriteByte, Valid;
    if |ys| == 0 {
      assert xs + ys == xs;
    } else {
      var k := |ys| - 1;
      WriteBytesSplit(c, s, a, xs, ys[..k]);
      assert (xs + ys)[..|xs| + k] == xs + ys[..k];
      assert (xs + ys)[|xs| + k] == ys[k];
      assert Advance(a, |xs| + k) == Advance(Advance(a, |xs|), k);
    }
  }

  /** A write to the cached block only touches the buffer. */
  lemma WriteByteHit(c: Config, s: State, a: Address, b: Byte)
    requires Valid(s) && s.current == BlockOf(a)
    ensures WriteByte(c, s, a, b) == s.(buffer := s.buffer[a - s.current := b])
  {
  }

  /** `data` laid over `buffer` from offset `at` on. */
  function Overlay(buffer: seq<Byte>, at: nat, data: seq<Byte>): (after: seq<Byte>)
    requires at + |data| <= |buffer|
    ensures |after| == |buffer|
  {
    seq(|buffer|, i requires 0 <= i < |buffer| => if at <= i < at + |data| then data[i - at] else buffer[i])
  }

  lemma OverlaySnoc(buffer: seq<Byte>, at: nat, data: seq<Byte>, k: nat)
    requires k < |data| && at + |data| <= |buffer|
    ensures Overlay(buffer, at, data[..k + 1]) == Overlay(buffer, at, data[..k])[at + k := data[k]]
    ensures Overlay(buffer, at, data[..0]) == buffer
  {
  }

  lemma SameBlock(a: Address, x: Address)
    requires BlockOf(a) <= x < BlockOf(a) + BLOCK_SIZE
    ensures BlockOf(x) == BlockOf(a)
  {
  }

  /** Writing bytes inside one block selects the block and lays them over the buffer. */
  lemma {:induction false} WriteInBlock(c: Config, s: State, a: Address, bytes: seq<Byte>, k: nat)
    requires Valid(s) && 1 <= k <= |bytes| && a + |bytes| <= BlockOf(a) + BLOCK_SIZE
    ensures var s1 := Select(c, s, BlockOf(a));
            WriteBytes(c, s, a, bytes[..k]) ==
            s1.(buffer := Overlay(s1.buffer, a - BlockOf(a), bytes[..k]))
    decreases k
  {
    hide Select, WriteByte, Overlay, BlockOf;
    var s1, at := Select(c, s, BlockOf(a)), a - BlockOf(a);
    OverlaySnoc(s1.buffer, at, bytes, k - 1);
    WriteBytesSnoc(c, s, a, bytes, k - 1);
    assert Advance(a, k - 1) == a + k - 1;
    SameBlock(a, a + k - 1);
    if k == 1 {
      WriteNothing(c, s, a, bytes[..0]);
      WriteByteSelects(c, s, a, bytes[0]);
    } else {
      WriteInBlock(c, s, a, bytes, k - 1);
      WriteByteHit(c, WriteBytes(c, s, a, bytes[..k - 1]), a + k - 1, bytes[k - 1]);
    }
  }

  /** Filling inside one block byte by byte is filling the buffer stretch. */
  lemma FillOneFragment(c: Config, s: State, a: Address, frag: nat, v: Byte)
    requires Valid(s) && 1 <= frag <= BLOCK_SIZE && a + frag <= BlockOf(a) + BLOCK_SIZE
    ensures WriteBytes(c, s, a, Filled(frag, v)) ==
            FillBuffer(Select(c, s, BlockOf(a)), a - BlockOf(a), frag, v)
  {
    hide Select, WriteBytes, BlockOf;
    var s1 := Select(c, s, BlockOf(a));
    WriteInBlock(c, s, a, Filled(frag, v), frag);
    assert Filled(frag, v)[..frag] == Filled(frag, v);
    assert FillBuffer(s1, a - BlockOf(a), frag, v).buffer == Overlay(s1.buffer, a - BlockOf(a), Filled(frag, v));
  }

  /** The fragment-wise fill and the byte-wise write of `n` equal bytes end in the same state:
      same flash, same buffer, same cached address, same commands in the same order. */
  lemma {:induction false} FillIsWrite(c: Config, s: State, a: Address, n: Address, v: Byte)
    requires Valid(s)
    ensures FillFragments(c, s, a, n, v) == WriteBytes(c, s, a, Filled(n, v))
    decreases n
  {
    hide WriteByte, Select, FillBuffer, BlockOf, Fragment;
    if n > 0 {
      var frag := Fragment(a, n);
      FillOneFragment(c, s, a, frag, v);
      FillIsWrite(c, WriteBytes(c, s, a, Filled(frag, v)), Advance(a, frag), n - frag, v);
      WriteBytesSplit(c, s, a, Filled(frag, v), Filled(n - frag, v));
      assert Filled(frag, v) + Filled(n - frag, v) == Filled(n, v);
    }
  }

  // ----- the host's words -----

  function PokeWords(c: Config, s: State, a: Address, n: Address, words: seq<Word>): (t: State)
    requires Valid(s) && WordCount(n) <= |words|
    ensures Valid(t)
  {
    WriteBytes(c, s, a, Unpack(words, n))
  }

  /** The host's packing is undone: poking packed bytes writes those bytes. */
  lemma {:induction false} HostPoke(c: Config, s: State, a: Address, bytes: seq<Byte>)
    requires Valid(s) && |bytes| < ADDRESS_SPACE
    ensures PokeWords(c, s, a, |bytes|, Pack(bytes)) == Step(c, s, Poke(a, bytes))
  {
    hide WriteBytes, Valid, Unpack, Pack;
    UnpackPack(bytes);
  }

  /** Cutting a stretch of bytes into two pokes, each packed into words on its own, changes nothing. */
  lemma {:induction false} HostChunking(c: Config, s: State, a: Address, xs: seq<Byte>, ys: seq<Byte>)
    requires Valid(s) && |xs| + |ys| < ADDRESS_SPACE
    ensures PokeWords(c, PokeWords(c, s, a, |xs|, Pack(xs)), Advance(a, |xs|), |ys|, Pack(ys)) ==
            PokeWords(c, s, a, |xs| + |ys|, Pack(xs + ys))
  {
    hide WriteBytes, Valid, Unpack, Pack;
    UnpackPack(xs);
    UnpackPack(ys);
    UnpackPack(xs + ys);
    WriteBytesSplit(c, s, a, xs, ys);
  }
}
