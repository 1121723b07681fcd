/** The flash loader itself: its static variables are the fields, its functions the methods. */
module Loader {
  import opened Words
  import opened Geometry
  import opened Iap
  import opened Cache

  class FlashLoader {
    const flash: Flash
    const geometry: seq<SectorRun>
    const blockData: array<Byte>
    var currentBlockAddress: Address

    ghost function State(): State
      reads this, flash, flash.memory, blockData
    {
      Cache.State(flash.Value(), blockData[..], currentBlockAddress)
    }

    ghost predicate Valid()
      reads this, flash, flash.memory, blockData
      ensures Valid() ==> Cache.Valid(State())
    {
      && flash.memory != blockData
      && Terminated(geometry)
      && flash.config.sectors == Expand(geometry)
      && WellFormed(flash.config)
      && Cache.Valid(State())
    }

    /** The loader starts with an empty cache; the buffer holds whatever is in RAM. */
    constructor (flash: Flash, geometry: seq<SectorRun>, ram: array<Byte>)
      requires flash.memory != ram && ram.Length == BLOCK_SIZE && flash.memory.Length == ADDRESS_SPACE
      requires Terminated(geometry) && flash.config.sectors == Expand(geometry) && WellFormed(flash.config)
      ensures Valid() && this.flash == flash && this.geometry == geometry && this.blockData == ram
      ensures State() == Cache.State(flash.Value(), ram[..], INVALID)
    {
      this.flash := flash;
      this.geometry := geometry;
      blockData := ram;
      currentBlockAddress := INVALID;
    }

    method WriteCurrentBlock() returns (ok: int)
      requires Valid()
      modifies `currentBlockAddress, flash, flash.memory
      ensures Valid()
      ensures (ok == 1, State()) == WriteBack(flash.config, old(State()))
      ensures ok == 0 || ok == 1
    {
      if currentBlockAddress != INVALID {
        var sectorNumber := GetSectorNumber(geometry, currentBlockAddress);
        if sectorNumber != -1 {
          var status := flash.IapCommand(Prepare(sectorNumber, sectorNumber));
          if status != CMD_SUCCESS {
            return 0;
          }
          status := flash.IapCommand(Copy(currentBlockAddress, blockData[..], flash.config.clock / 1000));
          if status != CMD_SUCCESS {
            return 0;
          }
        }
        currentBlockAddress := INVALID;
      }
      return 1;
    }

    /** The miss path shared by poke and memset. */
    method SelectBlock(address: Address)
      requires Valid()
      modifies this, blockData, flash, flash.memory
      ensures Valid()
      ensures State() == Select(flash.config, old(State()), BlockOf(address))
    {
      var blockAddress := BlockOf(address);
      if blockAddress != currentBlockAddress {
        var _ := WriteCurrentBlock();
        forall i | 0 <= i < BLOCK_SIZE {
          blockData[i] := flash.memory[blockAddress + i];
        }
        currentBlockAddress := blockAddress;
        assert blockData[..] == BlockAt(flash.memory[..], blockAddress);
      }
    }

    /** One turn of the poke loop: the block of `address` is cached and its byte overwritten. */
    method StoreByte(address: Address, b: Byte)
      requires Valid()
      modifies this, blockData, flash, flash.memory
      ensures Valid()
      ensures State() == WriteByte(flash.config, old(State()), address, b)
    {
      hide Select;
      WriteByteSelects(flash.config, State(), address, b);
      SelectBlock(address);
      ghost var s1 := State();
      blockData[address - currentBlockAddress] := b;
      assert blockData[..] == s1.buffer[address - s1.current := b];
    }

    method LoaderFlushWrites()
      requires Valid()
      modifies `currentBlockAddress, flash, flash.memory
      ensures Valid()
      ensures State() == Step(flash.config, old(State()), Flush)
    {
      var _ := WriteCurrentBlock();
    }

    /** `words` is what the host sends; `used` counts the words read. */
    method LoaderPoke(address: Address, length: Address, words: seq<Word>) returns (result: int, used: nat)
      requires Valid() && WordCount(length) <= |words|
      modifies this, blockData, flash, flash.memory
      ensures Valid()
      ensures result == 1 && used == WordCount(length) && length <= 4 * used < length + 4
      ensures State() == Step(flash.config, old(State()), Poke(address, Unpack(words, length)))
    {
      hide WriteBytes, WriteByte, Unpack, Shift, ShiftedBy, LowByte, WordCount, Advance;
      var address': Address, length': Address := address, length;
      used := 0;
      ghost var bytes := Unpack(words, length);
      ghost var c, s, done: nat := flash.config, State(), 0;
      WriteNothing(c, s, address, bytes[..0]);
      AdvanceStep(address, 0);
      while length' > 0
        invariant Valid() && c == flash.config
        invariant done + length' == length
        invariant if length' > 0 then done == 4 * used else 4 * used - 4 < done <= 4 * used
        invariant address' == Advance(address, done)
        invariant State() == WriteBytes(c, s, address, bytes[..done])
      {
        WordCountBounds(length, |words|, used);
        var data := words[used];
        ShiftNone(data);
        used := used + 1;
        var i := 4;
        while i != 0 && length' > 0
          invariant 0 <= i <= 4 && Valid() && c == flash.config
          invariant done + length' == length
          invariant done == 4 * (used - 1) + (4 - i)
          invariant i > 0 ==> data == ShiftedBy(words[used - 1], 4 - i)
          invariant address' == Advance(address, done)
          invariant State() == WriteBytes(c, s, address, bytes[..done])
          decreases i
        {
          UnpackByte(words, length, used - 1, 4 - i);
          WriteBytesSnoc(c, s, address, bytes, done);
          StoreByte(address', LowByte(data));
          if i > 1 {
            ShiftStep(words[used - 1], 4 - i);
          }
          data := Shift(data);
          length' := length' - 1;
          AdvanceStep(address, done);
          address' := Advance(address', 1);
          done := done + 1;
          i := i - 1;
        }
      }
      WordCountBounds(length, |words|, used);
      assert bytes[..done] == bytes;
      result := 1;
    }

    method LoaderMemset(address: Address, length: Address, c: Byte) returns (result: int)
      requires Valid()
      modifies this, blockData, flash, flash.memory
      ensures Valid()
      ensures result == 1
      ensures State() == Step(flash.config, old(State()), Memset(address, length, c))
    {
      hide FillFragments, Select, FillBuffer;
      var address': Address, length': Address := address, length;
      ghost var config, s := flash.config, State();
      while length' > 0
        invariant Valid() && config == flash.config
        invariant FillFragments(config, State(), address', length', c) ==
                  FillFragments(config, s, address, length, c)
      {
        FillStep(config, State(), address', length', c);
        SelectBlock(address');
        ghost var s1 := State();
        var offset := address' - currentBlockAddress;
        var frag := BLOCK_SIZE - offset;
        if length' < frag {
          frag := length';
        }
        forall i | offset <= i < offset + frag {
          blockData[i] := c;
        }
        FillBufferIs(s1, offset, frag, c, blockData[..]);
        address' := Advance(address', frag);
        length' := length' - frag;
      }
      FillNothing(config, State(), address', c);
      result := 1;
    }

    method LoaderErase(address: Address, length: Address) returns (result: int)
      requires Valid()
      modifies flash, flash.memory
      ensures Valid()
      ensures result == 1
      ensures State() == Step(flash.config, old(State()), EraseOp(address, length))
    {
      var sectorStartNumber := GetSectorNumber(geometry, address);
      var sectorEndNumber := GetSectorNumber(geometry, (address + length - 1) % ADDRESS_SPACE);
      if sectorStartNumber != -1 && sectorEndNumber != -1 {
        var _ := flash.IapCommand(Prepare(sectorStartNumber, sectorEndNumber));
        var _ := flash.IapCommand(Erase(sectorStartNumber, sectorEndNumber, flash.config.clock / 1000));
      }
      result := 1;
    }

    method LoaderEraseAll() returns (result: int)
      requires Valid()
      modifies flash, flash.memory
      ensures Valid()
      ensures result == 1
      ensures State() == Step(flash.config, old(State()), EraseAllOp)
    {
      var numberOfSectors := GetNumberOfSectors(geometry);
      var last := (numberOfSectors - 1) % ADDRESS_SPACE;
      var _ := flash.IapCommand(Prepare(0, last));
      var _ := flash.IapCommand(Erase(0, last, flash.config.clock / 1000));
      result := 1;
    }
  }
}
