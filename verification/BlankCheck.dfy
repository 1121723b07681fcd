/** The blank check: a scan by bytes up to a word boundary, then by words, then by bytes. */
module BlankCheck {
  import opened Words

  /** `a + k` in 32-bit arithmetic. */
  function Wrapped(a: Address, k: nat): Address
  {
    (a + k) % ADDRESS_SPACE
  }

  /** `n - 1` in 32-bit arithmetic. */
  function Less(n: Address): Address
  {
    if n == 0 then ADDRESS_SPACE - 1 else n - 1
  }

  predicate AtWord(a: Address)
  {
    a % 4 == 0
  }

  lemma WrappedStep(a: Address, k: nat)
    ensures Wrapped(a, k + 1) == Wrapped(Wrapped(a, k), 1)
    ensures Wrapped(a, 0) == a
  {
  }

  /** The `n` bytes from `a`, going round the end of the address space, are all erased. */
  predicate AllErased(memory: seq<Byte>, a: Address, n: nat)
    requires |memory| == ADDRESS_SPACE
  {
    forall k :: 0 <= k < n ==> memory[Wrapped(a, k)] == ERASED
  }

  /** How many bytes lie before the next word boundary. */
  function ToBoundary(a: Address): nat
  {
    (ADDRESS_SPACE - a) % 4
  }

  /** How many bytes the scan really covers: with fewer bytes than there are before the word boundary,
      the 32-bit count runs past zero and the scan goes once more round the whole address space. */
  function Scanned(a: Address, n: Address): nat
  {
    if ToBoundary(a) <= n then n else ADDRESS_SPACE + n
  }

  /** An aligned word never runs past the end of memory. */
  lemma AlignedWord(a: Address, done: nat)
    requires AtWord(Wrapped(a, done))
    ensures var at := Wrapped(a, done);
            && at + 3 < ADDRESS_SPACE
            && Wrapped(a, done + 1) == at + 1 && Wrapped(a, done + 2) == at + 2 && Wrapped(a, done + 3) == at + 3
            && Wrapped(a, done + 4) == Wrapped(at, 4)
            && AtWord(Wrapped(at, 4))
  {
  }

  /** A word of the scan is all ones exactly when its four bytes are erased. */
  lemma WordErased(memory: seq<Byte>, a: Address, done: nat)
    requires |memory| == ADDRESS_SPACE && AtWord(Wrapped(a, done))
    requires AllErased(memory, a, done)
    ensures Wrapped(a, done) + 3 < ADDRESS_SPACE
    ensures var at := Wrapped(a, done);
            WordOf(memory[at], memory[at + 1], memory[at + 2], memory[at + 3]) == 0xFFFF_FFFF <==>
            AllErased(memory, a, done + 4)
  {
    AlignedWord(a, done);
    hide Wrapped, WordOf;
    var at := Wrapped(a, done);
    AllOnes(memory[at], memory[at + 1], memory[at + 2], memory[at + 3]);
    if WordOf(memory[at], memory[at + 1], memory[at + 2], memory[at + 3]) == 0xFFFF_FFFF {
      forall k | 0 <= k < done + 4 ensures memory[Wrapped(a, k)] == ERASED {
        if done <= k {
          assert k == done || k == done + 1 || k == done + 2 || k == done + 3;
        }
      }
    }
    if AllErased(memory, a, done + 4) {
      assert memory[Wrapped(a, done)] == ERASED && memory[Wrapped(a, done + 1)] == ERASED;
      assert memory[Wrapped(a, done + 2)] == ERASED && memory[Wrapped(a, done + 3)] == ERASED;
    }
  }

  lemma ByteErased(memory: seq<Byte>, a: Address, done: nat)
    requires |memory| == ADDRESS_SPACE && AllErased(memory, a, done)
    ensures AllErased(memory, a, done + 1) <==> memory[Wrapped(a, done)] == ERASED
  {
    hide Wrapped;
  }

  lemma NotAllErased(memory: seq<Byte>, a: Address, m: nat, n: nat)
    requires |memory| == ADDRESS_SPACE && m <= n && !AllErased(memory, a, m)
    ensures !AllErased(memory, a, n)
  {
  }

  lemma ReachesBoundary(a: Address, done: nat)
    requires done <= ToBoundary(a)
    ensures AtWord(Wrapped(a, done)) <==> done == ToBoundary(a)
  {
  }

  lemma ScannedReaches(a: Address, n: Address)
    ensures ToBoundary(a) <= Scanned(a, n)
    ensures Scanned(a, n) - ToBoundary(a) ==
            if ToBoundary(a) <= n then n - ToBoundary(a) else n + ADDRESS_SPACE - ToBoundary(a)
  {
  }

  /** Once the count has run past zero, the check asks for the whole address space to be erased. */
  lemma UnderflowScansAll(memory: seq<Byte>, a: Address, n: Address)
    requires |memory| == ADDRESS_SPACE && n < ToBoundary(a)
    ensures AllErased(memory, a, Scanned(a, n)) <==> forall x :: 0 <= x < |memory| ==> memory[x] == 0xFF
  {
    if AllErased(memory, a, Scanned(a, n)) {
      forall x | 0 <= x < ADDRESS_SPACE ensures memory[x] == ERASED {
        assert Wrapped(a, Offset(a, x)) == x;
      }
    }
  }

  /** The addresses that the scan of `n` bytes reads: those from `a` up, and past the end of the address
      space those from 0 up. */
  lemma AllErasedRange(memory: seq<Byte>, a: Address, n: nat)
    requires |memory| == ADDRESS_SPACE && n <= ADDRESS_SPACE
    ensures AllErased(memory, a, n) <==>
            && (forall x :: a <= x < a + n && x < 0x1_0000_0000 ==> memory[x] == 0xFF)
            && (forall x :: 0 <= x < a + n - 0x1_0000_0000 ==> memory[x] == 0xFF)
  {
    if AllErased(memory, a, n) {
      forall x | a <= x < a + n && x < 0x1_0000_0000 ensures memory[x] == 0xFF {
        assert Wrapped(a, x - a) == x;
      }
      forall x | 0 <= x < a + n - 0x1_0000_0000 ensures memory[x] == 0xFF {
        assert Wrapped(a, x + 0x1_0000_0000 - a) == x;
      }
    }
  }

  /** The distance to the word boundary is the number below 4 that makes the address a multiple of 4. */
  lemma BoundaryDistance(a: Address, d: nat)
    ensures d == ToBoundary(a) <==> d < 4 && (a + d) % 4 == 0
  {
  }

  lemma ScannedBytes(memory: seq<Byte>, a: Address, n: Address)
    requires |memory| == ADDRESS_SPACE
    ensures ToBoundary(a) <= n && a + n <= 0x1_0000_0000 ==>
              (AllErased(memory, a, Scanned(a, n)) <==> forall x :: a <= x < a + n ==> memory[x] == 0xFF)
    ensures n < ToBoundary(a) ==>
              (AllErased(memory, a, Scanned(a, n)) <==> forall x :: 0 <= x < |memory| ==> memory[x] == 0xFF)
  {
    if ToBoundary(a) <= n {
      AllErasedRange(memory, a, n);
    } else {
      UnderflowScansAll(memory, a, n);
    }
  }

  method IsErased(memory: array<Byte>, address: Address, length: Address) returns (r: int)
    requires memory.Length == ADDRESS_SPACE
    ensures r == 1 || r == 0
    ensures r == 1 <==> AllErased(memory[..], address, Scanned(address, length))
    ensures ToBoundary(address) <= length && address + length <= 0x1_0000_0000 ==>
              (r == 1 <==> forall x :: address <= x < address + length ==> memory[x] == 0xFF)
    ensures length < ToBoundary(address) ==>
              (r == 1 <==> forall x :: 0 <= x < memory.Length ==> memory[x] == 0xFF)
  {
    ScannedBytes(memory[..], address, length);
    ghost var m, done: nat, all := memory[..], 0, Scanned(address, length);
    var address': Address, length': Address := address, length;
    WrappedStep(address, 0);
    ReachesBoundary(address, 0);
    assert AllErased(m, address, 0);
    ScannedReaches(address, length);
    hide Wrapped, ToBoundary, WordOf, AllErased, Scanned, AtWord;
    while !AtWord(address')
      invariant done <= ToBoundary(address) && done <= all
      invariant address' == Wrapped(address, done)
      invariant AtWord(address') <==> done == ToBoundary(address)
      invariant length' == if done <= length then length - done else length + ADDRESS_SPACE - done
      invariant AllErased(m, address, done)
      decreases ToBoundary(address) - done
    {
      ByteErased(m, address, done);
      if memory[address'] != ERASED {
        NotAllErased(m, address, done + 1, all);
        return 0;
      }
      length' := Less(length');
      WrappedStep(address, done);
      address' := Wrapped(address', 1);
      done := done + 1;
      ReachesBoundary(address, done);
    }
    while length' > 4
      invariant AtWord(address') && address' == Wrapped(address, done)
      invariant done + length' == all
      invariant AllErased(m, address, done)
    {
      WordErased(m, address, done);
      AlignedWord(address, done);
      var word := WordOf(memory[address'], memory[address' + 1], memory[address' + 2], memory[address' + 3]);
      if word != 0xFFFF_FFFF {
        NotAllErased(m, address, done + 4, all);
        return 0;
      }
      length' := length' - 4;
      address' := Wrapped(address', 4);
      done := done + 4;
    }
    while length' != 0
      invariant address' == Wrapped(address, done)
      invariant done + length' == all
      invariant AllErased(m, address, done)
    {
      ByteErased(m, address, done);
      if memory[address'] != ERASED {
        NotAllErased(m, address, done + 1, all);
        return 0;
      }
      length' := length' - 1;
      WrappedStep(address, done);
      address' := Wrapped(address', 1);
      done := done + 1;
    }
    return 1;
  }

  /** The check answers for its range, whatever the memory holds, exactly when the range reaches the
      next word boundary. */
  lemma BlankCheckExact(a: Address, n: Address)
    ensures (forall memory: seq<Byte> :: |memory| == ADDRESS_SPACE ==>
               (AllErased(memory, a, Scanned(a, n)) <==> AllErased(memory, a, n)))
            <==> ToBoundary(a) <= n
  {
    if n < ToBoundary(a) {
      var hole := Wrapped(a, n);
      var memory := seq(ADDRESS_SPACE, x => if x == hole then 0 else ERASED);
      UnderflowScansAll(memory, a, n);
      assert memory[hole] != ERASED;
      forall k | 0 <= k < n ensures memory[Wrapped(a, k)] == ERASED {
      }
      assert AllErased(memory, a, n);
    }
  }

  /** The smallest failure: asked about the one erased byte at address 1, the check answers 0 because
      another byte, say at address 3, is not erased. */
  lemma BlankCheckExample(memory: seq<Byte>)
    requires |memory| == ADDRESS_SPACE && memory[1] == ERASED && memory[3] != ERASED
    ensures AllErased(memory, 1, 1) && !AllErased(memory, 1, Scanned(1, 1))
  {
    UnderflowScansAll(memory, 1, 1);
    assert Wrapped(1, 0) == 1;
  }
}
