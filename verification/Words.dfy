/** Bytes, 32-bit host words and 32-bit addresses, as the loader sees them. */
module Words {
  type Byte = bv8
  type Word = bv32

  /** One more than the largest 32-bit address. */
  const ADDRESS_SPACE: nat := 0x1_0000_0000

  type Address = a: nat | a < 0x1_0000_0000

  /** The value of a flash byte after an erase. */
  const ERASED: Byte := 0xFF

  /** A sum in 32-bit arithmetic. */
  function Wrap(n: nat): Address
  {
    n % ADDRESS_SPACE
  }

  /** `a + k` on 32-bit addresses: past the last address it starts again at 0. */
  function Advance(a: Address, k: nat): Address
    requires k <= ADDRESS_SPACE
  {
    if a + k < ADDRESS_SPACE then a + k else a + k - ADDRESS_SPACE
  }

  /** How far `x` lies after `a`, going round the end of the address space when `x` is below `a`. */
  function Offset(a: Address, x: Address): nat
  {
    if a <= x then x - a else x + ADDRESS_SPACE - a
  }

  /** `Advance` and `Offset` are inverse to each other. */
  lemma AdvanceOffset(a: Address, x: Address, k: nat)
    requires k < ADDRESS_SPACE
    ensures Advance(a, Offset(a, x)) == x
    ensures Offset(a, Advance(a, k)) == k
  {
  }

  lemma AdvanceStep(a: Address, k: nat)
    requires k < ADDRESS_SPACE
    ensures Advance(a, k + 1) == Advance(Advance(a, k), 1)
    ensures Advance(a, 0) == a
  {
  }

  // ----- bytes of a word, least significant first -----

  function ShiftedBy(w: Word, k: nat): Word
    requires k < 4
  {
    match k
    case 0 => w
    case 1 => w >> 8
    case 2 => w >> 16
    case _ => w >> 24
  }

  function Shift(w: Word): Word
  {
    w >> 8
  }

  function LowByte(w: Word): Byte
  {
    (w & 0xFF) as bv8
  }

  function ByteOf(w: Word, k: nat): Byte
    requires k < 4
  {
    LowByte(ShiftedBy(w, k))
  }

  lemma ShiftTwice(w: Word)
    ensures (w >> 8) >> 8 == w >> 16 && (w >> 16) >> 8 == w >> 24
  {
  }

  /** Shifting byte by byte, as the unpacking loop does, reaches every byte of the word. */
  lemma ShiftStep(w: Word, k: nat)
    requires k < 3
    ensures Shift(ShiftedBy(w, k)) == ShiftedBy(w, k + 1)
  {
    ShiftTwice(w);
    match k
    case 0 =>
    case 1 =>
    case _ => assert k == 2;
  }

  lemma ShiftNone(w: Word)
    ensures ShiftedBy(w, 0) == w
  {
  }

  function WordOf(b0: Byte, b1: Byte, b2: Byte, b3: Byte): Word
  {
    (b0 as bv32) | ((b1 as bv32) << 8) | ((b2 as bv32) << 16) | ((b3 as bv32) << 24)
  }

  lemma WordOfBytes(b0: Byte, b1: Byte, b2: Byte, b3: Byte)
    ensures ByteOf(WordOf(b0, b1, b2, b3), 0) == b0
    ensures ByteOf(WordOf(b0, b1, b2, b3), 1) == b1
    ensures ByteOf(WordOf(b0, b1, b2, b3), 2) == b2
    ensures ByteOf(WordOf(b0, b1, b2, b3), 3) == b3
  {
  }

  /** A word is all ones exactly when its four bytes are. */
  lemma AllOnes(b0: Byte, b1: Byte, b2: Byte, b3: Byte)
    ensures WordOf(b0, b1, b2, b3) == 0xFFFF_FFFF <==>
            b0 == ERASED && b1 == ERASED && b2 == ERASED && b3 == ERASED
  {
  }

  // ----- the host's byte stream -----

  /** How many words carry `n` bytes. */
  function WordCount(n: nat): nat
  {
    (n + 3) / 4
  }

  /** Having read `used` words of `available` for `n` bytes: another is there if bytes are still
      missing, and `used` is the word count once they are not. */
  lemma WordCountBounds(n: nat, available: nat, used: nat)
    requires WordCount(n) <= available
    ensures 4 * used < n ==> used < available
    ensures 4 * used - 4 < n <= 4 * used ==> used == WordCount(n)
  {
  }

  /** The first `n` bytes carried by `words`; the rest of the last word is padding. */
  function Unpack(words: seq<Word>, n: nat): (bytes: seq<Byte>)
    requires WordCount(n) <= |words|
    ensures |bytes| == n
  {
    seq(n, k requires 0 <= k < n => ByteOf(words[k / 4], k % 4))
  }

  /** Byte `4 * i + j` of the stream is byte `j` of word `i`. */
  lemma UnpackByte(words: seq<Word>, n: nat, i: nat, j: nat)
    requires WordCount(n) <= |words| && j < 4 && 4 * i + j < n
    ensures i < |words| && Unpack(words, n)[4 * i + j] == LowByte(ShiftedBy(words[i], j))
  {
    assert (4 * i + j) / 4 == i && (4 * i + j) % 4 == j;
  }

  /** The same in shifts of the host word: the least significant byte comes first. */
  lemma UnpackShifts(words: seq<Word>, n: nat, i: nat)
    requires WordCount(n) <= |words|
    ensures 4 * i < n ==> Unpack(words, n)[4 * i] == (words[i] & 0xFF) as bv8
    ensures 4 * i + 1 < n ==> Unpack(words, n)[4 * i + 1] == ((words[i] >> 8) & 0xFF) as bv8
    ensures 4 * i + 2 < n ==> Unpack(words, n)[4 * i + 2] == ((words[i] >> 16) & 0xFF) as bv8
    ensures 4 * i + 3 < n ==> Unpack(words, n)[4 * i + 3] == ((words[i] >> 24) & 0xFF) as bv8
  {
    hide Unpack;
    if 4 * i < n {
      UnpackByte(words, n, i, 0);
    }
    if 4 * i + 1 < n {
      UnpackByte(words, n, i, 1);
    }
    if 4 * i + 2 < n {
      UnpackByte(words, n, i, 2);
    }
    if 4 * i + 3 < n {
      UnpackByte(words, n, i, 3);
    }
  }

  /** How the host packs bytes into words, padding the last word with zeros. */
  function Pack(bytes: seq<Byte>): (words: seq<Word>)
    ensures |words| == WordCount(|bytes|)
  {
    if |bytes| == 0 then []
    else if |bytes| <= 4 then
      [WordOf(bytes[0],
              if 1 < |bytes| then bytes[1] else 0,
              if 2 < |bytes| then bytes[2] else 0,
              if 3 < |bytes| then bytes[3] else 0)]
    else
      [WordOf(bytes[0], bytes[1], bytes[2], bytes[3])] + Pack(bytes[4..])
  }

  lemma {:induction false} PackByte(bytes: seq<Byte>, k: nat)
    requires k < |bytes|
    ensures ByteOf(Pack(bytes)[k / 4], k % 4) == bytes[k]
  {
    if |bytes| <= 4 {
      WordOfBytes(bytes[0],
                  if 1 < |bytes| then bytes[1] else 0,
                  if 2 < |bytes| then bytes[2] else 0,
                  if 3 < |bytes| then bytes[3] else 0);
    } else if k < 4 {
      WordOfBytes(bytes[0], bytes[1], bytes[2], bytes[3]);
    } else {
      PackByte(bytes[4..], k - 4);
      assert (k - 4) / 4 == k / 4 - 1 && (k - 4) % 4 == k % 4;
    }
  }

  /** Unpacking inverts packing, whatever the number of bytes. */
  lemma UnpackPack(bytes: seq<Byte>)
    ensures Unpack(Pack(bytes), |bytes|) == bytes
  {
    forall k | 0 <= k < |bytes| ensures Unpack(Pack(bytes), |bytes|)[k] == bytes[k] {
      PackByte(bytes, k);
    }
  }

  // ----- bits -----

  /** Every bit set in `b` is set in `f`: a flash byte `f` can be programmed to `b` by clearing bits. */
  predicate BitSubset(b: Byte, f: Byte)
  {
    f & b == b
  }

  lemma BitFacts(b: Byte)
    ensures BitSubset(b, b) && BitSubset(b, ERASED)
  {
  }
}
