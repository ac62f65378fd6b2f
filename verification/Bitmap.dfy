/** The allocator's bitmap: one bit a page, eight pages a byte, and the 32-bit
    view of it that the word-skipping scan reads. */
module Bitmap {
  import opened Words

  predicate BitOf(c: bv8, k: nat)
    requires k < 8
  {
    c & ((1 as bv8) << k) != 0
  }

  /** BITMAP_TEST, on the byte that holds the bit. */
  predicate TestBit(b: byte, k: nat)
    requires k < 8
  {
    BitOf(b as bv8, k)
  }

  function WithBit(c: bv8, k: nat): bv8
    requires k < 8
  {
    c | ((1 as bv8) << k)
  }

  function WithoutBit(c: bv8, k: nat): bv8
    requires k < 8
  {
    c & !((1 as bv8) << k)
  }

  /** BITMAP_SET, on the byte that holds the bit. */
  function SetBit(b: byte, k: nat): byte
    requires k < 8
  {
    WithBit(b as bv8, k) as byte
  }

  /** BITMAP_CLEAR, on the byte that holds the bit. */
  function ClearBit(b: byte, k: nat): byte
    requires k < 8
  {
    WithoutBit(b as bv8, k) as byte
  }

  lemma ByteAgain(c: bv8)
    ensures (c as byte) as bv8 == c
  {
  }

  lemma WithBitMeaning(c: bv8, k: nat, j: nat)
    requires k < 8 && j < 8
    ensures BitOf(WithBit(c, k), j) == (j == k || BitOf(c, j))
  {
    if j == 0 {} else if j == 1 {} else if j == 2 {} else if j == 3 {}
    else if j == 4 {} else if j == 5 {} else if j == 6 {} else {}
  }

  lemma WithoutBitMeaning(c: bv8, k: nat, j: nat)
    requires k < 8 && j < 8
    ensures BitOf(WithoutBit(c, k), j) == (j != k && BitOf(c, j))
  {
    if j == 0 {} else if j == 1 {} else if j == 2 {} else if j == 3 {}
    else if j == 4 {} else if j == 5 {} else if j == 6 {} else {}
  }

  lemma SetBitMeaning(b: byte, k: nat, j: nat)
    requires k < 8 && j < 8
    ensures TestBit(SetBit(b, k), j) == (j == k || TestBit(b, j))
  {
    hide BitOf, WithBit;
    ByteAgain(WithBit(b as bv8, k));
    WithBitMeaning(b as bv8, k, j);
  }

  lemma ClearBitMeaning(b: byte, k: nat, j: nat)
    requires k < 8 && j < 8
    ensures TestBit(ClearBit(b, k), j) == (j != k && TestBit(b, j))
  {
    hide BitOf, WithoutBit;
    ByteAgain(WithoutBit(b as bv8, k));
    WithoutBitMeaning(b as bv8, k, j);
  }

  lemma FullByte(k: nat)
    requires k < 8
    ensures BitOf(0xFF, k)
  {
  }

  /** A little-endian 32-bit word made of four consecutive bytes. */
  function Word(b0: bv8, b1: bv8, b2: bv8, b3: bv8): bv32 {
    (b0 as bv32) | ((b1 as bv32) << 8) | ((b2 as bv32) << 16) | ((b3 as bv32) << 24)
  }

  lemma FullWord(b0: bv8, b1: bv8, b2: bv8, b3: bv8)
    ensures Word(b0, b1, b2, b3) == 0xFFFF_FFFF <==> b0 == b1 == b2 == b3 == 0xFF
  {
  }

  /** The page map that the first `n` bits of the bitmap stand for. */
  ghost function Pages(bytes: seq<byte>, n: nat): (r: seq<bool>)
    requires n <= 8 * |bytes|
    ensures |r| == n
  {
    if n == 0 then [] else Pages(bytes, n - 1) + [TestBit(bytes[(n - 1) / 8], (n - 1) % 8)]
  }

  lemma {:induction false} PageIsBit(bytes: seq<byte>, n: nat, p: nat)
    requires p < n <= 8 * |bytes|
    ensures Pages(bytes, n)[p] == TestBit(bytes[p / 8], p % 8)
  {
    if p < n - 1 {
      PageIsBit(bytes, n - 1, p);
    }
  }

  /** Setting one bit reserves that page and no other; a bit behind the last page's, none. */
  lemma SetReservesOne(bytes: seq<byte>, n: nat, p: nat)
    requires n <= 8 * |bytes| && p < 8 * |bytes|
    ensures Pages(bytes[p / 8 := SetBit(bytes[p / 8], p % 8)], n) ==
            if p < n then Pages(bytes, n)[p := true] else Pages(bytes, n)
  {
    var after := bytes[p / 8 := SetBit(bytes[p / 8], p % 8)];
    forall q | 0 <= q < n ensures Pages(after, n)[q] == (q == p || Pages(bytes, n)[q]) {
      PageIsBit(bytes, n, q);
      PageIsBit(after, n, q);
      SetBitMeaning(bytes[p / 8], p % 8, q % 8);
    }
  }

  /** Clearing one bit frees that page and no other. */
  lemma ClearFreesOne(bytes: seq<byte>, n: nat, p: nat)
    requires p < n <= 8 * |bytes|
    ensures Pages(bytes[p / 8 := ClearBit(bytes[p / 8], p % 8)], n) == Pages(bytes, n)[p := false]
  {
    var after := bytes[p / 8 := ClearBit(bytes[p / 8], p % 8)];
    forall q | 0 <= q < n ensures Pages(after, n)[q] == Pages(bytes, n)[p := false][q] {
      PageIsBit(bytes, n, q);
      PageIsBit(after, n, q);
      ClearBitMeaning(bytes[p / 8], p % 8, q % 8);
    }
  }

  /** Word w of the bitmap, as a cast of the byte pointer reads it. */
  function WordAt(bytes: seq<byte>, w: nat): bv32
    requires 4 * w + 4 <= |bytes|
  {
    Word(bytes[4 * w] as bv8, bytes[4 * w + 1] as bv8, bytes[4 * w + 2] as bv8, bytes[4 * w + 3] as bv8)
  }

  /** An all-ones word stands for 32 reserved pages. */
  lemma FullWordMeansReserved(bytes: seq<byte>, n: nat, w: nat)
    requires 4 * w + 4 <= |bytes| && 32 * w + 32 <= n <= 8 * |bytes|
    ensures WordAt(bytes, w) == 0xFFFF_FFFF ==>
              forall p :: 32 * w <= p < 32 * w + 32 ==> Pages(bytes, n)[p]
  {
    FullWord(bytes[4 * w] as bv8, bytes[4 * w + 1] as bv8, bytes[4 * w + 2] as bv8, bytes[4 * w + 3] as bv8);
    if WordAt(bytes, w) == 0xFFFF_FFFF {
      forall p | 32 * w <= p < 32 * w + 32 ensures Pages(bytes, n)[p] {
        assert 4 * w <= p / 8 < 4 * w + 4;
        FullByte(p % 8);
        PageIsBit(bytes, n, p);
      }
    }
  }

  /** Bit k is the one worth 2 to the power of k. */
  lemma BitValues()
    ensures SetBit(0, 0) == 1 && SetBit(0, 1) == 2 && SetBit(0, 2) == 4 && SetBit(0, 3) == 8
    ensures SetBit(0, 4) == 16 && SetBit(0, 5) == 32 && SetBit(0, 6) == 64 && SetBit(0, 7) == 128
  {
  }
}
