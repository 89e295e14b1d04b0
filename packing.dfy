/**
 * The bitmap's output format: one bit per scanned block, packed most
 * significant bit first into 32-bit words (`unsigned int` is 32 bits wide),
 * each word written in network byte order.
 */
module Packing {
  import opened Bits

  /** Bits per accumulator word: `sizeof(unsigned int) * CHAR_BIT`. */
  const UINT_BITS: nat := 32

  /** Modulus of `unsigned int` arithmetic. */
  const UINT_MOD: nat := 0x1_0000_0000

  /** One past `INT_MAX`: a count passed as a 32-bit `int` lies below this. */
  const INT_LIMIT: nat := 0x8000_0000

  function Min(a: int, b: int): int
  {
    if a < b then a else b
  }

  /**
   * The accumulator word once the bits `pending` have been packed into it
   * from bit 31 downwards: its 32 bits, read from bit 31 down, are `pending`
   * followed by zeros.
   */
  function WordOf(pending: seq<bool>): (w: nat)
    requires |pending| <= UINT_BITS
    ensures w < UINT_MOD
  {
    ValPadded(pending, UINT_BITS - |pending|);
    ValBound(pending + Zeros(UINT_BITS - |pending|));
    Pow2Word();
    Val(pending) * Pow2(UINT_BITS - |pending|)
  }

  /** The word's 32 bits, read from bit 31 down, are `pending` followed by zeros. */
  lemma WordOfBits(pending: seq<bool>)
    requires |pending| <= UINT_BITS
    ensures BitsMsbFirst(WordOf(pending), UINT_BITS) == pending + Zeros(UINT_BITS - |pending|)
  {
    var c := pending + Zeros(UINT_BITS - |pending|);
    ValPadded(pending, UINT_BITS - |pending|);
    BitsOfVal(c);
  }

  /** An empty accumulator is the word 0. */
  lemma WordOfEmpty(p: seq<bool>)
    requires |p| == 0
    ensures WordOf(p) == 0
  {
    assert p == [];
  }

  /** Packing one more bit adds it at position 31 - (bits already packed). */
  lemma WordOfAppend(p: seq<bool>, x: bool)
    requires |p| < UINT_BITS
    ensures WordOf(p + [x]) == WordOf(p) + (if x then 1 else 0) * Pow2(UINT_BITS - 1 - |p|)
  {
    var k := UINT_BITS - 1 - |p|;
    assert (p + [x])[..|p|] == p;
    ShiftedBit(Val(p), Val(p + [x]), Pow2(k), Pow2(k + 1), if x then 1 else 0,
               WordOf(p), WordOf(p + [x]));
  }

  /**
   * `bits += res << (UINT_BITS - cbi - 1)` with res the 0 or 1 of the block
   * just classified: on an accumulator holding the cbi bits p, the sum stays
   * below 2^32 and the accumulator then holds p followed by the new bit.
   */
  lemma PackBit(bits: nat, r: nat, p: seq<bool>, x: bool, cbi: nat)
    requires cbi == |p| < UINT_BITS && bits == WordOf(p)
    requires r == if x then 1 else 0
    ensures bits + r * Pow2(UINT_BITS - cbi - 1) < UINT_MOD
    ensures (bits + r * Pow2(UINT_BITS - cbi - 1)) % UINT_MOD == WordOf(p + [x])
  {
    WordOfAppend(p, x);
  }

  lemma ShiftedBit(v: nat, v': nat, pk: nat, pk': nat, b: nat, w: nat, w': nat)
    requires v' == 2 * v + b && pk' == 2 * pk
    requires w == v * pk' && w' == v' * pk
    ensures w' == w + b * pk
  {
  }

  /**
   * The bytes that `fwrite(&bits, sizeof(unsigned int), 1, out)` stores
   * after `bits = htonl(bits)`: the word's four bytes, most significant first.
   */
  function Htonl(x: nat): (s: seq<byte>)
    requires x < UINT_MOD
    ensures |s| == 4
  {
    BigEndian(x, 4)
  }

  /** The four bytes, read bit by bit, are the word's bits from bit 31 down. */
  lemma HtonlBits(x: nat)
    requires x < UINT_MOD
    ensures StreamBits(Htonl(x)) == BitsMsbFirst(x, UINT_BITS)
  {
    Pow2Word();
    BigEndianWordBits(x);
  }

  /** The number of words needed for n bits. */
  function WordCount(n: nat): nat
  {
    (n + UINT_BITS - 1) / UINT_BITS
  }

  /** w words hold n bits, with fewer than 32 to spare, only when w is the word count of n or less. */
  lemma WordCountBound(n: nat, w: nat)
    requires UINT_BITS * w < n + UINT_BITS
    ensures w <= WordCount(n)
  {
  }

  /** The bits of word j: bits 32j .. 32j+31, or fewer in the final word. */
  function Chunk(bits: seq<bool>, j: nat): (c: seq<bool>)
    requires j < WordCount(|bits|)
    ensures |c| <= UINT_BITS
  {
    bits[UINT_BITS * j .. Min(UINT_BITS * j + UINT_BITS, |bits|)]
  }

  /** The bitmap words of a bit sequence; the last one may be partial. */
  function Words(bits: seq<bool>): (ws: seq<nat>)
    ensures |ws| == WordCount(|bits|)
    ensures forall j :: 0 <= j < |ws| ==> ws[j] < UINT_MOD
  {
    seq(WordCount(|bits|), j requires 0 <= j < WordCount(|bits|) => WordOf(Chunk(bits, j)))
  }

  lemma WordsAt(bits: seq<bool>, j: nat)
    requires j < WordCount(|bits|)
    ensures Words(bits)[j] == WordOf(Chunk(bits, j))
  {
  }

  /** The byte stream that writing the words one after another produces. */
  function Serialize(ws: seq<nat>): (s: seq<byte>)
    requires forall j :: 0 <= j < |ws| ==> ws[j] < UINT_MOD
    ensures |s| == 4 * |ws|
  {
    if ws == [] then [] else Serialize(ws[..|ws| - 1]) + Htonl(ws[|ws| - 1])
  }

  /** The bits followed by the zero bits that fill the final word. */
  function Padded(bits: seq<bool>): (c: seq<bool>)
    ensures |c| == UINT_BITS * WordCount(|bits|)
    ensures forall k :: 0 <= k < |c| ==> c[k] == (k < |bits| && bits[k])
  {
    bits + Zeros(UINT_BITS * WordCount(|bits|) - |bits|)
  }

  lemma SerializeSnocBytes(ws: seq<nat>, x: nat)
    requires forall j :: 0 <= j < |ws| ==> ws[j] < UINT_MOD
    requires x < UINT_MOD
    ensures Serialize(ws + [x]) == Serialize(ws) + Htonl(x)
  {
    assert (ws + [x])[..|ws|] == ws;
  }

  /** The first w words serialize as the first w - 1 followed by word w - 1. */
  lemma SerializePrefix(ws: seq<nat>, w: nat)
    requires forall j :: 0 <= j < |ws| ==> ws[j] < UINT_MOD
    requires 0 < w <= |ws|
    ensures Serialize(ws[..w]) == Serialize(ws[..w - 1]) + Htonl(ws[w - 1])
  {
    assert ws[..w] == ws[..w - 1] + [ws[w - 1]];
    SerializeSnocBytes(ws[..w - 1], ws[w - 1]);
  }

  /** Word j's share of the padded bits is its chunk followed by zeros. */
  lemma PaddedChunk(bits: seq<bool>, j: nat)
    requires j < WordCount(|bits|)
    ensures UINT_BITS * j + UINT_BITS <= |Padded(bits)|
    ensures Padded(bits)[UINT_BITS * j .. UINT_BITS * j + UINT_BITS]
            == Chunk(bits, j) + Zeros(UINT_BITS - |Chunk(bits, j)|)
  {
    var c := Chunk(bits, j);
    var pad := Padded(bits);
    var lo := UINT_BITS * j;
    var want := c + Zeros(UINT_BITS - |c|);
    forall t | 0 <= t < UINT_BITS
      ensures pad[lo..lo + UINT_BITS][t] == want[t]
    {
      if t < |c| {
        assert c[t] == bits[lo + t];
      }
    }
  }

  /**
   * The first w words of the bitmap, read bit by bit most significant first,
   * are the first 32w bits of the packed bits followed by zero padding.
   */
  lemma {:induction false} PackedStream(bits: seq<bool>, w: nat)
    requires w <= WordCount(|bits|)
    ensures StreamBits(Serialize(Words(bits)[..w])) == Padded(bits)[..UINT_BITS * w]
  {
    if w == 0 {
      assert Words(bits)[..0] == [];
    } else {
      PackedStream(bits, w - 1);
      PackedStreamStep(bits, w);
    }
  }

  lemma PackedStreamStep(bits: seq<bool>, w: nat)
    requires 0 < w <= WordCount(|bits|)
    requires StreamBits(Serialize(Words(bits)[..w - 1])) == Padded(bits)[..UINT_BITS * (w - 1)]
    ensures StreamBits(Serialize(Words(bits)[..w])) == Padded(bits)[..UINT_BITS * w]
  {
    var lo := UINT_BITS * (w - 1);
    SerializePrefixBits(Words(bits), w);
    WordBits(bits, w - 1);
    SliceSplit(Padded(bits), lo, lo + UINT_BITS);
  }

  /** The bits of the first w words are those of the first w - 1 followed by word w - 1's 32 bits. */
  lemma SerializePrefixBits(ws: seq<nat>, w: nat)
    requires forall j :: 0 <= j < |ws| ==> ws[j] < UINT_MOD
    requires 0 < w <= |ws|
    ensures StreamBits(Serialize(ws[..w])) == StreamBits(Serialize(ws[..w - 1])) + BitsMsbFirst(ws[w - 1], UINT_BITS)
  {
    SerializePrefix(ws, w);
    StreamBitsConcat(Serialize(ws[..w - 1]), Htonl(ws[w - 1]));
    HtonlBits(ws[w - 1]);
  }

  lemma SliceSplit<T>(s: seq<T>, i: nat, j: nat)
    requires i <= j <= |s|
    ensures s[..j] == s[..i] + s[i..j]
  {
  }

  /**
   * Bit k of the first w words of the bitmap (byte k / 8, bit 7 - k % 8)
   * is the k-th packed bit; every bit past the packed ones is zero.
   */
  lemma PackedStreamPrefixAt(bits: seq<bool>, w: nat, k: nat)
    requires w <= WordCount(|bits|) && k < UINT_BITS * w
    ensures k < 8 * |Serialize(Words(bits)[..w])|
    ensures StreamBits(Serialize(Words(bits)[..w]))[k] == (k < |bits| && bits[k])
  {
    PackedStream(bits, w);
  }

  /**
   * Word j of the bitmap holds, from bit 31 down, the bits 32j .. 32j+31
   * (fewer in the final word), then zeros.
   */
  lemma WordBits(bits: seq<bool>, j: nat)
    requires j < WordCount(|bits|)
    ensures BitsMsbFirst(Words(bits)[j], UINT_BITS)
            == Padded(bits)[UINT_BITS * j .. UINT_BITS * j + UINT_BITS]
  {
    PaddedChunk(bits, j);
    WordOfBits(Chunk(bits, j));
  }
}
