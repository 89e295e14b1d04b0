/**
 * What a scan computes, stated without the loop: the blocks the reads
 * return, their classification, the counters, and the outcome of a whole
 * run (how many reads, how many bits packed, how many words written, and
 * the status) as a closed form in the input length, the block size, the
 * block-count limit and the positions of the I/O faults.
 */
module ScanSpec {
  import opened Wrappers
  import opened Bits
  import opened Packing

  /* ---------------------------------------------------------------- */
  /* Blocks                                                            */

  /**
   * The number of reads that an input of L bytes answers before and
   * including the first short one: L / bs full blocks, then one read that
   * returns the L % bs remaining bytes (possibly none) and meets end of input.
   */
  function Reads(L: nat, bs: nat): nat
    requires bs > 0
  {
    L / bs + 1
  }

  lemma MulLe(a: nat, b: nat, c: nat)
    requires a <= b
    ensures a * c <= b * c
  {
    assert b * c == a * c + (b - a) * c;
  }

  lemma BlockBounds(L: nat, bs: nat, i: nat)
    requires bs > 0 && i < Reads(L, bs)
    ensures i * bs <= L
    ensures i + 1 < Reads(L, bs) ==> i * bs + bs <= L
    ensures i + 1 == Reads(L, bs) ==> L - i * bs == L % bs
  {
    var q := L / bs;
    assert L == q * bs + L % bs;
    if i < q {
      MulLe(i + 1, q, bs);
      assert (i + 1) * bs == i * bs + bs;
    } else {
      assert i == q;
    }
  }

  /** The bytes that the i-th read (from 0) of a fresh input returns. */
  function Block(data: seq<byte>, bs: nat, i: nat): (b: seq<byte>)
    requires bs > 0 && i < Reads(|data|, bs)
    ensures i + 1 < Reads(|data|, bs) ==> |b| == bs
    ensures i + 1 == Reads(|data|, bs) ==> |b| == |data| % bs
  {
    BlockBounds(|data|, bs, i);
    data[i * bs .. Min(i * bs + bs, |data|)]
  }

  /* ---------------------------------------------------------------- */
  /* Classification                                                    */

  /** A block is used when some byte of it differs from the null byte. */
  predicate HasContent(block: seq<byte>, nullbyte: byte)
  {
    exists j :: 0 <= j < |block| && block[j] != nullbyte
  }

  /** A block is unused exactly when it consists of the null byte only. */
  lemma HasContentIffNotUniform(block: seq<byte>, nullbyte: byte)
    ensures HasContent(block, nullbyte) <==> block != seq(|block|, _ => nullbyte)
  {
    var u := seq(|block|, _ => nullbyte);
    if HasContent(block, nullbyte) {
      var j :| 0 <= j < |block| && block[j] != nullbyte;
      assert block[j] != u[j];
    } else {
      assert forall j :: 0 <= j < |block| ==> block[j] == u[j];
    }
  }

  /** Where in the block the differing byte stands does not matter. */
  lemma HasContentPermutation(a: seq<byte>, b: seq<byte>, nullbyte: byte)
    requires multiset(a) == multiset(b)
    ensures HasContent(a, nullbyte) <==> HasContent(b, nullbyte)
  {
    if HasContent(a, nullbyte) {
      var j :| 0 <= j < |a| && a[j] != nullbyte;
      assert a[j] in multiset(b);
      var k :| 0 <= k < |b| && b[k] == a[j];
    }
    if HasContent(b, nullbyte) {
      var j :| 0 <= j < |b| && b[j] != nullbyte;
      assert b[j] in multiset(a);
      var k :| 0 <= k < |a| && a[k] == b[j];
    }
  }

  /** The classification bits of reads lo .. n - 1, one per read. */
  function ClassBits(data: seq<byte>, bs: nat, nullbyte: byte, lo: nat, n: nat): (c: seq<bool>)
    requires bs > 0 && lo <= n <= Reads(|data|, bs)
    ensures |c| == n - lo
  {
    if n == lo then [] else ClassBits(data, bs, nullbyte, lo, n - 1) + [HasContent(Block(data, bs, n - 1), nullbyte)]
  }

  /** Bit k of the classification is set exactly when block k has content. */
  lemma {:induction false} ClassBitsAt(data: seq<byte>, bs: nat, nullbyte: byte, lo: nat, n: nat, k: nat)
    requires bs > 0 && lo <= k < n <= Reads(|data|, bs)
    ensures ClassBits(data, bs, nullbyte, lo, n)[k - lo] == HasContent(Block(data, bs, k), nullbyte)
  {
    if k < n - 1 {
      ClassBitsAt(data, bs, nullbyte, lo, n - 1, k);
    }
  }

  /** The bits of reads lo .. n - 1 are those of lo .. m - 1 followed by those of m .. n - 1. */
  lemma {:induction false} ClassBitsSplit(data: seq<byte>, bs: nat, nullbyte: byte, lo: nat, m: nat, n: nat)
    requires bs > 0 && lo <= m <= n <= Reads(|data|, bs)
    ensures ClassBits(data, bs, nullbyte, lo, n)
            == ClassBits(data, bs, nullbyte, lo, m) + ClassBits(data, bs, nullbyte, m, n)
  {
    if n > m {
      ClassBitsSplit(data, bs, nullbyte, lo, m, n - 1);
    }
  }

  /** A slice of the classification of the first n reads is the classification of those reads. */
  lemma ClassBitsSlice(data: seq<byte>, bs: nat, nullbyte: byte, n: nat, lo: nat, hi: nat)
    requires bs > 0 && lo <= hi <= n <= Reads(|data|, bs)
    ensures ClassBits(data, bs, nullbyte, 0, n)[lo..hi] == ClassBits(data, bs, nullbyte, lo, hi)
  {
    ClassBitsSplit(data, bs, nullbyte, 0, hi, n);
    ClassBitsSplit(data, bs, nullbyte, 0, lo, hi);
    var a, b, c := ClassBits(data, bs, nullbyte, 0, lo), ClassBits(data, bs, nullbyte, lo, hi),
                   ClassBits(data, bs, nullbyte, hi, n);
    assert (a + b + c)[lo..hi] == b;
  }

  /**
   * Word j after n reads: the bits of reads 32j up to 32j + 32, or up to n
   * when the word is the final, partial one.
   */
  function Word(data: seq<byte>, bs: nat, nullbyte: byte, n: nat, j: nat): (x: nat)
    requires bs > 0 && n <= Reads(|data|, bs) && j < WordCount(n)
    ensures x < UINT_MOD
  {
    WordCountBound(n, j + 1);
    WordOf(ClassBits(data, bs, nullbyte, UINT_BITS * j, Min(UINT_BITS * j + UINT_BITS, n)))
  }

  lemma WordIs(data: seq<byte>, bs: nat, nullbyte: byte, n: nat, j: nat)
    requires bs > 0 && n <= Reads(|data|, bs) && j < WordCount(n)
    ensures UINT_BITS * j <= Min(UINT_BITS * j + UINT_BITS, n) <= n
    ensures Word(data, bs, nullbyte, n, j)
            == WordOf(ClassBits(data, bs, nullbyte, UINT_BITS * j, Min(UINT_BITS * j + UINT_BITS, n)))
  {
    WordCountBound(n, j + 1);
  }

  /** Word j is word j of the classification bits of the first n reads. */
  lemma WordIsWords(data: seq<byte>, bs: nat, nullbyte: byte, n: nat, j: nat)
    requires bs > 0 && n <= Reads(|data|, bs) && j < WordCount(n)
    ensures Word(data, bs, nullbyte, n, j) == Words(ClassBits(data, bs, nullbyte, 0, n))[j]
  {
    var bits := ClassBits(data, bs, nullbyte, 0, n);
    var lo, hi := UINT_BITS * j, Min(UINT_BITS * j + UINT_BITS, n);
    WordIs(data, bs, nullbyte, n, j);
    WordsAt(bits, j);
    ClassBitsSlice(data, bs, nullbyte, n, lo, hi);
  }

  /** The bytes written after n reads of which w words were flushed: the words, each in network byte order. */
  function Bitmap(data: seq<byte>, bs: nat, nullbyte: byte, n: nat, w: nat): (s: seq<byte>)
    requires bs > 0 && n <= Reads(|data|, bs) && w <= WordCount(n)
    ensures |s| == 4 * w
  {
    if w == 0 then [] else Bitmap(data, bs, nullbyte, n, w - 1) + Htonl(Word(data, bs, nullbyte, n, w - 1))
  }

  /** The bitmap is the serialization of the first w words of the classification bits. */
  lemma {:induction false} BitmapSerialized(data: seq<byte>, bs: nat, nullbyte: byte, n: nat, w: nat)
    requires bs > 0 && n <= Reads(|data|, bs) && w <= WordCount(n)
    ensures Bitmap(data, bs, nullbyte, n, w) == Serialize(Words(ClassBits(data, bs, nullbyte, 0, n))[..w])
  {
    if w > 0 {
      var ws := Words(ClassBits(data, bs, nullbyte, 0, n));
      WordCountBound(n, w);
      BitmapSerialized(data, bs, nullbyte, n, w - 1);
      WordIsWords(data, bs, nullbyte, n, w - 1);
      SerializePrefix(ws, w);
    }
  }

  /** Packing one more bit leaves the words already written unchanged. */
  lemma {:induction false} BitmapGrow(data: seq<byte>, bs: nat, nullbyte: byte, n: nat, w: nat)
    requires bs > 0 && n < Reads(|data|, bs) && UINT_BITS * w <= n
    ensures Bitmap(data, bs, nullbyte, n + 1, w) == Bitmap(data, bs, nullbyte, n, w)
  {
    WordCountBound(n, w);
    if w > 0 {
      BitmapGrow(data, bs, nullbyte, n, w - 1);
    }
  }

  /** Writing word w appends the big-endian bytes of the bits packed since word w - 1. */
  lemma BitmapFlush(data: seq<byte>, bs: nat, nullbyte: byte, n: nat, w: nat)
    requires bs > 0 && n <= Reads(|data|, bs)
    requires UINT_BITS * w < n <= UINT_BITS * w + UINT_BITS
    ensures w + 1 <= WordCount(n)
    ensures Bitmap(data, bs, nullbyte, n, w + 1)
            == Bitmap(data, bs, nullbyte, n, w) + Htonl(WordOf(ClassBits(data, bs, nullbyte, UINT_BITS * w, n)))
  {
    WordCountBound(n, w + 1);
  }

  /** Once read i has been packed, writing the accumulator makes it word w of the bitmap. */
  lemma BitmapAppend(data: seq<byte>, bs: nat, nullbyte: byte, i: nat, w: nat, x: nat)
    requires bs > 0 && i < Reads(|data|, bs) && UINT_BITS * w <= i < UINT_BITS * w + UINT_BITS
    requires x == WordOf(ClassBits(data, bs, nullbyte, UINT_BITS * w, i + 1))
    ensures w <= WordCount(i) && w + 1 <= WordCount(i + 1)
    ensures Bitmap(data, bs, nullbyte, i, w) + Htonl(x) == Bitmap(data, bs, nullbyte, i + 1, w + 1)
  {
    WordCountBound(i, w);
    BitmapGrow(data, bs, nullbyte, i, w);
    BitmapFlush(data, bs, nullbyte, i + 1, w);
  }

  /**
   * `bits += res << (UINT_BITS - cbi - 1)` on the word of the bits of reads
   * lo .. n - 1 gives the word of the bits of reads lo .. n.
   */
  lemma PackNext(data: seq<byte>, bs: nat, nullbyte: byte, n: nat, lo: nat, bits: nat, r: nat)
    requires bs > 0 && n < Reads(|data|, bs) && lo <= n < lo + UINT_BITS
    requires bits == WordOf(ClassBits(data, bs, nullbyte, lo, n))
    requires r == if HasContent(Block(data, bs, n), nullbyte) then 1 else 0
    ensures bits + r * Pow2(UINT_BITS - (n - lo) - 1) < UINT_MOD
    ensures (bits + r * Pow2(UINT_BITS - (n - lo) - 1)) % UINT_MOD
            == WordOf(ClassBits(data, bs, nullbyte, lo, n + 1))
  {
    PackBit(bits, r, ClassBits(data, bs, nullbyte, lo, n), HasContent(Block(data, bs, n), nullbyte), n - lo);
  }

  /* ---------------------------------------------------------------- */
  /* Counters                                                          */

  /** The bytes returned by the first n reads. */
  function InBytes(data: seq<byte>, bs: nat, n: nat): nat
    requires bs > 0 && n <= Reads(|data|, bs)
  {
    if n == 0 then 0 else InBytes(data, bs, n - 1) + |Block(data, bs, n - 1)|
  }

  /** The number of reads among the first n that returned at least one byte. */
  function InBlocks(data: seq<byte>, bs: nat, n: nat): nat
    requires bs > 0 && n <= Reads(|data|, bs)
  {
    if n == 0 then 0 else InBlocks(data, bs, n - 1) + (if |Block(data, bs, n - 1)| != 0 then 1 else 0)
  }

  /** Before the short read, every read returned a whole block. */
  lemma {:induction false} InBytesFull(data: seq<byte>, bs: nat, n: nat)
    requires bs > 0 && n < Reads(|data|, bs)
    ensures InBytes(data, bs, n) == n * bs
    ensures InBlocks(data, bs, n) == n
  {
    if n > 0 {
      InBytesFull(data, bs, n - 1);
      assert (n - 1) * bs + bs == n * bs;
    }
  }

  /** The number of bytes `fread` returns when asked for bs bytes at position pos of an input of L bytes. */
  function ReadSize(L: nat, bs: nat, pos: nat): nat
    requires pos <= L
  {
    if L - pos < bs then L - pos else bs
  }

  /**
   * Read i, made at the position where the earlier reads left off, asks for
   * bs bytes and gets block i, which is shorter than bs exactly when it is
   * the last read.
   */
  lemma ReadIsBlock(data: seq<byte>, bs: nat, i: nat, pos: nat)
    requires bs > 0 && i < Reads(|data|, bs) && pos == InBytes(data, bs, i) && pos <= |data|
    ensures pos + ReadSize(|data|, bs, pos) <= |data|
    ensures data[pos .. pos + ReadSize(|data|, bs, pos)] == Block(data, bs, i)
    ensures ReadSize(|data|, bs, pos) < bs <==> i + 1 == Reads(|data|, bs)
  {
    InBytesFull(data, bs, i);
    BlockBounds(|data|, bs, i);
  }

  /** After read i the counters have grown by the bytes it returned and by one block if it returned any. */
  lemma ReadCounts(data: seq<byte>, bs: nat, i: nat, pos: nat)
    requires bs > 0 && i < Reads(|data|, bs) && pos == InBytes(data, bs, i) && pos <= |data|
    ensures pos + ReadSize(|data|, bs, pos) <= |data|
    ensures InBytes(data, bs, i + 1) == pos + ReadSize(|data|, bs, pos)
    ensures InBlocks(data, bs, i + 1) == InBlocks(data, bs, i) + (if ReadSize(|data|, bs, pos) != 0 then 1 else 0)
    ensures ReadSize(|data|, bs, pos) < bs <==> i + 1 == Reads(|data|, bs)
  {
    ReadIsBlock(data, bs, i, pos);
  }

  /** The bytes that read i returns are used exactly when block i is. */
  lemma ReadClass(data: seq<byte>, bs: nat, nullbyte: byte, i: nat, pos: nat)
    requires bs > 0 && i < Reads(|data|, bs) && pos == InBytes(data, bs, i) && pos <= |data|
    ensures pos + ReadSize(|data|, bs, pos) <= |data|
    ensures HasContent(data[pos .. pos + ReadSize(|data|, bs, pos)], nullbyte)
            == HasContent(Block(data, bs, i), nullbyte)
  {
    ReadIsBlock(data, bs, i, pos);
  }

  /**
   * Reading the whole input returns every byte once, in ceil(L / bs)
   * non-empty reads: L / bs full blocks and one more when bs does not divide L.
   */
  lemma ReadToEnd(data: seq<byte>, bs: nat)
    requires bs > 0
    ensures InBytes(data, bs, Reads(|data|, bs)) == |data|
    ensures InBlocks(data, bs, Reads(|data|, bs)) == |data| / bs + (if |data| % bs != 0 then 1 else 0)
  {
    var q, r := |data| / bs, |data| % bs;
    assert Reads(|data|, bs) == q + 1;
    InBytesFull(data, bs, q);
    assert |Block(data, bs, q)| == r;
    assert InBytes(data, bs, q + 1) == q * bs + r;
    assert |data| == q * bs + r;
    assert InBlocks(data, bs, q + 1) == q + (if r != 0 then 1 else 0);
  }

  /** The reads never run past the end of the input. */
  lemma InBytesBound(data: seq<byte>, bs: nat, k: nat)
    requires bs > 0 && k <= Reads(|data|, bs)
    ensures InBytes(data, bs, k) <= |data|
  {
    if k < Reads(|data|, bs) {
      InBytesFull(data, bs, k);
      BlockBounds(|data|, bs, k);
    } else {
      ReadToEnd(data, bs);
    }
  }

  /* ---------------------------------------------------------------- */
  /* Runs                                                              */

  /** The number of iterations a fault-free run makes: up to the short read, or the limit if that comes first. */
  function Attempted(L: nat, bs: nat, countSet: bool, count: nat): (a: nat)
    requires bs > 0
    ensures a <= Reads(L, bs) && (countSet ==> a <= count)
  {
    if countSet && count < Reads(L, bs) then count else Reads(L, bs)
  }

  /**
   * The words a fault-free run has written after k iterations: the filled
   * ones, and the partial one too once the short read has been met.
   */
  function Flushed(L: nat, bs: nat, k: nat): (w: nat)
    requires bs > 0 && k <= Reads(L, bs)
    ensures w <= WordCount(k)
  {
    if k == Reads(L, bs) then WordCount(k) else k / UINT_BITS
  }

  lemma FlushedBounds(L: nat, bs: nat, k: nat)
    requires bs > 0 && k <= Reads(L, bs)
    ensures Flushed(L, bs, k) <= WordCount(k)
    ensures k < Reads(L, bs) ==> UINT_BITS * Flushed(L, bs, k) <= k < UINT_BITS * Flushed(L, bs, k) + UINT_BITS
    ensures k == Reads(L, bs) ==> k <= UINT_BITS * Flushed(L, bs, k) < k + UINT_BITS
  {
  }

  /** Iteration i writes a word exactly when it fills one or meets the short read. */
  lemma FlushedNext(L: nat, bs: nat, i: nat)
    requires bs > 0 && i < Reads(L, bs)
    ensures var w := Flushed(L, bs, i);
            Flushed(L, bs, i + 1)
            == w + (if i + 1 - UINT_BITS * w == UINT_BITS || i + 1 == Reads(L, bs) then 1 else 0)
  {
    FlushedBounds(L, bs, i);
  }

  /**
   * The words a fault-free run writes: every filled word, and the partial
   * final word only when the run ended on the short read.
   */
  function FaultFreeWords(L: nat, bs: nat, countSet: bool, count: nat): nat
    requires bs > 0
  {
    Flushed(L, bs, Attempted(L, bs, countSet, count))
  }

  /** The iteration (from 0) in which a fault-free run writes word j. */
  function FlushAt(L: nat, bs: nat, countSet: bool, count: nat, j: nat): nat
    requires bs > 0 && j < FaultFreeWords(L, bs, countSet, count)
  {
    Min(UINT_BITS * j + UINT_BITS - 1, Attempted(L, bs, countSet, count) - 1)
  }

  /**
   * The outcome of a run: the exit status, the number of reads issued, the
   * number of blocks classified and packed, and the number of words written.
   */
  datatype Run = Run(status: int, calls: nat, iterations: nat, words: nat)

  /**
   * The outcome of a scan of an input of L bytes whose read number
   * `failRead` (from 0) fails with an I/O error, against an output whose
   * write number `failWrite` fails. Whichever fault comes first, in the order
   * the loop would meet them, stops the run with status 1.
   */
  function Expected(L: nat, bs: nat, countSet: bool, count: nat,
                    failRead: Option<nat>, failWrite: Option<nat>): (e: Run)
    requires bs > 0
    ensures e.iterations <= e.calls <= Attempted(L, bs, countSet, count)
    ensures e.words <= WordCount(e.iterations)
  {
    var a := Attempted(L, bs, countSet, count);
    var readStop := failRead.Some? && failRead.value < a;
    var writeStop := failWrite.Some? && failWrite.value < FaultFreeWords(L, bs, countSet, count);
    if writeStop && (!readStop || FlushAt(L, bs, countSet, count, failWrite.value) < failRead.value) then
      var i := FlushAt(L, bs, countSet, count, failWrite.value) + 1;
      Run(1, i, i, failWrite.value)
    else if readStop then
      Run(1, failRead.value + 1, failRead.value, failRead.value / UINT_BITS)
    else
      Run(0, a, a, FaultFreeWords(L, bs, countSet, count))
  }

  /** The run stopped by a read fault in iteration i, before word i / 32 is complete. */
  lemma ReadStop(L: nat, bs: nat, countSet: bool, count: nat,
                 failRead: Option<nat>, failWrite: Option<nat>, i: nat, w: nat)
    requires bs > 0 && i < Reads(L, bs) && (countSet ==> i < count)
    requires failRead == Some(i) && UINT_BITS * w <= i < UINT_BITS * w + UINT_BITS
    requires failWrite.Some? ==> failWrite.value >= w
    ensures Expected(L, bs, countSet, count, failRead, failWrite) == Run(1, i + 1, i, w)
  {
    assert w == i / UINT_BITS;
  }

  /**
   * The run stopped by a fault in the write of word w, after i iterations:
   * either word w was full, or iteration i - 1 met end of input.
   */
  lemma WriteStop(L: nat, bs: nat, countSet: bool, count: nat,
                  failRead: Option<nat>, failWrite: Option<nat>, i: nat, w: nat)
    requires bs > 0 && i <= Reads(L, bs) && (countSet ==> i <= count)
    requires UINT_BITS * w < i <= UINT_BITS * w + UINT_BITS
    requires i == UINT_BITS * w + UINT_BITS || i == Reads(L, bs)
    requires failWrite == Some(w)
    requires failRead.Some? ==> failRead.value >= i
    ensures Expected(L, bs, countSet, count, failRead, failWrite) == Run(1, i, i, w)
  {
    assert w == (i - 1) / UINT_BITS;
  }

  /** The run ended by end of input or by the limit, after i iterations and w words. */
  lemma Complete(L: nat, bs: nat, countSet: bool, count: nat,
                 failRead: Option<nat>, failWrite: Option<nat>, i: nat, w: nat, run: bool)
    requires bs > 0
    requires !run ==> i == Reads(L, bs) && i <= UINT_BITS * w < i + UINT_BITS && (countSet ==> i <= count)
    requires run ==> countSet && i == count && i < Reads(L, bs) && UINT_BITS * w <= i < UINT_BITS * w + UINT_BITS
    requires failRead.Some? ==> failRead.value >= i
    requires failWrite.Some? ==> failWrite.value >= w
    ensures Expected(L, bs, countSet, count, failRead, failWrite) == Run(0, i, i, w)
  {
    if run {
      assert w == i / UINT_BITS;
    } else {
      assert w == WordCount(i);
    }
  }

  /* ---------------------------------------------------------------- */
  /* Properties of runs                                                */

  /**
   * Every run's output, read bit by bit, holds the classification of the
   * k-th block at bit k, and zeros after the last classified block.
   */
  lemma RunOutputBits(data: seq<byte>, bs: nat, nullbyte: byte, countSet: bool, count: nat,
                      failRead: Option<nat>, failWrite: Option<nat>, k: nat)
    requires bs > 0
    requires k < UINT_BITS * Expected(|data|, bs, countSet, count, failRead, failWrite).words
    ensures var e := Expected(|data|, bs, countSet, count, failRead, failWrite);
            var out := Bitmap(data, bs, nullbyte, e.iterations, e.words);
            k < 8 * |out| &&
            StreamBits(out)[k] == (k < e.iterations && HasContent(Block(data, bs, k), nullbyte))
  {
    var e := Expected(|data|, bs, countSet, count, failRead, failWrite);
    BitmapSerialized(data, bs, nullbyte, e.iterations, e.words);
    PackedStreamPrefixAt(ClassBits(data, bs, nullbyte, 0, e.iterations), e.words, k);
    if k < e.iterations {
      ClassBitsAt(data, bs, nullbyte, 0, e.iterations, k);
    }
  }

  /**
   * Without a limit and without faults the loop makes L / bs + 1 iterations,
   * the last one on the short read, and writes ceil((L / bs + 1) / 32) words.
   */
  lemma RunToEnd(L: nat, bs: nat)
    requires bs > 0
    ensures Expected(L, bs, false, 0, None, None) == Run(0, L / bs + 1, L / bs + 1, WordCount(L / bs + 1))
  {
  }

  /**
   * When bs divides L the last read returns no bytes, yet its 0 bit is
   * packed: bit L / bs of the output is 0.
   */
  lemma ExactMultipleZeroBit(data: seq<byte>, bs: nat, nullbyte: byte)
    requires bs > 0 && |data| % bs == 0
    ensures var e := Expected(|data|, bs, false, 0, None, None);
            var out := Bitmap(data, bs, nullbyte, e.iterations, e.words);
            |data| / bs < e.iterations && |data| / bs < 8 * |out| && !StreamBits(out)[|data| / bs]
  {
    var k := |data| / bs;
    RunToEnd(|data|, bs);
    assert UINT_BITS * WordCount(k + 1) >= k + 1;
    RunOutputBits(data, bs, nullbyte, false, 0, None, None, k);
    assert Block(data, bs, k) == [];
  }

  /** An empty input is read once and gives one all-zero word. */
  lemma EmptyInput(bs: nat, nullbyte: byte)
    requires bs > 0
    ensures Expected(0, bs, false, 0, None, None) == Run(0, 1, 1, 1)
    ensures Bitmap([], bs, nullbyte, 1, 1) == [0, 0, 0, 0]
  {
    var bits := ClassBits([], bs, nullbyte, 0, 1);
    assert Block([], bs, 0) == [];
    assert bits == [false];
    assert Val(bits) == 0 by {
      assert bits[..0] == [];
    }
    assert Word([], bs, nullbyte, 1, 0) == 0;
  }

  /** A limit that is not reached before the short read changes nothing. */
  lemma LargeLimit(L: nat, bs: nat, count: nat, failRead: Option<nat>, failWrite: Option<nat>)
    requires bs > 0 && count >= Reads(L, bs)
    ensures Expected(L, bs, true, count, failRead, failWrite) == Expected(L, bs, false, 0, failRead, failWrite)
  {
  }

  /** A limit of c blocks met before the short read: c reads, and only the c / 32 filled words are written. */
  lemma LimitReached(L: nat, bs: nat, count: nat)
    requires bs > 0 && count < Reads(L, bs)
    ensures Expected(L, bs, true, count, None, None) == Run(0, count, count, count / UINT_BITS)
  {
  }

  /** A limit of 0 reads nothing and writes nothing, faults or not. */
  lemma LimitZero(data: seq<byte>, bs: nat, nullbyte: byte, failRead: Option<nat>, failWrite: Option<nat>)
    requires bs > 0
    ensures var e := Expected(|data|, bs, true, 0, failRead, failWrite);
            e == Run(0, 0, 0, 0) && Bitmap(data, bs, nullbyte, 0, 0) == [] &&
            InBlocks(data, bs, 0) == 0 && InBytes(data, bs, 0) == 0
  {
  }

  /**
   * A read fault before any write fault: the blocks before it are counted and
   * packed, the pending partial word is not written, and the status is 1.
   */
  lemma ReadFault(L: nat, bs: nat, countSet: bool, count: nat, k: nat)
    requires bs > 0 && k < Attempted(L, bs, countSet, count)
    ensures Expected(L, bs, countSet, count, Some(k), None) == Run(1, k + 1, k, k / UINT_BITS)
  {
  }

  /** The status is 1 exactly when a fault lies within the reads or writes a fault-free run would issue. */
  lemma StatusIffFault(L: nat, bs: nat, countSet: bool, count: nat,
                       failRead: Option<nat>, failWrite: Option<nat>)
    requires bs > 0
    ensures var e := Expected(L, bs, countSet, count, failRead, failWrite);
            (e.status == 1 <==>
              (failRead.Some? && failRead.value < Attempted(L, bs, countSet, count)) ||
              (failWrite.Some? && failWrite.value < FaultFreeWords(L, bs, countSet, count))) &&
            (e.status == 0 <==> e == Expected(L, bs, countSet, count, None, None))
  {
  }
}
