/**
 * bitmapdd's loop one pass at a time: the loop's variables, the positions
 * of the two streams and the growth of the four counters as one value, the
 * effect of one pass through the loop body on it, and the closed form of
 * that value after any number of passes that met no fault.
 */
module ScanLoop {
  import opened Wrappers
  import opened Bits
  import opened Packing
  import opened ScanSpec

  /**
   * The state between two passes: the input position and the number of
   * reads, the number of writes and the bytes written, the accumulator
   * `bits` with its bit index `cbi`, the flags `run` and `err`, and how much
   * the four counters have grown.
   */
  datatype Loop = Loop(pos: nat, readCalls: nat, writeCalls: nat, out: seq<byte>,
                       bits: nat, cbi: nat, run: bool, err: bool,
                       inBlock: nat, inBytes: nat, outBlock: nat, outBytes: nat)

  /** The state before the first pass. */
  const Start := Loop(0, 0, 0, [], 0, 0, true, false, 0, 0, 0, 0)

  /** Within the input, fewer than 32 bits pending, and an `unsigned int` accumulator. */
  predicate Good(L: nat, s: Loop)
  {
    s.pos <= L && s.cbi < UINT_BITS && s.bits < UINT_MOD
  }

  /** The accumulator once the bit of the bytes the next read returns has been added at position 31 - cbi. */
  function Packed(data: seq<byte>, bs: nat, nullbyte: byte, s: Loop): (bits: nat)
    requires Good(|data|, s)
    ensures bits < UINT_MOD
  {
    var res := ReadSize(|data|, bs, s.pos);
    var r := if HasContent(data[s.pos .. s.pos + res], nullbyte) then 1 else 0;
    (s.bits + r * Pow2(UINT_BITS - s.cbi - 1)) % UINT_MOD
  }

  /** A pass whose read fails with an I/O error only counts the read and sets `err`. */
  function ReadFailed(s: Loop): (t: Loop)
    ensures t.readCalls == s.readCalls + 1 && t.err
  {
    s.(readCalls := s.readCalls + 1, err := true)
  }

  /**
   * The first half of a pass whose read succeeds: the read returns
   * `ReadSize` bytes, a short read clears `run`, the input counters grow,
   * and the block's bit is packed at position 31 - cbi.
   */
  function Take(data: seq<byte>, bs: nat, nullbyte: byte, s: Loop): (t: Loop)
    requires bs > 0 && Good(|data|, s)
    ensures t.pos <= |data| && 0 < t.cbi <= UINT_BITS && t.bits < UINT_MOD
  {
    var res := ReadSize(|data|, bs, s.pos);
    s.(pos := s.pos + res, readCalls := s.readCalls + 1, run := s.run && res == bs,
       inBlock := s.inBlock + (if res != 0 then 1 else 0), inBytes := s.inBytes + res,
       bits := Packed(data, bs, nullbyte, s), cbi := s.cbi + 1)
  }

  /** The word is written when all 32 bits are packed, or when the input has ended with some packed. */
  predicate Flushes(t: Loop): (due: bool)
    ensures due ==> t.cbi > 0
  {
    t.cbi == UINT_BITS || (!t.run && t.cbi != 0)
  }

  /**
   * The second half of a pass that flushes: the bit index is cleared and the
   * word written in network byte order, the output counters growing, or the
   * write `failWrite` fails and sets `err`.
   */
  function Emit(failWrite: Option<nat>, t: Loop): (u: Loop)
    requires t.bits < UINT_MOD
    ensures u.cbi == 0 && u.writeCalls == t.writeCalls + 1 && (u.err <==> t.err || failWrite == Some(t.writeCalls))
  {
    if failWrite == Some(t.writeCalls) then
      t.(cbi := 0, writeCalls := t.writeCalls + 1, err := true)
    else
      t.(cbi := 0, writeCalls := t.writeCalls + 1, out := t.out + Htonl(t.bits), bits := 0,
         outBlock := t.outBlock + 1, outBytes := t.outBytes + 4)
  }

  /**
   * One pass through the loop body on an input `data` whose read number
   * `failRead` fails and an output whose write number `failWrite` fails:
   * read a block, stop on an I/O error, note end of input, count, classify,
   * pack the bit at position 31 - cbi, and write the word when it is full
   * or the input has ended, stopping if that write fails.
   */
  function Step(data: seq<byte>, bs: nat, nullbyte: byte,
                failRead: Option<nat>, failWrite: Option<nat>, s: Loop): (t: Loop)
    requires bs > 0 && Good(|data|, s)
    ensures Good(|data|, t) && t.readCalls == s.readCalls + 1
  {
    if failRead == Some(s.readCalls) then
      ReadFailed(s)
    else
      var t := Take(data, bs, nullbyte, s);
      if Flushes(t) then Emit(failWrite, t) else t
  }

  /**
   * The state after k passes that met no fault, in closed form: k blocks
   * read and counted, the bits of those after the last written word packed
   * into the accumulator, and the written words (the filled ones, and the
   * partial one once the short read has been met) in the output.
   */
  function Closed(data: seq<byte>, bs: nat, nullbyte: byte, k: nat): (s: Loop)
    requires bs > 0 && k <= Reads(|data|, bs)
    ensures Good(|data|, s) && s.readCalls == k && !s.err
    ensures s.run <==> k < Reads(|data|, bs)
  {
    FlushedBounds(|data|, bs, k);
    InBytesBound(data, bs, k);
    var w := Flushed(|data|, bs, k);
    var run := k < Reads(|data|, bs);
    Loop(InBytes(data, bs, k), k, w, Bitmap(data, bs, nullbyte, k, w),
         if run then WordOf(ClassBits(data, bs, nullbyte, UINT_BITS * w, k)) else 0,
         if run then k - UINT_BITS * w else 0, run, false,
         InBlocks(data, bs, k), InBytes(data, bs, k), w, 4 * w)
  }

  /** Neither one of the first k reads nor one of the writes they lead to fails. */
  predicate FaultFree(L: nat, bs: nat, failRead: Option<nat>, failWrite: Option<nat>, k: nat)
    requires bs > 0 && k <= Reads(L, bs)
  {
    (failRead.Some? ==> failRead.value >= k) && (failWrite.Some? ==> failWrite.value >= Flushed(L, bs, k))
  }

  /** Before the first pass the loop state is the closed form for no passes, and no fault lies behind. */
  lemma StartClosed(data: seq<byte>, bs: nat, nullbyte: byte, failRead: Option<nat>, failWrite: Option<nat>)
    requires bs > 0
    ensures Closed(data, bs, nullbyte, 0) == Start
    ensures FaultFree(|data|, bs, failRead, failWrite, 0)
  {
    WordOfEmpty(ClassBits(data, bs, nullbyte, UINT_BITS * 0, 0));
  }

  /* ---------------------------------------------------------------- */
  /* The four shapes of a pass                                         */

  /** A pass whose read fails only counts the read and sets `err`. */
  lemma StepReadFault(data: seq<byte>, bs: nat, nullbyte: byte,
                      failRead: Option<nat>, failWrite: Option<nat>, s: Loop)
    requires bs > 0 && Good(|data|, s) && failRead == Some(s.readCalls)
    ensures Step(data, bs, nullbyte, failRead, failWrite, s) == s.(readCalls := s.readCalls + 1, err := true)
  {
  }

  /** A pass that reads a whole block and does not fill the word only packs the new bit. */
  lemma StepPack(data: seq<byte>, bs: nat, nullbyte: byte,
                 failRead: Option<nat>, failWrite: Option<nat>, s: Loop)
    requires bs > 0 && Good(|data|, s) && s.run && failRead != Some(s.readCalls)
    requires ReadSize(|data|, bs, s.pos) == bs && s.cbi + 1 < UINT_BITS
    ensures Step(data, bs, nullbyte, failRead, failWrite, s)
            == s.(pos := s.pos + bs, readCalls := s.readCalls + 1,
                  inBlock := s.inBlock + 1, inBytes := s.inBytes + bs,
                  bits := Packed(data, bs, nullbyte, s), cbi := s.cbi + 1)
  {
  }

  /** A pass that fills the word or meets the short read, and whose write succeeds, writes the word. */
  lemma StepFlush(data: seq<byte>, bs: nat, nullbyte: byte,
                  failRead: Option<nat>, failWrite: Option<nat>, s: Loop)
    requires bs > 0 && Good(|data|, s) && s.run && failRead != Some(s.readCalls)
    requires ReadSize(|data|, bs, s.pos) < bs || s.cbi + 1 == UINT_BITS
    requires failWrite != Some(s.writeCalls)
    ensures var res := ReadSize(|data|, bs, s.pos);
            Step(data, bs, nullbyte, failRead, failWrite, s)
            == s.(pos := s.pos + res, readCalls := s.readCalls + 1, run := res == bs,
                  inBlock := s.inBlock + (if res != 0 then 1 else 0), inBytes := s.inBytes + res,
                  cbi := 0, writeCalls := s.writeCalls + 1,
                  out := s.out + Htonl(Packed(data, bs, nullbyte, s)), bits := 0,
                  outBlock := s.outBlock + 1, outBytes := s.outBytes + 4)
  {
  }

  /** A pass that fills the word or meets the short read, and whose write fails, counts the read and sets `err`. */
  lemma StepWriteFault(data: seq<byte>, bs: nat, nullbyte: byte,
                       failRead: Option<nat>, failWrite: Option<nat>, s: Loop)
    requires bs > 0 && Good(|data|, s) && s.run && failRead != Some(s.readCalls)
    requires ReadSize(|data|, bs, s.pos) < bs || s.cbi + 1 == UINT_BITS
    requires failWrite == Some(s.writeCalls)
    ensures var res := ReadSize(|data|, bs, s.pos);
            Step(data, bs, nullbyte, failRead, failWrite, s)
            == s.(pos := s.pos + res, readCalls := s.readCalls + 1, run := res == bs,
                  inBlock := s.inBlock + (if res != 0 then 1 else 0), inBytes := s.inBytes + res,
                  bits := Packed(data, bs, nullbyte, s), cbi := 0, writeCalls := s.writeCalls + 1,
                  err := true)
  {
  }

  /* ---------------------------------------------------------------- */
  /* Fault-free passes keep the closed form                            */

  /** On the closed form for i passes, the next packing gives the word of the bits since the last written word. */
  lemma PackedClosed(data: seq<byte>, bs: nat, nullbyte: byte, i: nat, lo: nat, s: Loop)
    requires bs > 0 && i < Reads(|data|, bs) && Good(|data|, s)
    requires s.pos == InBytes(data, bs, i) && lo <= i < lo + UINT_BITS
    requires s.cbi == i - lo && s.bits == WordOf(ClassBits(data, bs, nullbyte, lo, i))
    ensures Packed(data, bs, nullbyte, s) == WordOf(ClassBits(data, bs, nullbyte, lo, i + 1))
  {
    ReadClass(data, bs, nullbyte, i, s.pos);
    var r := if HasContent(Block(data, bs, i), nullbyte) then 1 else 0;
    PackNext(data, bs, nullbyte, i, lo, s.bits, r);
  }

  /** The closed form for i + 1 passes when pass i filled no word. */
  lemma PackTarget(data: seq<byte>, bs: nat, nullbyte: byte, i: nat)
    requires bs > 0 && i + 1 < Reads(|data|, bs)
    requires i + 1 - UINT_BITS * Flushed(|data|, bs, i) != UINT_BITS
    ensures var w := Flushed(|data|, bs, i);
            UINT_BITS * w <= i < UINT_BITS * w + UINT_BITS - 1 &&
            Closed(data, bs, nullbyte, i + 1)
            == Loop(InBytes(data, bs, i + 1), i + 1, w, Bitmap(data, bs, nullbyte, i + 1, w),
                    WordOf(ClassBits(data, bs, nullbyte, UINT_BITS * w, i + 1)), i + 1 - UINT_BITS * w,
                    true, false, InBlocks(data, bs, i + 1), InBytes(data, bs, i + 1), w, 4 * w)
  {
    FlushedBounds(|data|, bs, i);
    FlushedNext(|data|, bs, i);
  }

  /** The closed form for i + 1 passes when pass i wrote a word. */
  lemma FlushTarget(data: seq<byte>, bs: nat, nullbyte: byte, i: nat)
    requires bs > 0 && i < Reads(|data|, bs)
    requires i + 1 - UINT_BITS * Flushed(|data|, bs, i) == UINT_BITS || i + 1 == Reads(|data|, bs)
    ensures var w := Flushed(|data|, bs, i);
            w + 1 <= WordCount(i + 1) &&
            Closed(data, bs, nullbyte, i + 1)
            == Loop(InBytes(data, bs, i + 1), i + 1, w + 1, Bitmap(data, bs, nullbyte, i + 1, w + 1),
                    0, 0, i + 1 < Reads(|data|, bs), false,
                    InBlocks(data, bs, i + 1), InBytes(data, bs, i + 1), w + 1, 4 * (w + 1))
  {
    var w := Flushed(|data|, bs, i);
    FlushedBounds(|data|, bs, i);
    FlushedNext(|data|, bs, i);
    if i + 1 < Reads(|data|, bs) {
      WordOfEmpty(ClassBits(data, bs, nullbyte, UINT_BITS * (w + 1), i + 1));
    }
  }

  /** A pass that fills no word: the new bit is packed and nothing is written. */
  lemma PackClosed(data: seq<byte>, bs: nat, nullbyte: byte,
                   failRead: Option<nat>, failWrite: Option<nat>, i: nat)
    requires bs > 0 && i + 1 < Reads(|data|, bs) && FaultFree(|data|, bs, failRead, failWrite, i + 1)
    requires i + 1 - UINT_BITS * Flushed(|data|, bs, i) != UINT_BITS
    ensures Step(data, bs, nullbyte, failRead, failWrite, Closed(data, bs, nullbyte, i))
            == Closed(data, bs, nullbyte, i + 1)
  {
    var p := Closed(data, bs, nullbyte, i);
    var w := Flushed(|data|, bs, i);
    PackTarget(data, bs, nullbyte, i);
    ReadCounts(data, bs, i, p.pos);
    PackedClosed(data, bs, nullbyte, i, UINT_BITS * w, p);
    StepPack(data, bs, nullbyte, failRead, failWrite, p);
    BitmapGrow(data, bs, nullbyte, i, w);
  }

  /** A pass that fills a word or meets the short read: the word is written and the accumulator cleared. */
  lemma FlushClosed(data: seq<byte>, bs: nat, nullbyte: byte,
                    failRead: Option<nat>, failWrite: Option<nat>, i: nat)
    requires bs > 0 && i < Reads(|data|, bs) && FaultFree(|data|, bs, failRead, failWrite, i + 1)
    requires i + 1 - UINT_BITS * Flushed(|data|, bs, i) == UINT_BITS || i + 1 == Reads(|data|, bs)
    ensures Step(data, bs, nullbyte, failRead, failWrite, Closed(data, bs, nullbyte, i))
            == Closed(data, bs, nullbyte, i + 1)
  {
    var p := Closed(data, bs, nullbyte, i);
    var w := Flushed(|data|, bs, i);
    FlushedBounds(|data|, bs, i);
    FlushTarget(data, bs, nullbyte, i);
    ReadCounts(data, bs, i, p.pos);
    PackedClosed(data, bs, nullbyte, i, UINT_BITS * w, p);
    StepFlush(data, bs, nullbyte, failRead, failWrite, p);
    BitmapAppend(data, bs, nullbyte, i, w, Packed(data, bs, nullbyte, p));
  }

  /** One fault-free pass takes the closed form for i passes to the one for i + 1. */
  lemma StepClosed(data: seq<byte>, bs: nat, nullbyte: byte,
                   failRead: Option<nat>, failWrite: Option<nat>, i: nat)
    requires bs > 0 && i < Reads(|data|, bs) && FaultFree(|data|, bs, failRead, failWrite, i + 1)
    ensures Step(data, bs, nullbyte, failRead, failWrite, Closed(data, bs, nullbyte, i))
            == Closed(data, bs, nullbyte, i + 1)
  {
    if i + 1 - UINT_BITS * Flushed(|data|, bs, i) == UINT_BITS || i + 1 == Reads(|data|, bs) {
      FlushClosed(data, bs, nullbyte, failRead, failWrite, i);
    } else {
      PackClosed(data, bs, nullbyte, failRead, failWrite, i);
    }
  }

  /* ---------------------------------------------------------------- */
  /* How a run ends                                                    */

  /** A pass from the closed form sets `err` exactly when it is the first to meet a fault. */
  lemma StepFaultFree(data: seq<byte>, bs: nat, nullbyte: byte,
                      failRead: Option<nat>, failWrite: Option<nat>, i: nat)
    requires bs > 0 && i < Reads(|data|, bs) && FaultFree(|data|, bs, failRead, failWrite, i)
    ensures Step(data, bs, nullbyte, failRead, failWrite, Closed(data, bs, nullbyte, i)).err
            <==> !FaultFree(|data|, bs, failRead, failWrite, i + 1)
  {
    var p := Closed(data, bs, nullbyte, i);
    var w := Flushed(|data|, bs, i);
    FlushedBounds(|data|, bs, i);
    FlushedNext(|data|, bs, i);
    if failRead == Some(i) {
      StepReadFault(data, bs, nullbyte, failRead, failWrite, p);
    } else {
      ReadCounts(data, bs, i, p.pos);
      if i + 1 - UINT_BITS * w == UINT_BITS || i + 1 == Reads(|data|, bs) {
        if failWrite == Some(w) {
          StepWriteFault(data, bs, nullbyte, failRead, failWrite, p);
        } else {
          StepFlush(data, bs, nullbyte, failRead, failWrite, p);
        }
      } else {
        StepPack(data, bs, nullbyte, failRead, failWrite, p);
      }
    }
  }

  /**
   * A stopped loop state t reports the run e: an error exactly when e's
   * status is 1, e's read calls made, and the output and counters of e's
   * iterations and written words.
   */
  predicate Reports(data: seq<byte>, bs: nat, nullbyte: byte, t: Loop, e: Run)
    requires bs > 0 && e.iterations <= Reads(|data|, bs) && e.words <= WordCount(e.iterations)
  {
    (t.err <==> e.status == 1) && t.readCalls == e.calls &&
    t.out == Bitmap(data, bs, nullbyte, e.iterations, e.words) &&
    t.inBlock == InBlocks(data, bs, e.iterations) && t.inBytes == InBytes(data, bs, e.iterations) &&
    t.outBlock == e.words && t.outBytes == 4 * e.words
  }

  /** A failing read on pass i stops the run with the i earlier blocks counted and their full words written. */
  lemma ReadFaultOutcome(data: seq<byte>, bs: nat, nullbyte: byte, countSet: bool, count: nat,
                     failRead: Option<nat>, failWrite: Option<nat>, i: nat)
    requires bs > 0 && i < Reads(|data|, bs) && (countSet ==> i < count)
    requires FaultFree(|data|, bs, failRead, failWrite, i) && failRead == Some(i)
    ensures Step(data, bs, nullbyte, failRead, failWrite, Closed(data, bs, nullbyte, i)).err
    ensures Reports(data, bs, nullbyte, Step(data, bs, nullbyte, failRead, failWrite, Closed(data, bs, nullbyte, i)),
                    Expected(|data|, bs, countSet, count, failRead, failWrite))
  {
    var p := Closed(data, bs, nullbyte, i);
    var w := Flushed(|data|, bs, i);
    FlushedBounds(|data|, bs, i);
    StepReadFault(data, bs, nullbyte, failRead, failWrite, p);
    ReadStop(|data|, bs, countSet, count, failRead, failWrite, i, w);
  }

  /** When pass i reads but is the first to meet a fault, that fault is the write of word `Flushed(i)`, which pass i flushes. */
  lemma WriteFaultAt(L: nat, bs: nat, failRead: Option<nat>, failWrite: Option<nat>, i: nat)
    requires bs > 0 && i < Reads(L, bs)
    requires FaultFree(L, bs, failRead, failWrite, i) && failRead != Some(i)
    requires !FaultFree(L, bs, failRead, failWrite, i + 1)
    ensures var w := Flushed(L, bs, i);
            failWrite == Some(w) && (failRead.Some? ==> failRead.value >= i + 1) &&
            UINT_BITS * w <= i < UINT_BITS * w + UINT_BITS &&
            (i + 1 - UINT_BITS * w == UINT_BITS || i + 1 == Reads(L, bs))
  {
    FlushedBounds(L, bs, i);
    FlushedNext(L, bs, i);
  }

  /** A failing write on pass i leaves the i + 1 blocks counted and the words before it written. */
  lemma WriteFaultState(data: seq<byte>, bs: nat, nullbyte: byte, countSet: bool, count: nat,
                     failRead: Option<nat>, failWrite: Option<nat>, i: nat)
    requires bs > 0 && i < Reads(|data|, bs) && (countSet ==> i < count)
    requires FaultFree(|data|, bs, failRead, failWrite, i) && failRead != Some(i)
    requires !FaultFree(|data|, bs, failRead, failWrite, i + 1)
    ensures var w := Flushed(|data|, bs, i);
            w <= WordCount(i + 1) &&
            Reports(data, bs, nullbyte, Step(data, bs, nullbyte, failRead, failWrite, Closed(data, bs, nullbyte, i)),
                    Run(1, i + 1, i + 1, w))
  {
    var p := Closed(data, bs, nullbyte, i);
    var w := Flushed(|data|, bs, i);
    WriteFaultAt(|data|, bs, failRead, failWrite, i);
    ReadCounts(data, bs, i, p.pos);
    StepWriteFault(data, bs, nullbyte, failRead, failWrite, p);
    BitmapGrow(data, bs, nullbyte, i, w);
  }

  /** A failing write on pass i stops the run with i + 1 blocks counted and only the earlier words written. */
  lemma WriteFaultOutcome(data: seq<byte>, bs: nat, nullbyte: byte, countSet: bool, count: nat,
                     failRead: Option<nat>, failWrite: Option<nat>, i: nat)
    requires bs > 0 && i < Reads(|data|, bs) && (countSet ==> i < count)
    requires FaultFree(|data|, bs, failRead, failWrite, i) && failRead != Some(i)
    requires !FaultFree(|data|, bs, failRead, failWrite, i + 1)
    ensures Step(data, bs, nullbyte, failRead, failWrite, Closed(data, bs, nullbyte, i)).err
    ensures Reports(data, bs, nullbyte, Step(data, bs, nullbyte, failRead, failWrite, Closed(data, bs, nullbyte, i)),
                    Expected(|data|, bs, countSet, count, failRead, failWrite))
  {
    WriteFaultAt(|data|, bs, failRead, failWrite, i);
    WriteFaultState(data, bs, nullbyte, countSet, count, failRead, failWrite, i);
    WriteStop(|data|, bs, countSet, count, failRead, failWrite, i + 1, Flushed(|data|, bs, i));
  }

  /**
   * The pass that meets the first fault sets `err`, and the state it leaves
   * has the output and counters of `Expected`, which reports status 1.
   */
  lemma FaultOutcome(data: seq<byte>, bs: nat, nullbyte: byte, countSet: bool, count: nat,
                     failRead: Option<nat>, failWrite: Option<nat>, i: nat)
    requires bs > 0 && i < Reads(|data|, bs) && (countSet ==> i < count)
    requires FaultFree(|data|, bs, failRead, failWrite, i) && !FaultFree(|data|, bs, failRead, failWrite, i + 1)
    ensures Step(data, bs, nullbyte, failRead, failWrite, Closed(data, bs, nullbyte, i)).err
    ensures Reports(data, bs, nullbyte, Step(data, bs, nullbyte, failRead, failWrite, Closed(data, bs, nullbyte, i)),
                    Expected(|data|, bs, countSet, count, failRead, failWrite))
  {
    if failRead == Some(i) {
      ReadFaultOutcome(data, bs, nullbyte, countSet, count, failRead, failWrite, i);
    } else {
      WriteFaultOutcome(data, bs, nullbyte, countSet, count, failRead, failWrite, i);
    }
  }

  /**
   * One pass from the closed form for i passes either meets the first fault,
   * and then the state it leaves reports `Expected`, or meets none and leaves
   * the closed form for i + 1 passes.
   */
  lemma Advance(data: seq<byte>, bs: nat, nullbyte: byte, countSet: bool, count: nat,
                failRead: Option<nat>, failWrite: Option<nat>, i: nat)
    requires bs > 0 && i < Reads(|data|, bs) && (countSet ==> i < count)
    requires FaultFree(|data|, bs, failRead, failWrite, i)
    ensures var t := Step(data, bs, nullbyte, failRead, failWrite, Closed(data, bs, nullbyte, i));
            if t.err then Reports(data, bs, nullbyte, t, Expected(|data|, bs, countSet, count, failRead, failWrite))
            else FaultFree(|data|, bs, failRead, failWrite, i + 1) && t == Closed(data, bs, nullbyte, i + 1)
  {
    StepFaultFree(data, bs, nullbyte, failRead, failWrite, i);
    if Step(data, bs, nullbyte, failRead, failWrite, Closed(data, bs, nullbyte, i)).err {
      FaultOutcome(data, bs, nullbyte, countSet, count, failRead, failWrite, i);
    } else {
      StepClosed(data, bs, nullbyte, failRead, failWrite, i);
    }
  }

  /**
   * A run that stops after k fault-free passes, at end of input or at the
   * limit, has the fault-free outcome of `Expected` with the closed form's
   * words.
   */
  lemma CompleteOutcome(data: seq<byte>, bs: nat, nullbyte: byte, countSet: bool, count: nat,
                        failRead: Option<nat>, failWrite: Option<nat>, k: nat)
    requires bs > 0 && k <= Reads(|data|, bs) && FaultFree(|data|, bs, failRead, failWrite, k)
    requires countSet ==> k <= count
    requires k == Reads(|data|, bs) || (countSet && k == count)
    ensures Expected(|data|, bs, countSet, count, failRead, failWrite) == Run(0, k, k, Flushed(|data|, bs, k))
    ensures Reports(data, bs, nullbyte, Closed(data, bs, nullbyte, k), Expected(|data|, bs, countSet, count, failRead, failWrite))
  {
    FlushedBounds(|data|, bs, k);
    Complete(|data|, bs, countSet, count, failRead, failWrite, k, Flushed(|data|, bs, k), k < Reads(|data|, bs));
  }
}
