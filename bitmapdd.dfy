/**
 * The scan loop of bitmapdd: read a block, classify it, pack its bit into
 * the 32-bit accumulator, write the accumulator in network byte order when
 * it is full or the input has ended, and keep the four counters.
 */
module BitmapDd {
  import opened Wrappers
  import opened Bits
  import opened Packing
  import opened ScanSpec
  import opened Streams
  import opened ScanLoop

  /** The four global counters that the progress report prints. */
  class Counters {
    var inBlock: nat
    var inBytes: nat
    var outBlock: nat
    var outBytes: nat

    constructor ()
      ensures inBlock == 0 && inBytes == 0 && outBlock == 0 && outBytes == 0
    {
      inBlock, inBytes, outBlock, outBytes := 0, 0, 0, 0;
    }
  }

  /**
   * 1 when one of the first res bytes of the block differs from the null
   * byte, else 0. `contains1` takes its count as an `int`, so res is below 2^31.
   */
  method Contains1(block: array<byte>, res: nat, nullbyte: byte) returns (r: nat)
    requires res <= block.Length && res < INT_LIMIT
    ensures r == if HasContent(block[..res], nullbyte) then 1 else 0
  {
    var k := res;
    while k > 0
      invariant 0 <= k <= res
      invariant forall j :: k <= j < res ==> block[j] == nullbyte
    {
      k := k - 1;
      if block[k] != nullbyte {
        assert block[..res][k] != nullbyte;
        return 1;
      }
    }
    assert forall j :: 0 <= j < res ==> block[..res][j] == nullbyte;
    return 0;
  }

  /** The values the output and the four counters had when the scan began. */
  datatype Origin = Origin(out: seq<byte>, inBlock: nat, inBytes: nat, outBlock: nat, outBytes: nat)

  /**
   * The read calls, the bytes written, the four counters and `err` agree
   * with the loop state s, the output and counters having grown from o.
   */
  ghost predicate Shows(s: Loop, src: Source, sink: Sink, ctr: Counters, err: bool, o: Origin)
    reads src, sink, ctr
  {
    src.calls == s.readCalls && sink.written == o.out + s.out && err == s.err &&
    ctr.inBlock == o.inBlock + s.inBlock && ctr.inBytes == o.inBytes + s.inBytes &&
    ctr.outBlock == o.outBlock + s.outBlock && ctr.outBytes == o.outBytes + s.outBytes
  }

  /** Besides, the stream positions and the variables `bits`, `cbi` and `run` agree with s. */
  ghost predicate Mirrors(s: Loop, src: Source, sink: Sink, ctr: Counters,
                          bits: nat, cbi: nat, run: bool, err: bool, o: Origin)
    reads src, sink, ctr
  {
    src.pos == s.pos && src.eof == !s.run && sink.calls == s.writeCalls &&
    bits == s.bits && cbi == s.cbi && run == s.run && Shows(s, src, sink, ctr, err, o)
  }

  /**
   * The first half of the loop body: read a block, stop on an input error,
   * note the end of input, count the block, classify it and pack its bit at
   * position 31 - cbi. The new state is `ReadFailed` or `Take`.
   */
  method TakeBlock(src: Source, sink: Sink, ctr: Counters, block: array<byte>, bs: nat, nullbyte: byte,
                   bits: nat, cbi: nat, run: bool, ghost s: Loop, ghost o: Origin)
    returns (bits': nat, cbi': nat, run': bool, err: bool)
    requires 0 < bs < INT_LIMIT && block.Length == bs && src.Valid() && Good(|src.data|, s) && s.run
    requires Mirrors(s, src, sink, ctr, bits, cbi, run, false, o)
    modifies src, ctr, block
    ensures src.Valid() && (err <==> src.failAt == Some(s.readCalls))
    ensures err ==> Mirrors(ReadFailed(s), src, sink, ctr, bits', cbi', run', err, o)
    ensures !err ==> Mirrors(Take(src.data, bs, nullbyte, s), src, sink, ctr, bits', cbi', run', err, o)
  {
    bits', cbi', run', err := bits, cbi, run, false;
    var res := src.Read(block, bs);
    if res != bs {
      if src.eof {
        run' := false;
      } else {
        err := true;
        return;
      }
    }
    if res != 0 {
      ctr.inBlock := ctr.inBlock + 1;
    }
    ctr.inBytes := ctr.inBytes + res;
    ghost var read := src.data[s.pos .. src.pos];
    assert block[..res] == read;
    var r := Contains1(block, res, nullbyte);
    assert r == if HasContent(read, nullbyte) then 1 else 0;
    bits' := (bits + r * Pow2(UINT_BITS - cbi - 1)) % UINT_MOD;
    cbi' := cbi + 1;
  }

  /**
   * The second half of the loop body once the word is due: clear the bit
   * index, write the word in network byte order and count it, or stop on an
   * output error. The new state is `Emit`.
   */
  method FlushWord(src: Source, sink: Sink, ctr: Counters, bits: nat, cbi: nat, run: bool,
                   ghost t: Loop, ghost o: Origin)
    returns (bits': nat, cbi': nat, err: bool)
    requires t.bits < UINT_MOD && Mirrors(t, src, sink, ctr, bits, cbi, run, false, o)
    modifies sink, ctr
    ensures Mirrors(Emit(sink.failAt, t), src, sink, ctr, bits', cbi', run, err, o)
  {
    bits', cbi', err := bits, 0, false;
    var n := sink.Write(Htonl(bits));
    if n != 1 {
      err := true;
      return;
    }
    ctr.outBlock := ctr.outBlock + 1;
    ctr.outBytes := ctr.outBytes + 4;
    bits' := 0;
  }

  /**
   * One pass through the body of the scan loop from the closed form for i
   * passes: `TakeBlock`, then `FlushWord` when the word is due. The new
   * state is the closed form for i + 1 passes or, when the pass meets the
   * first I/O error, a state that reports the run `Expected` describes.
   */
  method Pass(src: Source, sink: Sink, ctr: Counters, block: array<byte>, bs: nat, nullbyte: byte,
              bits: nat, cbi: nat, run: bool, ghost s: Loop, ghost o: Origin,
              ghost countSet: bool, ghost count: nat, ghost i: nat)
    returns (bits': nat, cbi': nat, run': bool, err: bool, ghost t: Loop)
    requires 0 < bs < INT_LIMIT && block.Length == bs && src.Valid()
    requires i < Reads(|src.data|, bs) && (countSet ==> i < count)
    requires FaultFree(|src.data|, bs, src.failAt, sink.failAt, i) && s == Closed(src.data, bs, nullbyte, i)
    requires Mirrors(s, src, sink, ctr, bits, cbi, run, false, o)
    modifies src, sink, ctr, block
    ensures src.Valid()
    ensures Mirrors(t, src, sink, ctr, bits', cbi', run', err, o)
    ensures err ==> Reports(src.data, bs, nullbyte, t, Expected(|src.data|, bs, countSet, count, src.failAt, sink.failAt))
    ensures !err ==> FaultFree(|src.data|, bs, src.failAt, sink.failAt, i + 1) && t == Closed(src.data, bs, nullbyte, i + 1)
  {
    Advance(src.data, bs, nullbyte, countSet, count, src.failAt, sink.failAt, i);
    bits', cbi', run', err := TakeBlock(src, sink, ctr, block, bs, nullbyte, bits, cbi, run, s, o);
    if err {
      t := ReadFailed(s);
      return;
    }
    t := Take(src.data, bs, nullbyte, s);
    if cbi' == UINT_BITS || (!run' && cbi' != 0) {
      bits', cbi', err := FlushWord(src, sink, ctr, bits', cbi', run', t, o);
      t := Emit(sink.failAt, t);
    }
  }

  /** A stopped loop whose state reports the run e leaves the streams and counters as e says. */
  lemma Conclude(src: Source, sink: Sink, ctr: Counters, countSet: bool, count: nat, bs: nat, nullbyte: byte,
                 s: Loop, err: bool, o: Origin)
    requires bs > 0 && Shows(s, src, sink, ctr, err, o)
    requires Reports(src.data, bs, nullbyte, s, Expected(|src.data|, bs, countSet, count, src.failAt, sink.failAt))
    ensures var e := Expected(|src.data|, bs, countSet, count, src.failAt, sink.failAt);
            (if err then 1 else 0) == e.status && src.calls == e.calls &&
            sink.written == o.out + Bitmap(src.data, bs, nullbyte, e.iterations, e.words) &&
            ctr.inBlock == o.inBlock + InBlocks(src.data, bs, e.iterations) &&
            ctr.inBytes == o.inBytes + InBytes(src.data, bs, e.iterations) &&
            ctr.outBlock == o.outBlock + e.words && ctr.outBytes == o.outBytes + 4 * e.words
  {
  }

  /**
   * The while loop of `bitmapdd`: passes run while `run` holds and, when
   * `count_set`, fewer than `count` have run; the first pass that meets an
   * I/O error sets `err` and leaves the loop. The final state `last`
   * reports the run `Expected` describes.
   */
  method Scan(src: Source, sink: Sink, ctr: Counters, block: array<byte>,
              countSet: bool, count: nat, bs: nat, nullbyte: byte, ghost o: Origin)
    returns (err: bool, ghost last: Loop)
    requires 0 < bs < INT_LIMIT && block.Length == bs && src.Valid()
    requires Mirrors(Start, src, sink, ctr, 0, 0, true, false, o)
    modifies src, sink, ctr, block
    ensures Shows(last, src, sink, ctr, err, o)
    ensures Reports(src.data, bs, nullbyte, last, Expected(|src.data|, bs, countSet, count, src.failAt, sink.failAt))
  {
    var bits: nat := 0;
    var cbi: nat := 0;
    var run := true;
    var c := count;
    err := false;
    ghost var data, failRead, failWrite := src.data, src.failAt, sink.failAt;
    ghost var i: nat := 0;
    last := Start;
    StartClosed(data, bs, nullbyte, failRead, failWrite);
    while run && (!countSet || c != 0)
      invariant src.Valid()
      invariant i <= Reads(|data|, bs) && FaultFree(|data|, bs, failRead, failWrite, i)
      invariant countSet ==> i <= count && c == count - i
      invariant last == Closed(data, bs, nullbyte, i)
      invariant Mirrors(last, src, sink, ctr, bits, cbi, run, false, o)
      decreases Reads(|data|, bs) - i
    {
      if countSet {
        c := c - 1;
      }
      var failed;
      bits, cbi, run, failed, last := Pass(src, sink, ctr, block, bs, nullbyte, bits, cbi, run, last, o, countSet, count, i);
      if failed {
        return true, last;
      }
      i := i + 1;
    }
    CompleteOutcome(data, bs, nullbyte, countSet, count, failRead, failWrite, i);
  }

  /**
   * `bitmapdd(in, out, count_set, count, bs, nullbyte)` on a freshly opened
   * input and output. The loop runs pass by pass as `Step` says, so the
   * status, the read calls, the bytes written and the growth of the four
   * counters are those of the run `Expected` describes.
   */
  method BitmapDd(src: Source, sink: Sink, ctr: Counters,
                  countSet: bool, count: nat, bs: nat, nullbyte: byte) returns (status: int)
    requires 0 < bs < INT_LIMIT
    requires src.Valid() && src.pos == 0 && src.calls == 0 && !src.eof
    requires sink.calls == 0
    modifies src, sink, ctr
    ensures var e := Expected(|src.data|, bs, countSet, count, src.failAt, sink.failAt);
            status == e.status && src.calls == e.calls
    ensures var e := Expected(|src.data|, bs, countSet, count, src.failAt, sink.failAt);
            sink.written == old(sink.written) + Bitmap(src.data, bs, nullbyte, e.iterations, e.words)
    ensures var e := Expected(|src.data|, bs, countSet, count, src.failAt, sink.failAt);
            ctr.inBlock == old(ctr.inBlock) + InBlocks(src.data, bs, e.iterations) &&
            ctr.inBytes == old(ctr.inBytes) + InBytes(src.data, bs, e.iterations)
    ensures var e := Expected(|src.data|, bs, countSet, count, src.failAt, sink.failAt);
            ctr.outBlock == old(ctr.outBlock) + e.words &&
            ctr.outBytes == old(ctr.outBytes) + 4 * e.words
  {
    var block := new byte[bs];
    ghost var o := Origin(sink.written, ctr.inBlock, ctr.inBytes, ctr.outBlock, ctr.outBytes);
    var err;
    ghost var last;
    err, last := Scan(src, sink, ctr, block, countSet, count, bs, nullbyte, o);
    Conclude(src, sink, ctr, countSet, count, bs, nullbyte, last, err, o);
    status := if err then 1 else 0;
  }
}
