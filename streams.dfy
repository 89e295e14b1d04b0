/**
 * The two stdio streams of a scan, as far as the scan loop uses them:
 * `fread` and `feof` on the input, `fwrite` on the output. Each stream can
 * be given the number (from 0) of the call that fails with an I/O error.
 */
module Streams {
  import opened Wrappers
  import opened Bits

  /** An input `FILE *` opened on a fixed sequence of bytes. */
  class Source {
    /** The bytes of the file or device. */
    const data: seq<byte>
    /** The `fread` call (from 0) that fails with an I/O error, if any. */
    const failAt: Option<nat>
    /** The read position. */
    var pos: nat
    /** The number of `fread` calls made so far. */
    var calls: nat
    /** The end-of-file indicator that `feof` reports. */
    var eof: bool
    /** The error indicator that `ferror` would report. */
    var error: bool

    ghost predicate Valid()
      reads this
    {
      pos <= |data|
    }

    constructor (data: seq<byte>, failAt: Option<nat>)
      ensures Valid() && this.data == data && this.failAt == failAt
      ensures pos == 0 && calls == 0 && !eof && !error
    {
      this.data := data;
      this.failAt := failAt;
      pos := 0;
      calls := 0;
      eof := false;
      error := false;
    }

    /**
     * `fread(block, 1, bs, in)`: copies up to bs bytes into the start of
     * block and returns how many. fewer than bs are returned only at end of
     * input, which sets the end-of-file indicator, or on an I/O error, which
     * returns 0 and sets the error indicator instead.
     */
    method Read(block: array<byte>, bs: nat) returns (res: nat)
      requires Valid() && bs <= block.Length
      modifies this, block
      ensures Valid() && calls == old(calls) + 1
      ensures old(failAt == Some(calls)) ==>
                res == 0 && error && eof == old(eof) && pos == old(pos) && block[..] == old(block[..])
      ensures old(failAt != Some(calls)) ==>
                res == (if |data| - old(pos) < bs then |data| - old(pos) else bs) &&
                pos == old(pos) + res && block[..res] == data[old(pos)..pos] &&
                block[res..] == old(block[res..]) &&
                eof == (old(eof) || res < bs) && error == old(error)
    {
      if failAt == Some(calls) {
        res := 0;
        error := true;
      } else {
        res := if |data| - pos < bs then |data| - pos else bs;
        forall k | 0 <= k < res {
          block[k] := data[pos + k];
        }
        pos := pos + res;
        if res < bs {
          eof := true;
        }
      }
      calls := calls + 1;
    }
  }

  /** An output `FILE *`: the bytes written to it so far. */
  class Sink {
    /** The `fwrite` call (from 0) that fails with an I/O error, if any. */
    const failAt: Option<nat>
    var written: seq<byte>
    /** The number of `fwrite` calls made so far. */
    var calls: nat

    constructor (failAt: Option<nat>)
      ensures this.failAt == failAt && written == [] && calls == 0
    {
      this.failAt := failAt;
      written := [];
      calls := 0;
    }

    /**
     * `fwrite(item, |item|, 1, out)`: appends the item and returns 1, or
     * on an I/O error writes nothing and returns 0.
     */
    method Write(item: seq<byte>) returns (n: nat)
      modifies this
      ensures calls == old(calls) + 1
      ensures old(failAt == Some(calls)) ==> n == 0 && written == old(written)
      ensures old(failAt != Some(calls)) ==> n == 1 && written == old(written) + item
    {
      if failAt == Some(calls) {
        n := 0;
      } else {
        written := written + item;
        n := 1;
      }
      calls := calls + 1;
    }
  }
}
