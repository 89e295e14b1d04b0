# bitmapdd scan loop in Dafny

bitmapdd scans a file or block device in blocks of `bs` bytes. It writes one
bit per block: 1 when some byte of the block differs from the null byte,
0 otherwise. The bits are packed most significant first into 32-bit words.
Each word is written in network byte order when it is full, or when the input
has ended and some bits are pending. This project models that scan: the block
test `contains1` and the read/classify/pack/flush loop of `bitmapdd`, with its
four counters `in_block`, `in_bytes`, `out_block`, `out_bytes` and its exit
status.

Modules:

- `Bits`: bit strings read most significant bit first, their values, big-endian bytes.
- `Packing`: the output format. `WordOf` is the accumulator holding some packed
  bits; `Htonl` is the four bytes `fwrite` stores after `htonl`; `Words` and
  `Serialize` give a whole bitmap.
- `ScanSpec`: what a scan computes, without the loop.
  - `Block` is the i-th read; `HasContent` is the block test.
  - `Bitmap` is the bytes written after so many reads and words.
  - `InBytes`/`InBlocks` are the input counters.
  - `Expected` is the closed-form outcome of a run (status, reads issued,
    blocks packed, words written). Its inputs are the input length, `bs`,
    the `--count` limit, and the positions of an input and an output I/O fault.
- `ScanLoop`: the loop one pass at a time, as a value.
  - `Step` is one pass of the loop body: `ReadFailed`, `Take`, then `Emit`
    when the word is flushed.
  - `Closed` is the state after k passes that met no fault.
  - The lemmas show that a pass keeps the closed form. The pass that meets
    the first fault leaves a state that `Reports` the run `Expected`
    describes.
- `Streams`: `fread`/`feof` on the input and `fwrite` on the output, as
  classes whose calls can be told to fail with an I/O error at a given call number.
- `BitmapDd`: the imperative code. `Contains1` is the count-down loop of
  `contains1`. `BitmapDd` is the function `bitmapdd`. Its `while` loop is the
  method `Scan`. One pass of it is `Pass`, which runs `TakeBlock` (read,
  count, classify, pack) and `FlushWord` (write and count the word). Each
  method is proved to change the streams, the counters and the variables
  `bits`, `cbi` and `run` exactly as `Step` says, and the loop closes on
  `Expected`.

Where the code and the prose description of the tool differ, the model
follows the code:

- When a `--count` limit ends the scan before end of input, `run` stays 1,
  so the pending partial word is never written (`LimitReached`).
- An input of exactly k full blocks is read k + 1 times: the last read
  returns no bytes, meets end of input and still packs a 0 bit
  (`ExactMultipleZeroBit`). The output is ceil((k + 1) / 32) words, not
  ceil(k / 32) (`RunToEnd`). So 32 full blocks give two words (8 bytes),
  and `bs = 1` on N bytes gives ceil((N + 1) / 32) words.

## Model

| member | source | states |
|---|---|---|
| BitmapDd.Counters.constructor | src/bitmapdd.c:28-29 | the four counters start at zero |
| BitmapDd.Contains1 | src/bitmapdd.c:59-66 | for a count below 2^31 (an `int`), returns 1 exactly when one of the first `res` bytes differs from the null byte, else 0 (so 0 when `res` is 0) |
| BitmapDd.TakeBlock | src/bitmapdd.c:95-113 | a failing read only counts the call and sets `err`; otherwise the state is `Take`'s: the read's bytes counted, `run` cleared on a short read, and the block's bit packed at position 31 - cbi; needs bs < 2^31 because `contains1` takes an `int` count |
| BitmapDd.FlushWord | src/bitmapdd.c:115-128 | `cbi` reset and the word written in network byte order, with both output counters grown and `bits` cleared; on a failing write the counters and output are unchanged and `err` is set |
| BitmapDd.Pass | src/bitmapdd.c:95-129 | one pass (`TakeBlock`, then `FlushWord` under the line-115 test) from the closed form for i passes either meets the first fault and leaves a state that reports `Expected`, or leaves the closed form for i + 1 passes, still fault-free |
| BitmapDd.Conclude | src/bitmapdd.c:139-140 | a stopped loop whose state reports the run gives status 1 exactly when `err` is set, and the run's reads, output and counter growth |
| BitmapDd.Scan | src/bitmapdd.c:93-130 | the loop ends in a state that reports `Expected`: the reads issued, the bitmap bytes written, the counters' growth and whether an error stopped it |
| BitmapDd.BitmapDd | src/bitmapdd.c:68-141 | status, read calls, bytes appended to the output and the growth of all four counters are those of `Expected`; the counters only grow |
| Streams.Source.Read | src/bitmapdd.c:95-98 | `fread` returns min(bs, remaining) bytes copied from the read position and sets end-of-file exactly on a short read; a failing call returns 0 and leaves position, buffer and end-of-file unchanged |
| Streams.Sink.Write | src/bitmapdd.c:119-120 | `fwrite` of one item appends it and returns 1, or on an I/O error writes nothing and returns 0 |
| ScanLoop.Packed | src/bitmapdd.c:112-113 | `bits += res << (UINT_BITS - cbi - 1)` with the next block's 0 or 1, reduced modulo 2^32: the accumulator stays an `unsigned int` |
| ScanLoop.Flushes | src/bitmapdd.c:115 | the flush test `++cbi == UINT_BITS \|\| (!run && cbi)`: a word is written only with at least one bit packed |
| ScanLoop.ReadFailed | src/bitmapdd.c:96-105 | a failed read counts the call and sets `err`, nothing else |
| ScanLoop.Take | src/bitmapdd.c:95-113 | a successful read stays within the input, leaves 1 to 32 bits pending and an accumulator below 2^32 |
| ScanLoop.Emit | src/bitmapdd.c:115-128 | a flush clears `cbi` and makes one write, which sets `err` exactly when it is the failing write |
| ScanLoop.Step | src/bitmapdd.c:93-129 | a pass makes exactly one read and keeps the loop state within the input with fewer than 32 bits pending |
| ScanLoop.Closed | src/bitmapdd.c:93-129 | after k fault-free passes: k reads, no error, fewer than 32 bits pending, and `run` holds exactly while k is below the number of reads the input answers |
| ScanLoop.StartClosed | src/bitmapdd.c:78-91 | the initial state (`bits` 0, `cbi` 0, `run` 1, counters 0) is the closed form for no passes |
| ScanLoop.StepReadFault | src/bitmapdd.c:96-105 | a pass whose read fails only counts the read and sets `err` |
| ScanLoop.StepPack | src/bitmapdd.c:95-115 | a full read that does not fill the word counts the block and packs its bit, writing nothing |
| ScanLoop.StepFlush | src/bitmapdd.c:95-128 | a pass that fills the word or meets the short read writes `htonl(bits)` and resets `bits` and `cbi` |
| ScanLoop.StepWriteFault | src/bitmapdd.c:115-125 | a pass whose write fails counts the read but neither `out_block` nor `out_bytes`, and sets `err` |
| ScanLoop.PackedClosed | src/bitmapdd.c:112-113 | packing the next block's bit into the word of the bits since the last flush gives the word of those bits and the new one |
| ScanLoop.PackTarget | src/bitmapdd.c:113-115 | when pass i fills no word, the bit index after it is at most 31 and the closed form keeps the same word count |
| ScanLoop.FlushTarget | src/bitmapdd.c:115-128 | when pass i fills a word or meets the short read, the closed form has one more word and an empty accumulator |
| ScanLoop.PackClosed | src/bitmapdd.c:95-115 | a fault-free pass that fills no word takes the closed form for i passes to that for i + 1 |
| ScanLoop.FlushClosed | src/bitmapdd.c:95-128 | a fault-free pass that writes a word takes the closed form for i passes to that for i + 1 |
| ScanLoop.StepClosed | src/bitmapdd.c:93-129 | every fault-free pass takes the closed form for i passes to that for i + 1 |
| ScanLoop.StepFaultFree | src/bitmapdd.c:96-125 | a pass sets `err` exactly when its read or its write is the first faulty one |
| ScanLoop.ReadFaultOutcome | src/bitmapdd.c:96-105 | a failing read on pass i: status 1, i + 1 reads, i blocks counted and packed, the pending partial word not written |
| ScanLoop.WriteFaultAt | src/bitmapdd.c:115-125 | when a pass whose read succeeds meets the first fault, the fault is the write of the word that pass flushes |
| ScanLoop.WriteFaultState | src/bitmapdd.c:115-125 | a failing write on pass i leaves i + 1 blocks counted and only the words before it written |
| ScanLoop.WriteFaultOutcome | src/bitmapdd.c:119-125 | a failing write stops the run with status 1 and the output counters not incremented for it |
| ScanLoop.FaultOutcome | src/bitmapdd.c:96-125 | the pass that meets the first fault sets `err` and reports `Expected` |
| ScanLoop.Advance | src/bitmapdd.c:93-129 | a pass from the closed form either reports `Expected` after the first fault or yields the closed form for one pass more, still fault-free |
| ScanLoop.CompleteOutcome | src/bitmapdd.c:93-99 | a run stopped at end of input or at the limit has status 0, and its closed form reports `Expected` |
| ScanSpec.Block | src/bitmapdd.c:95 | every read before the last returns bs bytes, the last returns L mod bs |
| ScanSpec.HasContentIffNotUniform | src/bitmapdd.c:59-66 | a block is used exactly when it is not all null bytes |
| ScanSpec.HasContentPermutation | src/bitmapdd.c:59-66 | where in the block the differing byte stands does not matter |
| ScanSpec.ClassBitsAt | src/bitmapdd.c:112 | bit k of the classification is block k's test |
| ScanSpec.ClassBitsSplit | src/bitmapdd.c:112 | the classification of consecutive reads splits at any point |
| ScanSpec.WordIsWords | src/bitmapdd.c:113-118 | word j of the bitmap after n reads is word j of the packed classification bits of those reads |
| ScanSpec.BitmapSerialized | src/bitmapdd.c:113-119 | the bytes written are the big-endian serialization of the packed classification words |
| ScanSpec.BitmapGrow | src/bitmapdd.c:112-115 | packing another bit leaves the words already written unchanged |
| ScanSpec.BitmapAppend | src/bitmapdd.c:115-119 | writing the accumulator after read i makes it the next word of the bitmap |
| ScanSpec.PackNext | src/bitmapdd.c:113 | `bits += res << (31 - cbi)` stays below 2^32 and appends the new bit to the packed bits |
| ScanSpec.InBytesFull | src/bitmapdd.c:108-110 | before the short read every read returned a whole block: n·bs bytes and n blocks |
| ScanSpec.ReadIsBlock | src/bitmapdd.c:95-99 | read i returns block i, which is short exactly when it is the last read |
| ScanSpec.ReadCounts | src/bitmapdd.c:108-110 | a read adds its byte count to `in_bytes` and one to `in_block` only when it returned bytes |
| ScanSpec.ReadClass | src/bitmapdd.c:112 | the bytes read i returns are used exactly when block i is |
| ScanSpec.ReadToEnd | src/bitmapdd.c:108-110 | a whole input is counted as L bytes in ceil(L / bs) blocks |
| ScanSpec.InBytesBound | src/bitmapdd.c:95 | the reads never run past the end of the input |
| ScanSpec.Attempted | src/bitmapdd.c:93 | a fault-free run makes at most one iteration per read the input answers, and at most `count` |
| ScanSpec.FlushedBounds | src/bitmapdd.c:115 | before the short read the unwritten bits number fewer than 32; after it, no packed bit is left unwritten |
| ScanSpec.FlushedNext | src/bitmapdd.c:115 | iteration i writes a word exactly when it fills one or meets the short read |
| ScanSpec.Expected | src/bitmapdd.c:93-140 | a run's packed blocks never exceed its reads, nor its reads the fault-free count, and its words fit the packed bits |
| ScanSpec.ReadStop | src/bitmapdd.c:96-105 | a read fault in iteration i gives status 1, i + 1 reads, i blocks and i / 32 words |
| ScanSpec.WriteStop | src/bitmapdd.c:119-125 | a fault in the write of word w after i iterations gives status 1, i reads and blocks, w words |
| ScanSpec.Complete | src/bitmapdd.c:93-99 | a run ended by end of input or by the limit gives status 0 with its reads and words |
| ScanSpec.RunOutputBits | src/bitmapdd.c:113-128 | bit k of the output stream, read most significant first, is block k's test; bits after the last block are 0 |
| ScanSpec.RunToEnd | src/bitmapdd.c:93-99 | without limit or fault: L / bs + 1 iterations (the last on the short read) and ceil((L / bs + 1) / 32) words |
| ScanSpec.ExactMultipleZeroBit | src/bitmapdd.c:96-113 | when bs divides L the empty last read still packs a 0 bit |
| ScanSpec.EmptyInput | src/bitmapdd.c:93-128 | an empty input is read once and gives one all-zero word |
| ScanSpec.LargeLimit | src/bitmapdd.c:93 | a limit at or beyond the number of reads changes nothing |
| ScanSpec.LimitReached | src/bitmapdd.c:93-115 | a limit c reached before end of input: c reads, c / 32 words, the partial word not written |
| ScanSpec.LimitZero | src/bitmapdd.c:93 | a limit of 0 reads nothing, writes nothing and counts nothing |
| ScanSpec.ReadFault | src/bitmapdd.c:96-105 | a read fault at read k gives status 1, k blocks packed and only their full words written |
| ScanSpec.StatusIffFault | src/bitmapdd.c:139-140 | the status is 1 exactly when a fault falls within the reads or writes a fault-free run makes; a status-0 run is the fault-free run |
| Packing.WordOf | src/bitmapdd.c:78-79 | the accumulator stays below 2^32 |
| Packing.WordOfBits | src/bitmapdd.c:113 | the accumulator's 32 bits, from bit 31 down, are the packed bits followed by zeros |
| Packing.WordOfAppend | src/bitmapdd.c:113 | packing one more bit adds it at position 31 - (bits already packed) |
| Packing.PackBit | src/bitmapdd.c:113 | `bits + (res << (31 - cbi))` stays below 2^32 and holds the packed bits with the new one appended |
| Packing.Htonl | src/bitmapdd.c:118-119 | the word is stored as four bytes |
| Packing.HtonlBits | src/bitmapdd.c:118-119 | the four bytes, read bit by bit, are the word's bits from bit 31 down |
| Packing.WordBits | src/bitmapdd.c:113-128 | word j holds the bits 32j .. 32j + 31 from bit 31 down, zeros after the last packed bit |
| Packing.PackedStream | src/bitmapdd.c:118-119 | the bytes of the first w words, read bit by bit, are the packed bits with zero padding |
| Packing.PackedStreamPrefixAt | src/bitmapdd.c:118-119 | bit k of that stream is packed bit k, or 0 past the packed bits |
| Bits.BigEndianWordBits | src/bitmapdd.c:118 | the big-endian bytes of a 32-bit word, read bit by bit, are its bits from bit 31 down |

## Left out

- Signal handling (src/bitmapdd.c:51-57, 71-74) is asynchronous. `run` is cleared only by end of input.
- `print_progress` and the start time (src/bitmapdd.c:35-49, 76, 132) print wall-clock time and floating-point throughput. They change no modelled state.
- `main` (src/bitmapdd.c:143-288) is command-line parsing and file opening. Its range check on the null byte is not carried over; a byte is any value from 0 to 255.
- The `malloc` failure exit (src/bitmapdd.c:81-86) and `fclose`/`free` (src/bitmapdd.c:134-137) are resource handling.
- `bs == 0`, on which the loop never ends without a limit, is excluded by `requires bs > 0`.
- BitmapDd.BitmapDd, BitmapDd.Scan, BitmapDd.Pass, BitmapDd.TakeBlock, ScanLoop.Take: cover only block sizes below 2^31. The four methods require it, and `Take` (through `Packed`) classifies all `res` bytes, which is what C does only below that bound. `contains1` takes its count as an `int` (src/bitmapdd.c:59), and the call at src/bitmapdd.c:112 converts the `size_t` read count to it. A count of 2^32 or more is reduced modulo 2^32, so fewer bytes are tested. A count from 2^31 to 2^32 - 1 becomes negative, and `while(res--)` then reads before the buffer. `main` accepts such block sizes (src/bitmapdd.c:210-216).
- The four counters are `unsigned long long`. The model uses unbounded naturals and does not wrap at 2^64.
- `htonl` plus `fwrite` is modelled as the word's four bytes, most significant first, whatever the host byte order.
- C's `count--` also moves `count` below 0 (to `SIZE_MAX`) on the test that ends the loop. The model does not decrement then; nothing reads `count` afterwards.
- Streams.Source.Read: a failing `fread` returns 0 bytes and consumes nothing. A C library may return a partial count with the error set; the loop breaks either way.
- Streams.Sink.Write: an item is written whole or not at all. A partial write of the four bytes is not modelled.
- Each stream has at most one failing call. The first fault stops the loop, so later ones are never reached.
- BitmapDd.FlushWord: after a failed write, C's `bits` holds the byte-swapped word; the model keeps the unswapped value. The loop breaks right after, so the value is never used.
- BitmapDd.BitmapDd: requires freshly opened streams: position 0, no earlier reads or writes, end-of-file not set. `main` always passes such streams.
- The loop body's reuse of `res` for the contains1 result and the fwrite result is modelled as separate variables.
