/**
 * Unsigned numbers as bit strings and byte strings.
 *
 * A bit string is a `seq<bool>` read most-significant bit first. The
 * functions here give the value of a bit string, the bits of a number,
 * the big-endian bytes of a number and the bits of a byte stream, and the
 * lemmas connect them.
 */
module Bits {

  /** An octet as stored in a `char` buffer or written to a stream. */
  newtype byte = x: int | 0 <= x < 256

  function Pow2(k: nat): (r: nat)
    ensures r >= 1
  {
    if k == 0 then 1 else 2 * Pow2(k - 1)
  }

  function Zeros(n: nat): (z: seq<bool>)
    ensures |z| == n
    ensures forall k :: 0 <= k < n ==> !z[k]
  {
    seq(n, _ => false)
  }

  /** The value of a bit string read most-significant bit first. */
  function Val(c: seq<bool>): nat
  {
    if c == [] then 0 else 2 * Val(c[..|c| - 1]) + (if c[|c| - 1] then 1 else 0)
  }

  /** The `n` low-order bits of `x`, most-significant bit first. */
  function BitsMsbFirst(x: nat, n: nat): (c: seq<bool>)
    ensures |c| == n
  {
    if n == 0 then [] else BitsMsbFirst(x / 2, n - 1) + [x % 2 == 1]
  }

  /** The `n` low-order bytes of `x`, most-significant byte first (network byte order). */
  function BigEndian(x: nat, n: nat): (s: seq<byte>)
    ensures |s| == n
  {
    if n == 0 then [] else BigEndian(x / 256, n - 1) + [(x % 256) as byte]
  }

  /** The bits of a byte stream, each byte read most-significant bit first. */
  function StreamBits(s: seq<byte>): (c: seq<bool>)
    ensures |c| == 8 * |s|
  {
    if s == [] then [] else StreamBits(s[..|s| - 1]) + BitsMsbFirst(s[|s| - 1] as nat, 8)
  }

  lemma Pow2Word()
    ensures Pow2(32) == 0x1_0000_0000
  {
    assert Pow2(8) == 256;
    assert Pow2(16) == 65536;
    assert Pow2(24) == 16777216;
  }

  lemma {:induction false} ValBound(c: seq<bool>)
    ensures Val(c) < Pow2(|c|)
  {
    if c != [] {
      ValBound(c[..|c| - 1]);
    }
  }

  lemma {:induction false} ValZeros(n: nat)
    ensures Val(Zeros(n)) == 0
  {
    if n > 0 {
      assert Zeros(n)[..n - 1] == Zeros(n - 1);
      ValZeros(n - 1);
    }
  }

  /** Appending n zero bits multiplies the value by 2^n. */
  lemma ValPadded(c: seq<bool>, n: nat)
    ensures Val(c + Zeros(n)) == Val(c) * Pow2(n)
  {
    ValConcat(c, Zeros(n));
    ValZeros(n);
  }

  /** Reading the bits of a bit string's value gives the bit string back. */
  lemma {:induction false} BitsOfVal(c: seq<bool>)
    ensures BitsMsbFirst(Val(c), |c|) == c
  {
    if c != [] {
      var p := c[..|c| - 1];
      BitsOfVal(p);
      assert c == p + [c[|c| - 1]];
    }
  }

  /** A number below 2^n is the value of its n bits. */
  lemma {:induction false} ValOfBits(x: nat, n: nat)
    requires x < Pow2(n)
    ensures Val(BitsMsbFirst(x, n)) == x
  {
    if n > 0 {
      ValOfBits(x / 2, n - 1);
      var c := BitsMsbFirst(x, n);
      assert c[..n - 1] == BitsMsbFirst(x / 2, n - 1);
    }
  }

  /** Appending bits shifts the value of the prefix left by their number. */
  lemma {:induction false} ValConcat(a: seq<bool>, b: seq<bool>)
    ensures Val(a + b) == Val(a) * Pow2(|b|) + Val(b)
  {
    if b == [] {
      assert a + b == a;
    } else {
      var b' := b[..|b| - 1];
      var x := if b[|b| - 1] then 1 else 0;
      ValConcat(a, b');
      assert (a + b)[..|a + b| - 1] == a + b';
      assert Val(a + b) == 2 * Val(a + b') + x;
      assert Val(b) == 2 * Val(b') + x;
      assert Pow2(|b|) == 2 * Pow2(|b'|);
      ShiftStep(Val(a), Pow2(|b'|), Val(b'), x);
    }
  }

  lemma ShiftStep(v: nat, p: nat, r: nat, x: nat)
    ensures 2 * (v * p + r) + x == v * (2 * p) + (2 * r + x)
  {
  }

  lemma {:induction false} StreamBitsConcat(s: seq<byte>, t: seq<byte>)
    ensures StreamBits(s + t) == StreamBits(s) + StreamBits(t)
  {
    if t == [] {
      assert s + t == s;
    } else {
      var t' := t[..|t| - 1];
      StreamBitsConcat(s, t');
      assert (s + t)[..|s + t| - 1] == s + t';
    }
  }

  /** The big-endian bytes of the value of 8n bits, read most-significant bit first, are those bits. */
  lemma {:induction false} StreamOfBigEndian(c: seq<bool>, n: nat)
    requires |c| == 8 * n
    ensures StreamBits(BigEndian(Val(c), n)) == c
  {
    if n > 0 {
      var hi, lo := c[..8 * (n - 1)], c[8 * (n - 1)..];
      assert c == hi + lo;
      ValConcat(hi, lo);
      assert Pow2(|lo|) == 256;
      ValBound(lo);
      assert Val(c) / 256 == Val(hi);
      assert Val(c) % 256 == Val(lo);
      StreamOfBigEndian(hi, n - 1);
      BitsOfVal(lo);
      var s := BigEndian(Val(c), n);
      assert s[..n - 1] == BigEndian(Val(hi), n - 1);
    }
  }

  /** The four big-endian bytes of a 32-bit word, read bit by bit, are the word's bits from bit 31 down. */
  lemma BigEndianWordBits(x: nat)
    requires x < Pow2(32)
    ensures StreamBits(BigEndian(x, 4)) == BitsMsbFirst(x, 32)
  {
    ValOfBits(x, 32);
    StreamOfBigEndian(BitsMsbFirst(x, 32), 4);
  }
}
