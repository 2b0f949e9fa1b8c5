/** The entropy tap: ROrand assembles N single bits sampled from the ring
    oscillator's RANDOMBIT register into an unsigned integer, first bit most
    significant. The volatile register is modelled as the sequence of bits it
    yields on successive reads. */
module Entropy {

  /** Width of the C `unsigned int` accumulator. */
  const WordBits: nat := 32
  const WordModulus: nat := 0x1_0000_0000

  function Pow2(n: nat): (p: nat)
    ensures p >= 1
  {
    if n == 0 then 1 else 2 * Pow2(n - 1)
  }

  lemma {:induction false} Pow2Add(a: nat, b: nat)
    ensures Pow2(a + b) == Pow2(a) * Pow2(b)
  {
    if a > 0 {
      Pow2Add(a - 1, b);
    }
  }

  lemma Pow2WordBits()
    ensures Pow2(WordBits) == WordModulus
  {
    assert Pow2(4) == 16;
    Pow2Add(4, 4);
    Pow2Add(8, 8);
    Pow2Add(16, 16);
  }

  function BitValue(bit: bool): (v: nat)
    ensures v < 2
  {
    if bit then 1 else 0
  }

  /** The value of a bit string read most-significant-bit first: every new
      bit is shifted in at the low end. */
  function BitsValue(bits: seq<bool>): (v: nat)
    ensures |bits| > 0 ==> v % 2 == BitValue(bits[|bits| - 1])
  {
    if |bits| == 0 then 0 else 2 * BitsValue(bits[..|bits| - 1]) + BitValue(bits[|bits| - 1])
  }

  /** The inverse of BitsValue: the n-bit binary expansion of v, most
      significant bit first. */
  function ToBits(v: nat, n: nat): (bits: seq<bool>)
    ensures |bits| == n
  {
    if n == 0 then [] else ToBits(v / 2, n - 1) + [v % 2 == 1]
  }

  /** n bits never exceed n binary digits. */
  lemma {:induction false} BitsValueBound(bits: seq<bool>)
    ensures BitsValue(bits) < Pow2(|bits|)
  {
    if |bits| > 0 {
      BitsValueBound(bits[..|bits| - 1]);
    }
  }

  /** The first bit read is the most significant one: it is worth
      2^(n-1), and the remaining bits form the value below it. */
  lemma {:induction false} FirstBitMostSignificant(bits: seq<bool>)
    requires |bits| > 0
    ensures BitsValue(bits) == BitValue(bits[0]) * Pow2(|bits| - 1) + BitsValue(bits[1..])
  {
    var n := |bits|;
    if n > 1 {
      var front := bits[..n - 1];
      FirstBitMostSignificant(front);
      assert front[1..] == bits[1..][..n - 2];
      assert front[0] == bits[0];
      calc {
        BitsValue(bits);
        2 * BitsValue(front) + BitValue(bits[n - 1]);
        2 * (BitValue(bits[0]) * Pow2(n - 2) + BitsValue(front[1..])) + BitValue(bits[n - 1]);
        BitValue(bits[0]) * Pow2(n - 1) + (2 * BitsValue(bits[1..][..n - 2]) + BitValue(bits[1..][n - 2]));
        BitValue(bits[0]) * Pow2(n - 1) + BitsValue(bits[1..]);
      }
    } else {
      assert bits[..0] == [];
    }
  }

  /** Reading back the binary expansion of a value that fits gives the value. */
  lemma {:induction false} ToBitsRoundTrip(v: nat, n: nat)
    requires v < Pow2(n)
    ensures BitsValue(ToBits(v, n)) == v
  {
    if n > 0 {
      ToBitsRoundTrip(v / 2, n - 1);
      var bits := ToBits(v, n);
      assert bits[..n - 1] == ToBits(v / 2, n - 1);
    }
  }

  /** Expanding the value of a bit string gives the bits back: the value
      determines every bit that was read. */
  lemma {:induction false} BitsValueRoundTrip(bits: seq<bool>)
    ensures ToBits(BitsValue(bits), |bits|) == bits
  {
    if |bits| > 0 {
      var n := |bits|;
      BitsValueRoundTrip(bits[..n - 1]);
      assert BitsValue(bits) / 2 == BitsValue(bits[..n - 1]);
      assert bits == bits[..n - 1] + [bits[n - 1]];
    }
  }

  /** `random << 1 | bit` on a 32-bit unsigned accumulator, written out:
      the shift drops the top bit, and the new bit fills the zero left at
      the bottom, so the `|` is an addition. */
  function ShiftIn(random: nat, bit: bool): (r: nat)
    ensures r < WordModulus
    ensures r % 2 == BitValue(bit)
  {
    var shifted := (random * 2) % 0x1_0000_0000;
    WordModUnique(random * 2, random * 2 / 0x1_0000_0000, shifted);
    assert shifted % 2 == 0;
    shifted + BitValue(bit)
  }

  /** Reduction modulo 2^32 is determined by quotient and remainder. */
  lemma {:induction false} WordModUnique(a: int, q: int, r: int)
    requires 0 <= r < 0x1_0000_0000 && a == q * 0x1_0000_0000 + r
    ensures a % WordModulus == r
  {
    var q', r' := a / 0x1_0000_0000, a % 0x1_0000_0000;
    assert a == q' * 0x1_0000_0000 + r';
  }

  lemma ShiftInMod(v: nat, bit: bool)
    ensures ShiftIn(v % WordModulus, bit) == (2 * v + BitValue(bit)) % WordModulus
  {
    var q, s := v / 0x1_0000_0000, v % 0x1_0000_0000;
    assert v == q * 0x1_0000_0000 + s;
    var e := BitValue(bit);
    if 2 * s < 0x1_0000_0000 {
      WordModUnique(s * 2, 0, 2 * s);
      WordModUnique(2 * v + e, 2 * q, 2 * s + e);
    } else {
      WordModUnique(s * 2, 1, 2 * s - 0x1_0000_0000);
      WordModUnique(2 * v + e, 2 * q + 1, 2 * s - 0x1_0000_0000 + e);
    }
  }

  /** ROrand(N) (golcol.cpp:46-56): read the register N times and shift
      each sampled bit in at the low end of a 32-bit accumulator.
      `samples` holds the bits the register yields, in reading order. */
  method ROrand(n: int, samples: seq<bool>) returns (random: nat)
    requires n <= |samples|
    ensures random < WordModulus
    ensures n <= 0 ==> random == 0
    ensures n > 0 ==> random == BitsValue(samples[..n]) % WordModulus
    ensures 0 <= n <= WordBits ==> random == BitsValue(samples[..n])
    ensures 0 <= n < WordBits ==> random < Pow2(n)
  {
    random := 0;
    var i := 0;
    while i < n
      invariant 0 <= i <= if n < 0 then 0 else n
      invariant random == BitsValue(samples[..i]) % WordModulus
    {
      var randomBit := samples[i];
      ShiftInMod(BitsValue(samples[..i]), randomBit);
      assert samples[..i + 1][..i] == samples[..i];
      random := ShiftIn(random, randomBit);
      i := i + 1;
    }
    if 0 <= n <= WordBits {
      BitsValueBound(samples[..n]);
      Pow2Monotone(n, WordBits);
      Pow2WordBits();
    }
  }

  lemma {:induction false} Pow2Monotone(a: nat, b: nat)
    requires a <= b
    ensures Pow2(a) <= Pow2(b)
  {
    if a < b {
      Pow2Monotone(a, b - 1);
    }
  }

  /** The bits the j-th call `ROrand(32)` reads from the stream of samples. */
  function DrawBits(samples: seq<bool>, j: nat): (bits: seq<bool>)
    requires WordBits * (j + 1) <= |samples|
    ensures |bits| == WordBits
  {
    samples[WordBits * j .. WordBits * (j + 1)]
  }

  /** The value of the j-th 32-bit draw. */
  function Draw(samples: seq<bool>, j: nat): (v: nat)
    requires WordBits * (j + 1) <= |samples|
    ensures v < WordModulus
  {
    BitsValueBound(DrawBits(samples, j));
    Pow2WordBits();
    BitsValue(DrawBits(samples, j))
  }
}
