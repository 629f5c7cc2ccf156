/** The bit buffer the matrix builder uses for the type-info and
    version-info words: an ordered sequence of bits where each multi-bit
    append puts the most significant bit first. The buffer class itself is
    not part of this model; its contents are a value of type seq<bool>. */
module BitVectors {
  import opened GF2

  /** The low n bits of v, most significant first (what AppendBits(v, n) appends). */
  function BitsOf(v: nat, n: nat): (bits: seq<bool>)
    ensures |bits| == n
    decreases n
  {
    if n == 0 then [] else BitsOf(v / 2, n - 1) + [v % 2 == 1]
  }

  /** The number a bit sequence denotes, read most significant bit first. */
  function ValueOf(bits: seq<bool>): nat
    decreases |bits|
  {
    if bits == [] then 0
    else 2 * ValueOf(bits[..|bits| - 1]) + (if bits[|bits| - 1] then 1 else 0)
  }

  /** Appending the low n bits of value to a buffer. */
  function AppendBits(bits: seq<bool>, value: nat, n: nat): (r: seq<bool>)
    ensures |r| == |bits| + n
    ensures r[..|bits|] == bits
  {
    bits + BitsOf(value, n)
  }

  /** Bitwise exclusive-or of two buffers of equal length. */
  function XorBits(a: seq<bool>, b: seq<bool>): (r: seq<bool>)
    requires |a| == |b|
    ensures |r| == |a|
  {
    seq(|a|, i requires 0 <= i < |a| => a[i] != b[i])
  }

  /** A value below 2^n survives the round trip through n bits: reading back what AppendBits appended. */
  lemma {:induction false} ValueOfBitsOf(v: nat, n: nat)
    requires v < Pow2(n)
    ensures ValueOf(BitsOf(v, n)) == v
  {
    if n > 0 {
      ValueOfBitsOf(v / 2, n - 1);
      var b := BitsOf(v, n);
      assert b[..n - 1] == BitsOf(v / 2, n - 1);
    }
  }

  /** Reading a concatenation: the first part is shifted left by the length of the second. */
  lemma {:induction false} ValueOfConcat(a: seq<bool>, b: seq<bool>)
    ensures ValueOf(a + b) == ValueOf(a) * Pow2(|b|) + ValueOf(b)
    decreases |b|
  {
    if b == [] {
      assert a + b == a;
    } else {
      var b' := b[..|b| - 1];
      assert (a + b)[..|a + b| - 1] == a + b';
      ValueOfConcat(a, b');
      MulDouble(ValueOf(a), Pow2(|b'|));
      assert ValueOf(a) * Pow2(|b|) == 2 * (ValueOf(a) * Pow2(|b'|));
    }
  }

  /** Masking twice with the same buffer restores the original. */
  lemma XorBitsTwice(a: seq<bool>, m: seq<bool>)
    requires |a| == |m|
    ensures XorBits(XorBits(a, m), m) == a
  {
  }
}
