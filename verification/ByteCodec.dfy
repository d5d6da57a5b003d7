/** Little-endian integers in byte buffers, as both wire formats use them. */
module ByteCodec {
  import opened Arithmetic
  import opened RadioTypes

  function Pow256(n: nat): Positive {
    if n == 0 then 1 else 256 * Pow256(n - 1)
  }

  /** The value of a little-endian byte string. Shifted bytes have no bits in common, so OR-ing them is adding. */
  function Value(b: bytes): (v: nat)
    ensures v < Pow256(|b|)
  {
    if b == [] then 0 else b[0] + 256 * Value(b[1..])
  }

  /** The `n` low bytes of `v`, least significant first. */
  function LittleEndian(v: nat, n: nat): (b: bytes)
    ensures |b| == n
  {
    if n == 0 then [] else [v % 256] + LittleEndian(v / 256, n - 1)
  }

  lemma {:induction false} ValueOfLittleEndian(v: nat, n: nat)
    requires v < Pow256(n)
    ensures Value(LittleEndian(v, n)) == v
  {
    if n != 0 {
      ValueOfLittleEndian(v / 256, n - 1);
      assert LittleEndian(v, n)[1..] == LittleEndian(v / 256, n - 1);
    }
  }

  lemma {:induction false} LittleEndianOfValue(b: bytes)
    ensures LittleEndian(Value(b), |b|) == b
  {
    if b != [] {
      LittleEndianOfValue(b[1..]);
      assert b == [b[0]] + b[1..];
    }
  }

  lemma {:induction false} ValueAppend(b: bytes, x: u8)
    ensures Value(b + [x]) == Value(b) + x * Pow256(|b|)
  {
    if b == [] {
      assert b + [x] == [x];
      assert [x][1..] == [];
    } else {
      ValueAppend(b[1..], x);
      assert (b + [x])[1..] == b[1..] + [x];
      MulAssociates(x, 256, Pow256(|b| - 1));
    }
  }

  lemma {:induction false} LittleEndianAppend(v: nat, n: nat)
    ensures LittleEndian(v, n + 1) == LittleEndian(v, n) + [v / Pow256(n) % 256]
  {
    if n == 0 {
      assert LittleEndian(v / 256, 0) == [];
    } else {
      LittleEndianAppend(v / 256, n - 1);
      DivDiv(v, 256, Pow256(n - 1));
    }
  }

  lemma DivDiv(v: nat, a: Positive, b: Positive)
    ensures v / a / b == v / (a * b)
  {
    var u := v / a;
    var q := u / b;
    QuotientIs(v, u, a);
    QuotientIs(u, q, b);
    MulMono(q * b, u, a);
    MulMono(u + 1, (q + 1) * b, a);
    MulAssociates(q, a, b);
    MulAssociates(q + 1, a, b);
    QuotientIs(v, q, a * b);
  }

  lemma MulAssociates(q: nat, a: nat, b: nat)
    ensures q * b * a == q * (a * b)
  {
  }

  lemma PowerValues()
    ensures Pow256(2) == 0x1_0000 && Pow256(4) == U32_MODULUS && Pow256(8) == U64_MODULUS
  {
    assert Pow256(4) == 256 * 256 * Pow256(2);
    assert Pow256(6) == 256 * 256 * Pow256(4);
    assert Pow256(8) == 256 * 256 * Pow256(6);
  }

  // Both headers use two-byte fields; the source spells those out without a loop.

  function Word(low: u8, high: u8): (w: u16)
    ensures w == Value([low, high])
  {
    assert [low, high][1..] == [high] && [high][1..] == [];
    low + 256 * high
  }

  method WriteU16(p: array<u8>, at: nat, value: u16)
    requires at + 2 <= p.Length
    modifies p
    ensures p[..] == old(p[..])[at := value % 256][at + 1 := value / 256]
  {
    p[at] := value % 256;
    p[at + 1] := value / 256 % 256;
  }

  /** WriteU32 and WriteU64 are this loop with `size` 4 and 8. */
  method WriteBytes(p: array<u8>, at: nat, value: nat, size: nat)
    requires at + size <= p.Length
    modifies p
    ensures p[..] == old(p[..at]) + LittleEndian(value, size) + old(p[at + size..])
  {
    var index := 0;
    while index < size
      invariant index <= size
      invariant p[at..at + index] == LittleEndian(value, index)
      invariant p[..at] == old(p[..at]) && p[at + index..] == old(p[at + index..])
    {
      LittleEndianAppend(value, index);
      ghost var before := p[at..at + index];
      p[at + index] := value / Pow256(index) % 256;
      index := index + 1;
      assert p[at..at + index] == before + [p[at + index - 1]];
    }
    assert p[..] == p[..at] + p[at..at + size] + p[at + size..];
  }

  /** ReadU32 and ReadU64 are this loop with `size` 4 and 8. */
  method ReadBytes(p: bytes, at: nat, size: nat) returns (value: nat)
    requires at + size <= |p|
    ensures value == Value(p[at..at + size])
  {
    value := 0;
    var index := 0;
    while index < size
      invariant index <= size
      invariant value == Value(p[at..at + index])
    {
      ValueAppend(p[at..at + index], p[at + index]);
      assert p[at..at + index + 1] == p[at..at + index] + [p[at + index]];
      value := value + p[at + index] * Pow256(index);
      index := index + 1;
    }
  }
}
