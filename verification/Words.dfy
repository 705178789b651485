// Machine words as natural numbers with the bit operations of the source language, and their meaning bit by bit.
module Words {
  function BitAt(v: nat, i: nat): bool {
    if i == 0 then v % 2 == 1 else BitAt(v / 2, i - 1)
  }

  // The low n bits: conversion to an n-bit unsigned type, or masking with 2^n - 1.
  function Low(v: nat, n: nat): nat {
    if n == 0 then 0 else v % 2 + 2 * Low(v / 2, n - 1)
  }

  function ShiftLeft(v: nat, n: nat): nat {
    if n == 0 then v else 2 * ShiftLeft(v, n - 1)
  }

  function ShiftRight(v: nat, n: nat): nat {
    if n == 0 then v else ShiftRight(v / 2, n - 1)
  }

  function Or(a: nat, b: nat): nat {
    if a == 0 then b else if b == 0 then a
    else (if a % 2 == 1 || b % 2 == 1 then 1 else 0) + 2 * Or(a / 2, b / 2)
  }

  predicate Fits(v: nat, n: nat) {
    ShiftRight(v, n) == 0
  }

  // Bits in the unit that the adapters read and write.
  const VALUE_SIZE := 8

  // ---------- bit by bit ----------

  lemma {:induction false} ZeroBits(i: nat)
    ensures !BitAt(0, i)
  {
    if i > 0 {
      ZeroBits(i - 1);
    }
  }

  lemma {:induction false} LowBit(v: nat, n: nat, i: nat)
    ensures BitAt(Low(v, n), i) <==> i < n && BitAt(v, i)
    decreases n
  {
    if n == 0 {
      ZeroBits(i);
    } else if i > 0 {
      LowBit(v / 2, n - 1, i - 1);
    }
  }

  lemma {:induction false} ShiftLeftBit(v: nat, n: nat, i: nat)
    ensures BitAt(ShiftLeft(v, n), i) <==> i >= n && BitAt(v, i - n)
    decreases n
  {
    if n > 0 && i > 0 {
      ShiftLeftBit(v, n - 1, i - 1);
    }
  }

  lemma {:induction false} ShiftRightBit(v: nat, n: nat, i: nat)
    ensures BitAt(ShiftRight(v, n), i) == BitAt(v, i + n)
    decreases n
  {
    if n > 0 {
      ShiftRightBit(v / 2, n - 1, i);
    }
  }

  lemma OrStep(a: nat, b: nat)
    requires a > 0 && b > 0
    ensures Or(a, b) / 2 == Or(a / 2, b / 2)
    ensures Or(a, b) % 2 == 1 <==> a % 2 == 1 || b % 2 == 1
  {
    var half := Or(a / 2, b / 2);
    assert Or(a, b) == (if a % 2 == 1 || b % 2 == 1 then 1 else 0) + 2 * half;
  }

  lemma {:induction false} OrBit(a: nat, b: nat, i: nat)
    ensures BitAt(Or(a, b), i) <==> BitAt(a, i) || BitAt(b, i)
    decreases i
  {
    if a == 0 || b == 0 {
      ZeroBits(i);
    } else {
      OrStep(a, b);
      if i > 0 {
        OrBit(a / 2, b / 2, i - 1);
      }
    }
  }

  // The same facts for every bit of one result.

  lemma LowBits(v: nat, n: nat)
    ensures forall i: nat :: BitAt(Low(v, n), i) <==> i < n && BitAt(v, i)
  {
    forall i: nat ensures BitAt(Low(v, n), i) <==> i < n && BitAt(v, i) {
      LowBit(v, n, i);
    }
  }

  lemma ShiftLeftBits(v: nat, n: nat)
    ensures forall i: nat :: BitAt(ShiftLeft(v, n), i) <==> i >= n && BitAt(v, i - n)
  {
    forall i: nat ensures BitAt(ShiftLeft(v, n), i) <==> i >= n && BitAt(v, i - n) {
      ShiftLeftBit(v, n, i);
    }
  }

  lemma ShiftRightBits(v: nat, n: nat)
    ensures forall i: nat :: BitAt(ShiftRight(v, n), i) == BitAt(v, i + n)
  {
    forall i: nat ensures BitAt(ShiftRight(v, n), i) == BitAt(v, i + n) {
      ShiftRightBit(v, n, i);
    }
  }

  lemma OrBits(a: nat, b: nat)
    ensures forall i: nat :: BitAt(Or(a, b), i) <==> BitAt(a, i) || BitAt(b, i)
  {
    forall i: nat ensures BitAt(Or(a, b), i) <==> BitAt(a, i) || BitAt(b, i) {
      OrBit(a, b, i);
    }
  }

  // Numbers with the same bits are equal.
  lemma {:induction false} SameBits(a: nat, b: nat)
    requires forall i: nat :: BitAt(a, i) == BitAt(b, i)
    ensures a == b
    decreases a + b
  {
    assert BitAt(a, 0) == BitAt(b, 0);
    if a > 0 || b > 0 {
      forall i: nat ensures BitAt(a / 2, i) == BitAt(b / 2, i) {
        assert BitAt(a, i + 1) == BitAt(b, i + 1);
      }
      SameBits(a / 2, b / 2);
    }
  }

  lemma FittingBits(v: nat, n: nat)
    requires Fits(v, n)
    ensures forall i: nat :: i >= n ==> !BitAt(v, i)
  {
    forall i: nat | i >= n ensures !BitAt(v, i) {
      ShiftRightBit(v, n, i - n);
      ZeroBits(i - n);
    }
  }

  lemma FitsByBits(v: nat, n: nat)
    requires forall i: nat :: i >= n ==> !BitAt(v, i)
    ensures Fits(v, n)
  {
    forall i: nat ensures BitAt(ShiftRight(v, n), i) == BitAt(0, i) {
      ShiftRightBit(v, n, i);
      ZeroBits(i);
    }
    SameBits(ShiftRight(v, n), 0);
  }

  // ---------- arithmetic reading of the operations ----------

  function Pow2(n: nat): nat {
    if n == 0 then 1 else 2 * Pow2(n - 1)
  }

  lemma Doubled(q: nat, p: nat)
    ensures q * (2 * p) == 2 * (q * p)
  {
  }

  lemma QuotientZero(q: nat, p: nat, r: nat)
    requires r < p
    ensures q == 0 <==> q * p + r < p
  {
    if q > 0 {
      assert q * p >= p;
    }
  }

  /** The word operations are what the arithmetic says: remainder, product and quotient by a power of two. */
  lemma {:induction false} WordArithmetic(v: nat, n: nat)
    ensures ShiftLeft(v, n) == v * Pow2(n)
    ensures v == ShiftRight(v, n) * Pow2(n) + Low(v, n)
    ensures Low(v, n) < Pow2(n)
    ensures Fits(v, n) <==> v < Pow2(n)
    decreases n
  {
    if n > 0 {
      var p := Pow2(n - 1);
      WordArithmetic(v, n - 1);
      WordArithmetic(v / 2, n - 1);
      var q := ShiftRight(v / 2, n - 1);
      assert v == 2 * (q * p + Low(v / 2, n - 1)) + v % 2;
      Doubled(q, p);
      Doubled(v, p);
    }
    QuotientZero(ShiftRight(v, n), Pow2(n), Low(v, n));
  }

  // ---------- bit strings, least significant bit first ----------

  function Bits(v: nat, n: nat): seq<bool> {
    seq(n, i requires 0 <= i => BitAt(v, i))
  }

  lemma NoBits(v: nat)
    ensures Bits(v, 0) == [] && ShiftRight(v, 0) == v && Fits(0, 0)
  {
  }

  function Number(bits: seq<bool>): nat {
    if bits == [] then 0 else (if bits[0] then 1 else 0) + 2 * Number(bits[1..])
  }

  lemma {:induction false} NumberBit(bits: seq<bool>, i: nat)
    ensures BitAt(Number(bits), i) <==> i < |bits| && bits[i]
    decreases |bits|
  {
    if bits == [] {
      ZeroBits(i);
    } else if i > 0 {
      NumberBit(bits[1..], i - 1);
    }
  }

  lemma NoNumber()
    ensures Number([]) == 0 && Pow2(0) == 1
  {
  }

  lemma FirstBit(a: seq<bool>)
    requires a != []
    ensures Number(a) == (if a[0] then 1 else 0) + 2 * Number(a[1..])
  {
  }

  lemma PowStep(n: nat)
    requires n > 0
    ensures Pow2(n) == 2 * Pow2(n - 1)
  {
  }

  /** A field that follows another takes the next higher bits: the wire is read least significant bit first. */
  lemma {:induction false} NumberOfFields(a: seq<bool>, b: seq<bool>)
    ensures Number(a + b) == Number(a) + Number(b) * Pow2(|a|)
    decreases |a|
  {
    hide Number, Pow2;
    if a == [] {
      assert a + b == b;
      NoNumber();
    } else {
      assert (a + b)[1..] == a[1..] + b;
      FirstBit(a);
      FirstBit(a + b);
      NumberOfFields(a[1..], b);
      PowStep(|a|);
      Doubled(Number(b), Pow2(|a| - 1));
    }
  }

  lemma NumberOfBits(v: nat, n: nat)
    requires Fits(v, n)
    ensures Number(Bits(v, n)) == v
  {
    FittingBits(v, n);
    forall i: nat ensures BitAt(Number(Bits(v, n)), i) == BitAt(v, i) {
      NumberBit(Bits(v, n), i);
    }
    SameBits(Number(Bits(v, n)), v);
  }

  lemma BitsSplit(v: nat, a: nat, b: nat)
    ensures Bits(v, a + b) == Bits(v, a) + Bits(ShiftRight(v, a), b)
  {
    forall i | 0 <= i < b ensures BitAt(v, a + i) == BitAt(ShiftRight(v, a), i) {
      ShiftRightBit(v, a, i);
    }
  }

  lemma {:induction false} ShiftRightTwice(v: nat, a: nat, b: nat)
    ensures ShiftRight(ShiftRight(v, a), b) == ShiftRight(v, a + b)
    decreases a
  {
    if a > 0 {
      ShiftRightTwice(v / 2, a - 1, b);
    }
  }

  // ---------- bytes ----------

  type Byte = n: nat | n < 256

  function ByteBits(bytes: seq<Byte>): (bits: seq<bool>)
    ensures |bits| == 8 * |bytes|
  {
    if bytes == [] then [] else ByteBits(bytes[..|bytes| - 1]) + Bits(bytes[|bytes| - 1], 8)
  }

  lemma LowByteFits(v: nat)
    ensures Low(v, 8) < 256
  {
    WordArithmetic(v, 8);
    assert Pow2(8) == 256;
  }

  // Little-endian bytes of a value.
  function LittleEndian(v: nat, size: nat): (bytes: seq<Byte>)
    ensures |bytes| == size
    decreases size
  {
    if size == 0 then []
    else
      LowByteFits(v);
      [Low(v, 8)] + LittleEndian(ShiftRight(v, 8), size - 1)
  }

  lemma ByteFits(b: Byte)
    ensures Fits(b, 8)
  {
    WordArithmetic(b, 8);
    assert Pow2(8) == 256;
  }

  lemma {:induction false} ByteBitsConcat(a: seq<Byte>, b: seq<Byte>)
    ensures ByteBits(a + b) == ByteBits(a) + ByteBits(b)
    decreases |b|
  {
    if b == [] {
      assert a + b == a;
    } else {
      var init := b[..|b| - 1];
      assert (a + b)[..|a + b| - 1] == a + init;
      ByteBitsConcat(a, init);
    }
  }

  lemma SingleByteBits(b: Byte)
    ensures ByteBits([b]) == Bits(b, 8)
  {
    assert [b][..0] == [];
    assert ByteBits([]) == [];
  }

  lemma BitsOfLow(v: nat, n: nat)
    ensures Bits(Low(v, n), n) == Bits(v, n)
  {
    LowBits(v, n);
  }

  lemma {:induction false} LittleEndianBits(v: nat, size: nat)
    ensures ByteBits(LittleEndian(v, size)) == Bits(v, 8 * size)
    decreases size
  {
    if size > 0 {
      var low: Byte := LittleEndian(v, size)[0];
      var rest := LittleEndian(ShiftRight(v, 8), size - 1);
      assert LittleEndian(v, size) == [low] + rest;
      ByteBitsConcat([low], rest);
      SingleByteBits(low);
      LittleEndianBits(ShiftRight(v, 8), size - 1);
      BitsSplit(v, 8, 8 * (size - 1));
      BitsOfLow(v, 8);
    }
  }

  /** A byte string is determined by its bits. */
  lemma {:induction false} ByteBitsInjective(a: seq<Byte>, b: seq<Byte>)
    requires ByteBits(a) == ByteBits(b)
    ensures a == b
    decreases |a|
  {
    assert |a| == |b|;
    if a != [] {
      var n := |a| - 1;
      var (x, y) := (ByteBits(a[..n]), ByteBits(b[..n]));
      assert x == ByteBits(a)[..8 * n] == y;
      assert Bits(a[n], 8) == ByteBits(a)[8 * n..] == Bits(b[n], 8);
      ByteBitsInjective(a[..n], b[..n]);
      ByteFits(a[n]);
      ByteFits(b[n]);
      NumberOfBits(a[n], 8);
      NumberOfBits(b[n], 8);
    }
  }
}
