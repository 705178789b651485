// The bit-packing writer: values of any width are packed, least significant bit first, into a byte sequence.
module BitWriter {
  import opened Words

  function BufferBytes(vs: seq<nat>, size: nat): seq<Byte> {
    if vs == [] then [] else BufferBytes(vs[..|vs| - 1], size) + LittleEndian(vs[|vs| - 1], size)
  }

  // The wrapped adapter: an append-only little-endian byte sequence.
  class OutputAdapter {
    var bytes: seq<Byte>

    constructor ()
      ensures bytes == []
    {
      bytes := [];
    }

    method WriteBytes(v: nat, size: nat)
      modifies this
      ensures bytes == old(bytes) + LittleEndian(v, size)
    {
      bytes := bytes + LittleEndian(v, size);
    }

    method WriteBuffer(vs: seq<nat>, size: nat)
      modifies this
      ensures bytes == old(bytes) + BufferBytes(vs, size)
    {
      bytes := bytes + BufferBytes(vs, size);
    }
  }

  function BufferBits(vs: seq<nat>, size: nat): seq<bool> {
    if vs == [] then [] else BufferBits(vs[..|vs| - 1], size) + Bits(vs[|vs| - 1], 8 * size)
  }

  lemma {:induction false} BufferBytesBits(vs: seq<nat>, size: nat)
    ensures ByteBits(BufferBytes(vs, size)) == BufferBits(vs, size)
  {
    if vs != [] {
      BufferBytesBits(vs[..|vs| - 1], size);
      LittleEndianBits(vs[|vs| - 1], size);
      ByteBitsConcat(BufferBytes(vs[..|vs| - 1], size), LittleEndian(vs[|vs| - 1], size));
    }
  }

  function Zeros(n: nat): seq<bool> {
    seq(n, _ => false)
  }

  // ---------- one turn of the writing loop ----------

  // Above its counted bits the scratch word may already hold the first k bits of the value that is being written:
  // the word was filled with more bits of the value than were counted.
  ghost predicate Leftover(scratch: nat, scratchBits: nat, value: nat, k: nat) {
    forall i: nat :: i >= scratchBits ==> (BitAt(scratch, i) <==> i - scratchBits < k && BitAt(value, i - scratchBits))
  }

  // The scratch word after the whole value has been shifted in, in a word of the given width.
  function Filled(scratch: nat, scratchBits: nat, value: nat, width: nat): nat {
    Low(Or(scratch, ShiftLeft(Low(value, width), scratchBits)), width)
  }

  lemma FilledBits(scratch: nat, scratchBits: nat, value: nat, width: nat, k: nat)
    requires scratchBits + k <= width && Leftover(scratch, scratchBits, value, k)
    ensures var s := Filled(scratch, scratchBits, value, width);
            forall i: nat :: BitAt(s, i) <==>
              if i < scratchBits then BitAt(scratch, i) else i < width && BitAt(value, i - scratchBits)
  {
    var s := Filled(scratch, scratchBits, value, width);
    forall i: nat
      ensures BitAt(s, i) <==>
              if i < scratchBits then BitAt(scratch, i) else i < width && BitAt(value, i - scratchBits)
    {
      LowBit(Or(scratch, ShiftLeft(Low(value, width), scratchBits)), width, i);
      OrBit(scratch, ShiftLeft(Low(value, width), scratchBits), i);
      ShiftLeftBit(Low(value, width), scratchBits, i);
      if i >= scratchBits {
        LowBit(value, width, i - scratchBits);
      }
    }
  }

  // The counted bits of the scratch word are followed by the next bits of the value.
  lemma ChunkBits(scratch: nat, scratchBits: nat, value: nat, width: nat, k: nat, bits: nat)
    requires scratchBits + k <= width && Leftover(scratch, scratchBits, value, k) && scratchBits + bits <= width
    ensures Bits(Filled(scratch, scratchBits, value, width), scratchBits + bits) ==
            Bits(scratch, scratchBits) + Bits(value, bits)
  {
    hide Filled, Leftover;
    FilledBits(scratch, scratchBits, value, width, k);
  }

  // Taking one byte off the scratch word.
  lemma EmitBits(s: nat, n: nat)
    requires n >= 8
    ensures Bits(s, n) == Bits(Low(s, 8), 8) + Bits(ShiftRight(s, 8), n - 8)
  {
    BitsSplit(s, 8, n - 8);
    BitsOfLow(s, 8);
  }

  // After a full byte of the value has been counted, the word holds more of what is left of the value.
  lemma FullChunkLeftover(scratch: nat, scratchBits: nat, value: nat, width: nat, k: nat)
    requires scratchBits < 8 && 16 <= width
    requires scratchBits + k <= width && Leftover(scratch, scratchBits, value, k)
    ensures Leftover(ShiftRight(Filled(scratch, scratchBits, value, width), 8), scratchBits, ShiftRight(value, 8),
                     width - 8 - scratchBits)
  {
    hide Filled;
    FilledBits(scratch, scratchBits, value, width, k);
    ShiftRightBits(Filled(scratch, scratchBits, value, width), 8);
    ShiftRightBits(value, 8);
  }

  // The last chunk leaves nothing above the counted bits.
  lemma LastChunkFits(scratch: nat, scratchBits: nat, value: nat, width: nat, k: nat, bits: nat)
    requires scratchBits + k <= width && Leftover(scratch, scratchBits, value, k)
    requires scratchBits + bits <= width && Fits(value, bits)
    ensures Fits(Filled(scratch, scratchBits, value, width), scratchBits + bits)
  {
    hide Filled, Fits;
    FilledBits(scratch, scratchBits, value, width, k);
    FittingBits(value, bits);
    FitsByBits(Filled(scratch, scratchBits, value, width), scratchBits + bits);
  }

  lemma ShiftedFits(s: nat, n: nat)
    requires n >= 8 && Fits(s, n)
    ensures Fits(ShiftRight(s, 8), n - 8)
  {
    ShiftRightTwice(s, 8, n - 8);
  }

  lemma CleanIsLeftover(scratch: nat, scratchBits: nat, value: nat)
    requires Fits(scratch, scratchBits)
    ensures Leftover(scratch, scratchBits, value, 0)
  {
    FittingBits(scratch, scratchBits);
  }

  // ---------- the writer ----------

  // Zero bits needed to reach a byte boundary.
  function PadLength(n: nat): (k: nat)
    ensures k < 8 && (n + k) % 8 == 0
  {
    (8 - n % 8) % 8
  }

  lemma ZeroPad(n: nat)
    ensures Bits(0, n) == Zeros(n) && Fits(0, n)
  {
    forall i: nat ensures !BitAt(0, i) {
      ZeroBits(i);
    }
    FitsByBits(0, n);
  }

  lemma SingleByte(v: nat)
    ensures Low(v, 8) < 256 && LittleEndian(Low(v, 8), 1) == [Low(v, 8)]
  {
    LowByteFits(v);
    LowBits(v, 8);
    LowBits(Low(v, 8), 8);
    SameBits(Low(Low(v, 8), 8), Low(v, 8));
    assert LittleEndian(ShiftRight(Low(v, 8), 8), 0) == [];
  }

  lemma EmptyBuffer(vs: seq<nat>, size: nat)
    ensures BufferBits(vs[..0], size) == []
  {
  }

  lemma OneMoreValue(vs: seq<nat>, i: nat, size: nat)
    requires i < |vs|
    ensures BufferBits(vs[..i + 1], size) == BufferBits(vs[..i], size) + Bits(vs[i], 8 * size)
  {
    hide Bits;
    assert vs[..i + 1][..i] == vs[..i];
  }

  class BitPackingWriter {
    const wrapped: OutputAdapter
    const width: nat
    var scratch: nat
    var scratchBits: nat

    // The scratch type is at least 16 bits wide; how much wider depends on the platform.
    constructor (adapter: OutputAdapter, scratchWidth: nat)
      requires scratchWidth >= 16
      ensures Valid() && wrapped == adapter && scratchBits == 0
      ensures Wire() == ByteBits(adapter.bytes)
    {
      wrapped := adapter;
      width := scratchWidth;
      scratch, scratchBits := 0, 0;
    }

    ghost predicate Valid()
      reads this
    {
      width >= 16 && scratchBits < 8 && Fits(scratch, scratchBits)
    }

    // Everything written so far: the bytes handed on and the bits still held back.
    ghost function Wire(): seq<bool>
      reads this, wrapped
    {
      ByteBits(wrapped.bytes) + Bits(scratch, scratchBits)
    }

    method EmitByte()
      requires 8 <= scratchBits
      modifies this, wrapped
      ensures scratch == ShiftRight(old(scratch), 8) && scratchBits == old(scratchBits) - 8
      ensures Wire() == old(Wire())
    {
      hide BitAt, ByteBits;
      var tmp := Low(scratch, VALUE_SIZE);
      LowByteFits(scratch);
      EmitBits(scratch, scratchBits);
      SingleByte(scratch);
      ByteBitsConcat(wrapped.bytes, [tmp]);
      SingleByteBits(tmp);
      wrapped.WriteBytes(tmp, 1);
      scratch := ShiftRight(scratch, VALUE_SIZE);
      scratchBits := scratchBits - VALUE_SIZE;
    }

    method WriteBitsInternal(v: nat, size: nat)
      requires Valid() && Fits(v, size)
      modifies this, wrapped
      ensures Valid() && Wire() == old(Wire()) + Bits(v, size)
    {
      hide BitAt, ByteBits, Leftover, Fits, Low, Or, ShiftLeft, ShiftRight, Bits;
      var value := v;
      var bitsLeft: nat := size;
      ghost var k: nat := 0;
      ghost var written := old(Wire());
      CleanIsLeftover(scratch, scratchBits, value);
      NoBits(v);
      while bitsLeft > 0
        invariant bitsLeft <= size && width >= 16 && scratchBits < 8 && scratchBits + k <= width
        invariant bitsLeft > 0 ==> value == ShiftRight(v, size - bitsLeft) && Fits(value, bitsLeft)
        invariant bitsLeft > 0 ==> Leftover(scratch, scratchBits, value, k)
        invariant bitsLeft == 0 ==> Fits(scratch, scratchBits)
        invariant Wire() == written + Bits(v, size - bitsLeft)
      {
        var bits := if bitsLeft < VALUE_SIZE then bitsLeft else VALUE_SIZE;
        ghost var before := size - bitsLeft;
        ghost var (handed, held, next) := (ByteBits(wrapped.bytes), Bits(scratch, scratchBits), Bits(value, bits));
        ChunkBits(scratch, scratchBits, value, width, k, bits);
        BitsSplit(v, before, bits);
        if bits < bitsLeft {
          FullChunkLeftover(scratch, scratchBits, value, width, k);
          ShiftRightTwice(v, before, 8);
          ShiftedFits(value, bitsLeft);
        } else {
          LastChunkFits(scratch, scratchBits, value, width, k, bits);
        }
        scratch := Low(Or(scratch, ShiftLeft(Low(value, width), scratchBits)), width);
        scratchBits := scratchBits + bits;
        assert Wire() == handed + (held + next) == (handed + held) + next;
        assert Wire() == written + Bits(v, before + bits);
        if scratchBits >= VALUE_SIZE {
          if bits == bitsLeft {
            ShiftedFits(scratch, scratchBits);
          }
          EmitByte();
          value := ShiftRight(value, VALUE_SIZE);
        }
        bitsLeft := bitsLeft - bits;
        k := if bitsLeft > 0 then width - 8 - scratchBits else 0;
      }
    }

    // The overload for single bytes, which needs no loop.
    method WriteByteBitsInternal(v: nat, size: nat)
      requires Valid() && Fits(v, size) && size <= 8
      modifies this, wrapped
      ensures Valid() && Wire() == old(Wire()) + Bits(v, size)
    {
      hide BitAt, ByteBits, Leftover, Fits, Low, Or, ShiftLeft, ShiftRight, Bits;
      NoBits(v);
      if size > 0 {
        ghost var (handed, held, next) := (ByteBits(wrapped.bytes), Bits(scratch, scratchBits), Bits(v, size));
        CleanIsLeftover(scratch, scratchBits, v);
        ChunkBits(scratch, scratchBits, v, width, 0, size);
        LastChunkFits(scratch, scratchBits, v, width, 0, size);
        scratch := Low(Or(scratch, ShiftLeft(Low(v, width), scratchBits)), width);
        scratchBits := scratchBits + size;
        assert Wire() == handed + (held + next) == (handed + held) + next;
        if scratchBits >= VALUE_SIZE {
          ShiftedFits(scratch, scratchBits);
          EmitByte();
        }
      }
    }

    /** Writes the low bits of a value of an unsigned type of the given size in bytes. */
    method WriteBits(v: nat, typeSize: nat, bitsCount: nat)
      requires Valid() && 0 < bitsCount <= 8 * typeSize && Fits(v, bitsCount)
      modifies this, wrapped
      ensures Valid() && Wire() == old(Wire()) + Bits(v, bitsCount)
    {
      if typeSize == 1 {
        WriteByteBitsInternal(v, bitsCount);
      } else {
        WriteBitsInternal(v, bitsCount);
      }
    }

    /** Writes a whole value: straight to the adapter when no bits are held back. */
    method WriteBytes(v: nat, size: nat)
      requires Valid() && size > 0 && Fits(v, 8 * size)
      modifies this, wrapped
      ensures Valid() && Wire() == old(Wire()) + Bits(v, 8 * size)
    {
      hide BitAt, ByteBits, Fits;
      if scratchBits == 0 {
        LittleEndianBits(v, size);
        ByteBitsConcat(wrapped.bytes, LittleEndian(v, size));
        wrapped.WriteBytes(v, size);
        assert Bits(scratch, 0) == [];
      } else {
        WriteBits(v, size, 8 * size);
      }
    }

    method WriteEachValue(vs: seq<nat>, size: nat)
      requires Valid() && size > 0 && forall v :: v in vs ==> Fits(v, 8 * size)
      modifies this, wrapped
      ensures Valid() && Wire() == old(Wire()) + BufferBits(vs, size)
    {
      hide BitAt, ByteBits, Fits, Bits, Wire, BufferBits;
      ghost var before := Wire();
      EmptyBuffer(vs, size);
      for i := 0 to |vs|
        invariant Valid()
        invariant Wire() == before + BufferBits(vs[..i], size)
      {
        WriteBits(vs[i], size, 8 * size);
        OneMoreValue(vs, i, size);
        assert (before + BufferBits(vs[..i], size)) + Bits(vs[i], 8 * size) ==
               before + (BufferBits(vs[..i], size) + Bits(vs[i], 8 * size));
      }
      assert vs[..|vs|] == vs;
    }

    /** Writes a buffer of values of one size. */
    method WriteBuffer(vs: seq<nat>, size: nat)
      requires Valid() && size > 0 && forall v :: v in vs ==> Fits(v, 8 * size)
      modifies this, wrapped
      ensures Valid() && Wire() == old(Wire()) + BufferBits(vs, size)
    {
      hide BitAt, ByteBits, Fits, Bits;
      if scratchBits == 0 {
        BufferBytesBits(vs, size);
        ByteBitsConcat(wrapped.bytes, BufferBytes(vs, size));
        NoBits(scratch);
        wrapped.WriteBuffer(vs, size);
      } else {
        WriteEachValue(vs, size);
      }
    }

    /** Fills up to the next byte boundary with fewer than eight zero bits. */
    method Align()
      requires Valid()
      modifies this, wrapped
      ensures Valid() && scratchBits == 0
      ensures Wire() == ByteBits(wrapped.bytes) == old(Wire()) + Zeros(PadLength(|old(Wire())|))
    {
      hide BitAt, Fits;
      ghost var n := PadLength(|Wire()|);
      assert |Wire()| == 8 * |wrapped.bytes| + scratchBits;
      assert n == (VALUE_SIZE - scratchBits) % 8;
      ZeroPad(n);
      WriteByteBitsInternal(0, (VALUE_SIZE - scratchBits) % 8);
      assert |Wire()| == 8 * |wrapped.bytes| + scratchBits;
      assert |Wire()| % 8 == 0;
      NoBits(scratch);
    }
  }

  lemma LastValue(vs: seq<nat>, size: nat)
    requires vs != []
    ensures BufferBits(vs, size) == BufferBits(vs[..|vs| - 1], size) + Bits(vs[|vs| - 1], 8 * size)
  {
  }

  // The same buffer taken from the front.
  lemma {:induction false} BufferBitsFront(vs: seq<nat>, size: nat)
    requires vs != []
    ensures BufferBits(vs, size) == Bits(vs[0], 8 * size) + BufferBits(vs[1..], size)
    decreases |vs|
  {
    hide Bits, BufferBits;
    var n := |vs| - 1;
    var init, last := vs[..n], Bits(vs[n], 8 * size);
    LastValue(vs, size);
    if n > 0 {
      BufferBitsFront(init, size);
      LastValue(vs[1..], size);
      assert vs[1..][..n - 1] == init[1..];
      assert (Bits(vs[0], 8 * size) + BufferBits(init[1..], size)) + last ==
             Bits(vs[0], 8 * size) + (BufferBits(init[1..], size) + last);
    } else {
      EmptyBuffer(vs, size);
      assert vs[1..] == vs[..0];
    }
  }
}
