// The bit-packing reader over a read-only byte buffer.
module BitReader {
  import opened Words

  datatype ReaderError = NoError | ReadingError | DataOverflow | InvalidData | InvalidPointer

  function Code(e: ReaderError): nat {
    match e
    case NoError => 0
    case ReadingError => 1
    case DataOverflow => 2
    case InvalidData => 3
    case InvalidPointer => 4
  }

  // The codes tell the errors apart, and zero is none.
  lemma CodesDiffer(e: ReaderError, f: ReaderError)
    ensures Code(e) == Code(f) <==> e == f
    ensures Code(e) == 0 <==> e == NoError
  {
  }

  // The wrapped adapter. An error is kept in the offsets: both ends become zero and the position becomes its code.
  class InputAdapter {
    const data: seq<Byte>
    var currOffset: nat
    var endReadOffset: nat
    var bufferSize: nat

    constructor (bytes: seq<Byte>)
      ensures Valid() && data == bytes && Left() == bytes && Error() == 0 && currOffset == 0
    {
      data := bytes;
      currOffset, endReadOffset, bufferSize := 0, |bytes|, |bytes|;
    }

    ghost predicate Valid()
      reads this
    {
      endReadOffset == bufferSize <= |data|
    }

    // The code of the current error, zero when there is none.
    function Error(): nat
      reads this
    {
      if currOffset <= endReadOffset then 0 else currOffset - endReadOffset
    }

    // The bytes that can still be read.
    ghost function Left(): seq<Byte>
      requires Valid()
      reads this
    {
      if currOffset <= endReadOffset then data[currOffset..endReadOffset] else []
    }

    // Every byte was read, and no error was raised.
    function IsCompletedSuccessfully(): (ok: bool)
      reads this
      ensures Valid() ==> (ok <==> Error() == 0 && Left() == [])
    {
      currOffset == bufferSize
    }

    // The first error stays.
    method SetError(e: ReaderError)
      requires Valid()
      modifies this
      ensures Valid()
      ensures old(Error()) != 0 ==> unchanged(this)
      ensures old(Error()) == 0 ==> Error() == Code(e) && endReadOffset == 0
    {
      if currOffset <= endReadOffset {
        endReadOffset, bufferSize := 0, 0;
        currOffset := Code(e);
      }
    }

    /** Takes the next bytes, or zeros and an error when there are too few. */
    method ReadChunk(size: nat) returns (chunk: seq<Byte>)
      requires Valid()
      modifies this
      ensures Valid() && |chunk| == size
      ensures old(Error()) == 0 && size <= |old(Left())| ==>
                Error() == 0 && chunk == old(Left())[..size] && Left() == old(Left())[size..]
      ensures old(Error()) == 0 && size > |old(Left())| ==> Error() == Code(DataOverflow)
      ensures old(Error()) != 0 ==> Error() == old(Error())
      ensures old(Error()) != 0 || size > |old(Left())| ==> Left() == [] && forall i :: 0 <= i < size ==> chunk[i] == 0
    {
      var newOffset := currOffset + size;
      if newOffset <= endReadOffset {
        chunk := data[currOffset..newOffset];
        currOffset := newOffset;
      } else {
        chunk := seq(size, _ => 0);
        SetError(DataOverflow);
      }
    }
  }

  // ---------- one turn of the reading loop ----------

  // The scratch word with the next byte above its counted bits.
  lemma RefillBits(scratch: nat, scratchBits: nat, byte: Byte, width: nat)
    requires scratchBits < 8 && 16 <= width && Fits(scratch, scratchBits)
    ensures var s := Low(Or(scratch, ShiftLeft(byte, scratchBits)), width);
            Bits(s, scratchBits + 8) == Bits(scratch, scratchBits) + Bits(byte, 8) && Fits(s, scratchBits + 8)
  {
    hide BitAt, Low, Or, ShiftLeft, ShiftRight, Fits;
    var s := Low(Or(scratch, ShiftLeft(byte, scratchBits)), width);
    LowBits(Or(scratch, ShiftLeft(byte, scratchBits)), width);
    OrBits(scratch, ShiftLeft(byte, scratchBits));
    ShiftLeftBits(byte, scratchBits);
    FittingBits(scratch, scratchBits);
    ByteFits(byte);
    FittingBits(byte, 8);
    FitsByBits(s, scratchBits + 8);
  }

  lemma LowFits(v: nat, n: nat)
    ensures Fits(Low(v, n), n)
  {
    LowBits(v, n);
    FitsByBits(Low(v, n), n);
  }

  lemma TakeBits(scratch: nat, n: nat, bits: nat)
    requires bits <= n && Fits(scratch, n)
    ensures Bits(scratch, n) == Bits(Low(scratch, bits), bits) + Bits(ShiftRight(scratch, bits), n - bits)
    ensures Fits(ShiftRight(scratch, bits), n - bits) && Fits(Low(scratch, bits), bits)
  {
    hide BitAt;
    BitsSplit(scratch, bits, n - bits);
    BitsOfLow(scratch, bits);
    ShiftRightTwice(scratch, bits, n - bits);
    LowFits(scratch, bits);
  }

  lemma GatherBits(res: nat, done: nat, chunk: nat, bits: nat)
    requires Fits(res, done) && Fits(chunk, bits)
    ensures var r := Or(res, ShiftLeft(chunk, done));
            Bits(r, done + bits) == Bits(res, done) + Bits(chunk, bits) && Fits(r, done + bits)
  {
    hide BitAt, Or, ShiftLeft, ShiftRight, Fits;
    var r := Or(res, ShiftLeft(chunk, done));
    OrBits(res, ShiftLeft(chunk, done));
    ShiftLeftBits(chunk, done);
    FittingBits(res, done);
    FittingBits(chunk, bits);
    FitsByBits(r, done + bits);
  }

  // Taking bits off the scratch word takes them off all that is to come.
  lemma TakeFront(scratch: nat, n: nat, bits: nat, rest: seq<bool>)
    requires bits <= n && Fits(scratch, n)
    ensures Bits(scratch, n) + rest == Bits(Low(scratch, bits), bits) + (Bits(ShiftRight(scratch, bits), n - bits) + rest)
    ensures Fits(ShiftRight(scratch, bits), n - bits) && Fits(Low(scratch, bits), bits)
  {
    hide BitAt, Fits, Low, ShiftRight, Bits;
    TakeBits(scratch, n, bits);
  }

  // The same bits, and after them nothing but zeros.
  predicate ZeroExtends(bits: seq<bool>, more: seq<bool>) {
    bits <= more && forall i :: |bits| <= i < |more| ==> !more[i]
  }

  // A zero byte put above the counted bits when nothing is left.
  lemma ZeroRefill(scratch: nat, scratchBits: nat, after: seq<bool>)
    requires after == Bits(scratch, scratchBits) + Bits(0, 8)
    ensures ZeroExtends(Bits(scratch, scratchBits) + ByteBits([]), after + ByteBits([]))
  {
    hide BitAt;
    forall i | 0 <= i < 8 ensures !Bits(0, 8)[i] {
      ZeroBits(i);
    }
  }

  lemma ExtendsTwice(pending: seq<bool>, front: seq<bool>, before: seq<bool>, after: seq<bool>)
    requires ZeroExtends(pending, front + before) && ZeroExtends(before, after)
    ensures ZeroExtends(pending, front + after)
  {
    assert front + before <= front + after;
    forall i | |pending| <= i < |front + after| ensures !(front + after)[i] {
      if i < |front + before| {
        assert (front + after)[i] == (front + before)[i];
      } else {
        assert (front + after)[i] == after[i - |front|];
      }
    }
  }

  lemma GatherZeros(pending: seq<bool>, res: nat, done: nat, before: seq<bool>, chunk: nat, bits: nat, after: seq<bool>)
    requires Fits(res, done) && Fits(chunk, bits)
    requires ZeroExtends(pending, Bits(res, done) + before) && ZeroExtends(before, Bits(chunk, bits) + after)
    ensures var r := Or(res, ShiftLeft(chunk, done));
            ZeroExtends(pending, Bits(r, done + bits) + after) && Fits(r, done + bits)
  {
    hide BitAt, Or, ShiftLeft, Fits, Bits;
    GatherBits(res, done, chunk, bits);
    ExtendsTwice(pending, Bits(res, done), before, Bits(chunk, bits) + after);
    assert Bits(res, done) + (Bits(chunk, bits) + after) == (Bits(res, done) + Bits(chunk, bits)) + after;
  }

  function Shorter(a: nat, b: nat): nat {
    if a < b then a else b
  }

  lemma {:induction false} NumberIsZero(bits: seq<bool>)
    ensures Number(bits) == 0 <==> true !in bits
  {
    if bits != [] {
      NumberIsZero(bits[1..]);
      assert bits == [bits[0]] + bits[1..];
    }
  }

  lemma BitsLength(v: nat, n: nat)
    ensures |Bits(v, n)| == n
  {
  }

  // What was read is the number of the bits there were; missing ones count as zeros.
  lemma NumberRead(pending: seq<bool>, res: nat, size: nat, after: seq<bool>)
    requires Fits(res, size) && ZeroExtends(pending, Bits(res, size) + after)
    ensures res == Number(pending[..Shorter(size, |pending|)])
  {
    hide BitAt, Fits, Number;
    NumberOfBits(res, size);
    BitsLength(res, size);
    var k := Shorter(size, |pending|);
    var bits := Bits(res, size);
    assert bits == pending[..k] + bits[k..] by {
      assert (bits + after)[..k] == pending[..k];
    }
    assert true !in bits[k..] by {
      assert forall i :: k <= i < size ==> bits[i] == (bits + after)[i];
    }
    NumberOfFields(pending[..k], bits[k..]);
    NumberIsZero(bits[k..]);
  }

  lemma SameRest(now: nat, later: nat, bits: nat, done: nat)
    requires now < 8 && (later + bits) % 8 == now
    ensures (later + (done + bits)) % 8 == (now + done) % 8
  {
  }

  // One turn: what was to come before it is the bits gathered after it and what is still to come.
  lemma GatherChunk(pending: seq<bool>, res: nat, done: nat, before: seq<bool>, chunk: nat, bits: nat, after: seq<bool>)
    requires Fits(res, done) && Fits(chunk, bits)
    requires pending == Bits(res, done) + before && before == Bits(chunk, bits) + after
    ensures var r := Or(res, ShiftLeft(chunk, done));
            pending == Bits(r, done + bits) + after && Fits(r, done + bits)
  {
    hide BitAt, Or, ShiftLeft, Fits, Bits;
    GatherBits(res, done, chunk, bits);
    assert Bits(res, done) + (Bits(chunk, bits) + after) == (Bits(res, done) + Bits(chunk, bits)) + after;
  }

  // The number that was read, once all its bits have been gathered.
  lemma AllGathered(pending: seq<bool>, res: nat, size: nat, after: seq<bool>)
    requires Fits(res, size) && pending == Bits(res, size) + after
    ensures size <= |pending| && after == pending[size..] && res == Number(pending[..size])
  {
    hide BitAt, Fits, Number;
    NumberOfBits(res, size);
  }

  function FromLittleEndian(bytes: seq<Byte>): nat {
    Number(ByteBits(bytes))
  }

  lemma FirstByte(bytes: seq<Byte>)
    requires bytes != []
    ensures ByteBits(bytes) == Bits(bytes[..1][0], 8) + ByteBits(bytes[1..])
  {
    assert bytes == bytes[..1] + bytes[1..];
    ByteBitsConcat(bytes[..1], bytes[1..]);
    SingleByteBits(bytes[0]);
    assert bytes[..1] == [bytes[0]];
  }

  lemma {:induction false} ZeroBytes(bytes: seq<Byte>)
    ensures (forall i :: 0 <= i < |bytes| ==> bytes[i] == 0) ==> FromLittleEndian(bytes) == 0
    decreases |bytes|
  {
    if bytes != [] && forall i :: 0 <= i < |bytes| ==> bytes[i] == 0 {
      FirstByte(bytes);
      ZeroBytes(bytes[1..]);
      NumberOfFields(Bits(0, 8), ByteBits(bytes[1..]));
      NumberOfBits(0, 8);
    }
  }

  // The values of a buffer, taken one after the other from a bit string.
  function TakeValues(bits: seq<bool>, count: nat, size: nat): seq<nat> {
    if count == 0 || |bits| < 8 * size then []
    else [Number(bits[..8 * size])] + TakeValues(bits[8 * size..], count - 1, size)
  }

  // Bits of a buffer of the given number of values.
  function BufferLength(count: nat, size: nat): nat {
    if count == 0 then 0 else 8 * size + BufferLength(count - 1, size)
  }

  lemma {:induction false} BufferLengthIs(count: nat, size: nat)
    ensures BufferLength(count, size) == 8 * (size * count)
  {
    if count > 0 {
      BufferLengthIs(count - 1, size);
      assert size * count == size * (count - 1) + size;
    }
  }

  lemma {:induction false} TakeValuesLength(bits: seq<bool>, count: nat, size: nat)
    requires BufferLength(count, size) <= |bits|
    ensures |TakeValues(bits, count, size)| == count
    decreases count
  {
    if count > 0 {
      TakeValuesLength(bits[8 * size..], count - 1, size);
    }
  }

  lemma {:induction false} TakeValuesPrefix(bits: seq<bool>, count: nat, size: nat)
    requires BufferLength(count, size) <= |bits|
    ensures TakeValues(bits[..BufferLength(count, size)], count, size) == TakeValues(bits, count, size)
    decreases count
  {
    if count > 0 {
      var n, w := BufferLength(count, size), 8 * size;
      assert bits[..n][..w] == bits[..w];
      assert bits[..n][w..] == bits[w..][..n - w];
      TakeValuesPrefix(bits[w..], count - 1, size);
    }
  }

  lemma {:induction false} TakeOneMore(bits: seq<bool>, count: nat, size: nat)
    requires BufferLength(count + 1, size) <= |bits|
    ensures BufferLength(count, size) + 8 * size == BufferLength(count + 1, size)
    ensures TakeValues(bits, count + 1, size) ==
            TakeValues(bits, count, size) + [Number(bits[BufferLength(count, size)..][..8 * size])]
    decreases count
  {
    hide Number;
    var w := 8 * size;
    if count > 0 {
      TakeOneMore(bits[w..], count - 1, size);
      assert bits[w..][BufferLength(count - 1, size)..] == bits[BufferLength(count, size)..];
    }
  }

  // ---------- the reader ----------

  lemma NoValues(bits: seq<bool>, size: nat)
    ensures BufferLength(0, size) == 0 && TakeValues(bits, 0, size) == [] && bits[0..] == bits
  {
  }

  lemma {:induction false} WholeBytes(count: nat, size: nat)
    ensures BufferLength(count, size) % 8 == 0
  {
    if count > 0 {
      WholeBytes(count - 1, size);
    }
  }

  lemma LongerBuffer(i: nat, count: nat, size: nat)
    requires i < count
    ensures BufferLength(i + 1, size) == BufferLength(i, size) + 8 * size
    ensures BufferLength(i + 1, size) <= BufferLength(count, size)
    decreases count - i
  {
    if i + 1 < count {
      LongerBuffer(i, count - 1, size);
    }
  }

  lemma SplitBytes(bytes: seq<Byte>, n: nat)
    requires n <= |bytes|
    ensures ByteBits(bytes[..n]) == ByteBits(bytes)[..8 * n] && ByteBits(bytes[n..]) == ByteBits(bytes)[8 * n..]
  {
    assert bytes == bytes[..n] + bytes[n..];
    ByteBitsConcat(bytes[..n], bytes[n..]);
  }

  class BitPackingReader {
    const wrapped: InputAdapter
    const width: nat
    var scratch: nat
    var scratchBits: nat

    constructor (adapter: InputAdapter, scratchWidth: nat)
      requires scratchWidth >= 16 && adapter.Valid()
      ensures Valid() && wrapped == adapter && scratchBits == 0
      ensures Pending() == ByteBits(adapter.Left())
    {
      wrapped := adapter;
      width := scratchWidth;
      scratch, scratchBits := 0, 0;
    }

    ghost predicate Valid()
      reads this, wrapped
    {
      width >= 16 && scratchBits < 8 && Fits(scratch, scratchBits) && wrapped.Valid()
    }

    // Every bit that is still to come.
    ghost function Pending(): seq<bool>
      requires Valid()
      reads this, wrapped
    {
      Bits(scratch, scratchBits) + ByteBits(wrapped.Left())
    }

    lemma PendingLength()
      requires Valid()
      ensures |Pending()| == scratchBits + 8 * |wrapped.Left()|
    {
    }

    // Reading n bits took them off the front of what was pending, or there were too few; an old error stays.
    twostate predicate Took(n: nat)
      requires old(Valid()) && Valid()
      reads this, wrapped
    {
      && (old(wrapped.Error()) == 0 && n <= |old(Pending())| ==> wrapped.Error() == 0 && Pending() == old(Pending())[n..])
      && (old(wrapped.Error()) == 0 && n > |old(Pending())| ==> wrapped.Error() == Code(DataOverflow))
      && (old(wrapped.Error()) != 0 ==> wrapped.Error() == old(wrapped.Error()))
      && (scratchBits + n) % 8 == old(scratchBits)
    }

    method Refill()
      requires Valid()
      modifies this, wrapped
      ensures wrapped.Valid() && scratchBits == old(scratchBits) + 8 && Fits(scratch, scratchBits)
      ensures old(wrapped.Error()) == 0 && old(wrapped.Left()) != [] ==>
                wrapped.Error() == 0 && Bits(scratch, scratchBits) + ByteBits(wrapped.Left()) == old(Pending())
      ensures old(wrapped.Error()) == 0 && old(wrapped.Left()) == [] ==> wrapped.Error() == Code(DataOverflow)
      ensures old(wrapped.Error()) != 0 ==> wrapped.Error() == old(wrapped.Error())
      ensures ZeroExtends(old(Pending()), Bits(scratch, scratchBits) + ByteBits(wrapped.Left()))
    {
      hide BitAt, Fits, Low, Or, ShiftLeft, ByteBits, Bits;
      ghost var left := wrapped.Left();
      var chunk := wrapped.ReadChunk(1);
      var tmp := chunk[0];
      RefillBits(scratch, scratchBits, tmp, width);
      if left != [] {
        FirstByte(left);
      } else {
        ZeroRefill(scratch, scratchBits, Bits(scratch, scratchBits) + Bits(0, 8));
      }
      scratch := Low(Or(scratch, ShiftLeft(tmp, scratchBits)), width);
      scratchBits := scratchBits + VALUE_SIZE;
    }

    // One turn of the reading loop: the next bits, at most a byte of them.
    method NextChunk(bits: nat) returns (chunk: nat)
      requires Valid() && bits <= VALUE_SIZE
      modifies this, wrapped
      ensures Valid() && Fits(chunk, bits) && (scratchBits + bits) % 8 == old(scratchBits)
      ensures old(wrapped.Error()) != 0 ==> wrapped.Error() == old(wrapped.Error())
      ensures old(wrapped.Error()) == 0 && bits <= |old(Pending())| ==>
                wrapped.Error() == 0 && old(Pending()) == Bits(chunk, bits) + Pending()
      ensures old(wrapped.Error()) == 0 && bits > |old(Pending())| ==> wrapped.Error() == Code(DataOverflow)
      ensures ZeroExtends(old(Pending()), Bits(chunk, bits) + Pending())
    {
      hide BitAt, Fits, Low, Or, ShiftLeft, ShiftRight, ByteBits, Bits;
      PendingLength();
      if scratchBits < bits {
        Refill();
      }
      chunk := Low(scratch, bits);
      TakeFront(scratch, scratchBits, bits, ByteBits(wrapped.Left()));
      scratch := ShiftRight(scratch, bits);
      scratchBits := scratchBits - bits;
    }

    // The first bits of the pending ones have been gathered, or there are too few for all of them; an old error stays.
    ghost predicate Gathering(pending: seq<bool>, error: nat, start: nat, res: nat, done: nat, size: nat)
      reads this, wrapped
    {
      && Valid() && Fits(res, done) && done <= size && (scratchBits + done) % 8 == start
      && (error != 0 ==> wrapped.Error() == error)
      && (error == 0 && wrapped.Error() != 0 ==> wrapped.Error() == Code(DataOverflow) && size > |pending|)
      && (wrapped.Error() == 0 ==> pending == Bits(res, done) + Pending())
      && ZeroExtends(pending, Bits(res, done) + Pending())
    }

    // One turn of the loop keeps that.
    method TakeChunk(bits: nat, ghost pending: seq<bool>, ghost error: nat, ghost start: nat, ghost res: nat,
                     ghost done: nat, ghost size: nat)
      returns (chunk: nat)
      requires Gathering(pending, error, start, res, done, size) && bits <= VALUE_SIZE && done + bits <= size
      modifies this, wrapped
      ensures Gathering(pending, error, start, Or(res, ShiftLeft(chunk, done)), done + bits, size)
    {
      hide BitAt, Or, ShiftLeft, Fits, Bits, Pending;
      ghost var before := Pending();
      BitsLength(res, done);
      ghost var now := scratchBits;
      chunk := NextChunk(bits);
      SameRest(now, scratchBits, bits, done);
      GatherZeros(pending, res, done, before, chunk, bits, Pending());
      if wrapped.Error() == 0 {
        GatherChunk(pending, res, done, before, chunk, bits, Pending());
      }
    }

    lemma NothingGathered(size: nat)
      requires Valid()
      ensures Gathering(Pending(), wrapped.Error(), scratchBits, 0, 0, size)
    {
      hide BitAt, Fits, Bits, Pending;
      NoBits(0);
    }

    lemma GatheredAll(pending: seq<bool>, error: nat, start: nat, res: nat, size: nat)
      requires Gathering(pending, error, start, res, size, size)
      ensures Valid() && (scratchBits + size) % 8 == start
      ensures error == 0 && size <= |pending| ==>
                wrapped.Error() == 0 && Pending() == pending[size..] && res == Number(pending[..size])
      ensures error == 0 && size > |pending| ==> wrapped.Error() == Code(DataOverflow)
      ensures error != 0 ==> wrapped.Error() == error
      ensures res == Number(pending[..Shorter(size, |pending|)])
    {
      hide BitAt, Fits, Bits, Number, Pending;
      NumberRead(pending, res, size, Pending());
      if wrapped.Error() == 0 {
        AllGathered(pending, res, size, Pending());
      }
    }

    method ReadBitsInternal(size: nat) returns (v: nat)
      requires Valid()
      modifies this, wrapped
      ensures Valid() && Took(size)
      ensures old(wrapped.Error()) == 0 && size <= |old(Pending())| ==> v == Number(old(Pending())[..size])
      ensures v == Number(old(Pending())[..Shorter(size, |old(Pending())|)])
    {
      hide BitAt, Or, ShiftLeft, Fits, Bits, Number, Pending, Gathering;
      ghost var pending, error, start := Pending(), wrapped.Error(), scratchBits;
      var res: nat := 0;
      var bitsLeft: nat := size;
      NothingGathered(size);
      while bitsLeft > 0
        invariant bitsLeft <= size && Gathering(pending, error, start, res, size - bitsLeft, size)
      {
        var bits := if bitsLeft < VALUE_SIZE then bitsLeft else VALUE_SIZE;
        var chunk := TakeChunk(bits, pending, error, start, res, size - bitsLeft, size);
        res := Or(res, ShiftLeft(chunk, size - bitsLeft));
        bitsLeft := bitsLeft - bits;
      }
      v := res;
      GatheredAll(pending, error, start, res, size);
    }

    /** Reads a value of the given number of bits. */
    method ReadBits(bitsCount: nat) returns (v: nat)
      requires Valid()
      modifies this, wrapped
      ensures Valid() && Took(bitsCount)
      ensures old(wrapped.Error()) == 0 && bitsCount <= |old(Pending())| ==> v == Number(old(Pending())[..bitsCount])
      ensures v == Number(old(Pending())[..Shorter(bitsCount, |old(Pending())|)])
    {
      v := ReadBitsInternal(bitsCount);
    }

    /** Reads a whole value: straight from the adapter when no bits are held back. */
    method ReadBytes(size: nat) returns (v: nat)
      requires Valid() && size > 0
      modifies this, wrapped
      ensures Valid() && Took(8 * size)
      ensures old(wrapped.Error()) == 0 && 8 * size <= |old(Pending())| ==> v == Number(old(Pending())[..8 * size])
      ensures old(scratchBits) != 0 ==> v == Number(old(Pending())[..Shorter(8 * size, |old(Pending())|)])
      ensures old(scratchBits) == 0 && (old(wrapped.Error()) != 0 || 8 * size > |old(Pending())|) ==> v == 0
    {
      if scratchBits == 0 {
        hide BitAt, Fits, Number, ByteBits;
        ghost var left := wrapped.Left();
        PendingLength();
        NoBits(scratch);
        assert Pending() == ByteBits(left);
        if size <= |left| {
          SplitBytes(left, size);
        }
        var chunk := wrapped.ReadChunk(size);
        v := FromLittleEndian(chunk);
        ZeroBytes(chunk);
        NoBits(scratch);
        assert Pending() == ByteBits(wrapped.Left());
      } else {
        v := ReadBits(8 * size);
      }
    }

    // So far the first n bits of the pending ones were taken, or there were too few for all of them.
    ghost predicate Reading(pending: seq<bool>, error: nat, n: nat, all: nat)
      reads this, wrapped
    {
      && Valid()
      && (error != 0 ==> wrapped.Error() == error)
      && (error == 0 && wrapped.Error() != 0 ==> wrapped.Error() == Code(DataOverflow) && all > |pending|)
      && (wrapped.Error() == 0 ==> n <= |pending| && Pending() == pending[n..])
    }

    method ReadOneValue(bits: nat, ghost pending: seq<bool>, ghost error: nat, ghost n: nat, ghost all: nat) returns (v: nat)
      requires Reading(pending, error, n, all) && bits % 8 == 0 && n + bits <= all
      modifies this, wrapped
      ensures Reading(pending, error, n + bits, all) && scratchBits == old(scratchBits)
      ensures old(wrapped.Error()) != 0 ==> wrapped.Error() != 0
      ensures wrapped.Error() == 0 ==> n + bits <= |pending| && v == Number(pending[n..][..bits])
    {
      hide BitAt, Fits, Number, ByteBits, Pending, Shorter;
      ghost var before := Pending();
      v := ReadBits(bits);
      if wrapped.Error() == 0 {
        assert before[bits..] == pending[n + bits..];
      }
    }

    method ReadEachValue(count: nat, size: nat) returns (vs: seq<nat>)
      requires Valid()
      modifies this, wrapped
      ensures |vs| == count
      ensures Valid() && Took(BufferLength(count, size))
      ensures old(wrapped.Error()) == 0 && BufferLength(count, size) <= |old(Pending())| ==>
                vs == TakeValues(old(Pending()), count, size)
    {
      hide BitAt, Fits, Number, ByteBits, Pending, BufferLength, TakeValues, Shorter;
      ghost var pending, error, all := Pending(), wrapped.Error(), BufferLength(count, size);
      WholeBytes(count, size);
      NoValues(pending, size);
      vs := [];
      for i := 0 to count
        invariant |vs| == i
        invariant Reading(pending, error, BufferLength(i, size), all) && scratchBits == old(scratchBits)
        invariant wrapped.Error() == 0 ==> vs == TakeValues(pending, i, size)
      {
        LongerBuffer(i, count, size);
        var v := ReadOneValue(8 * size, pending, error, BufferLength(i, size), all);
        if wrapped.Error() == 0 {
          TakeOneMore(pending, i, size);
        }
        vs := vs + [v];
      }
    }

    lemma OnlyBytes()
      requires Valid() && scratchBits == 0
      ensures Pending() == ByteBits(wrapped.Left())
    {
    }

    method ReadWholeBuffer(count: nat, size: nat) returns (vs: seq<nat>)
      requires Valid() && size > 0 && scratchBits == 0
      modifies this, wrapped
      ensures |vs| == count
      ensures Valid() && Took(BufferLength(count, size))
      ensures old(wrapped.Error()) == 0 && BufferLength(count, size) <= |old(Pending())| ==>
                vs == TakeValues(old(Pending()), count, size)
    {
      hide BitAt, Fits, Number, ByteBits, TakeValues, BufferLength;
      ghost var left, n := wrapped.Left(), size * count;
      OnlyBytes();
      BufferLengthIs(count, size);
      if n <= |left| {
        SplitBytes(left, n);
        TakeValuesPrefix(ByteBits(left), count, size);
      }
      var chunk := wrapped.ReadChunk(size * count);
      TakeValuesLength(ByteBits(chunk), count, size);
      vs := TakeValues(ByteBits(chunk), count, size);
      OnlyBytes();
    }

    /** Reads a buffer of values of one size. */
    method ReadBuffer(count: nat, size: nat) returns (vs: seq<nat>)
      requires Valid() && size > 0
      modifies this, wrapped
      ensures |vs| == count
      ensures Valid() && Took(BufferLength(count, size))
      ensures old(wrapped.Error()) == 0 && BufferLength(count, size) <= |old(Pending())| ==>
                vs == TakeValues(old(Pending()), count, size)
    {
      if scratchBits == 0 {
        vs := ReadWholeBuffer(count, size);
      } else {
        vs := ReadEachValue(count, size);
      }
    }

    /** Drops the bits before the next byte boundary; it is an error when one of them is set. */
    method Align()
      requires Valid()
      modifies this, wrapped
      ensures Valid() && scratchBits == 0
      ensures old(wrapped.Error()) != 0 ==> wrapped.Error() == old(wrapped.Error())
      ensures old(wrapped.Error()) == 0 ==>
                var skipped := old(Pending())[..old(scratchBits)];
                if true in skipped then wrapped.Error() == Code(InvalidData)
                else wrapped.Error() == 0 && Pending() == old(Pending())[old(scratchBits)..]
    {
      hide BitAt, Fits, Number, ByteBits;
      PendingLength();
      if scratchBits != 0 {
        ghost var skipped := Pending()[..scratchBits];
        var tmp := ReadBitsInternal(scratchBits);
        NumberIsZero(skipped);
        if tmp != 0 {
          wrapped.SetError(InvalidData);
        }
      }
    }
  }
}
