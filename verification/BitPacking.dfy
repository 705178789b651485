// Writing a schedule of fields and reading it back.
module BitPacking {
  import opened Words
  import opened BitWriter
  import opened BitReader

  // One call on the writer.
  datatype Item =
    | Field(typeSize: nat, bits: nat, value: nat)
    | Word(size: nat, value: nat)
    | Buffer(size: nat, values: seq<nat>)
    | Pad

  // What the reader is told: everything but the values.
  datatype Shape =
    | FieldShape(typeSize: nat, bits: nat)
    | WordShape(size: nat)
    | BufferShape(size: nat, count: nat)
    | PadShape

  function ShapeOf(item: Item): Shape {
    match item
    case Field(typeSize, bits, _) => FieldShape(typeSize, bits)
    case Word(size, _) => WordShape(size)
    case Buffer(size, values) => BufferShape(size, |values|)
    case Pad => PadShape
  }

  // What the writer's assertions ask of a call.
  predicate InRange(item: Item) {
    match item
    case Field(typeSize, bits, value) => 0 < bits <= 8 * typeSize && Fits(value, bits)
    case Word(size, value) => size > 0 && Fits(value, 8 * size)
    case Buffer(size, values) => size > 0 && forall v :: v in values ==> Fits(v, 8 * size)
    case Pad => true
  }

  /** Every alignment is in range, and a value is exactly when it is less than the power of two that its bits can hold. */
  lemma InRangeIs(item: Item)
    ensures InRange(item) <==>
            match item
            case Field(typeSize, bits, value) => 1 <= bits <= 8 * typeSize && value < Pow2(bits)
            case Word(size, value) => 1 <= size && value < Pow2(8 * size)
            case Buffer(size, values) => 1 <= size && forall v :: v in values ==> v < Pow2(8 * size)
            case Pad => true
  {
    match item
    case Field(_, bits, value) => WordArithmetic(value, bits);
    case Word(size, value) => WordArithmetic(value, 8 * size);
    case Buffer(size, values) =>
      forall v | v in values ensures Fits(v, 8 * size) <==> v < Pow2(8 * size) {
        WordArithmetic(v, 8 * size);
      }
    case Pad =>
  }

  // The wire format: the bits one call adds when some bits are already there.
  function ItemBits(item: Item, before: nat): seq<bool> {
    match item
    case Field(_, bits, value) => Bits(value, bits)
    case Word(size, value) => Bits(value, 8 * size)
    case Buffer(size, values) => BufferBits(values, size)
    case Pad => Zeros(PadLength(before))
  }

  function Encode(items: seq<Item>, before: nat): seq<bool> {
    if items == [] then []
    else
      var bits := ItemBits(items[0], before);
      bits + Encode(items[1..], before + |bits|)
  }

  lemma EncodeStep(items: seq<Item>, i: nat, before: nat)
    requires i < |items|
    ensures var bits := ItemBits(items[i], before);
            Encode(items[i..], before) == bits + Encode(items[i + 1..], before + |bits|)
  {
    hide ItemBits;
    assert items[i..][1..] == items[i + 1..];
  }

  lemma EncodeEnd(items: seq<Item>, before: nat)
    ensures Encode(items[|items|..], before) == []
  {
  }

  lemma Regroup<T>(a: seq<T>, b: seq<T>, c: seq<T>)
    ensures (a + b) + c == a + (b + c) && a + [] == a && [] + a == a
  {
  }

  method WriteItem(w: BitPackingWriter, item: Item)
    requires w.Valid() && InRange(item)
    modifies w, w.wrapped
    ensures w.Valid() && w.Wire() == old(w.Wire()) + ItemBits(item, |old(w.Wire())|)
  {
    match item
    case Field(typeSize, bits, value) => w.WriteBits(value, typeSize, bits);
    case Word(size, value) => w.WriteBytes(value, size);
    case Buffer(size, values) => w.WriteBuffer(values, size);
    case Pad => w.Align();
  }

  lemma NoBytes()
    ensures ByteBits([]) == []
  {
  }

  /** The bytes on the wire are the concatenation of all fields, least significant bit first, whichever path wrote
      them, padded with fewer than eight zero bits. */
  method Serialize(items: seq<Item>, width: nat) returns (bytes: seq<Byte>)
    requires width >= 16 && forall item :: item in items ==> InRange(item)
    ensures ByteBits(bytes) == Encode(items, 0) + Zeros(PadLength(|Encode(items, 0)|))
    ensures |bytes| == (|Encode(items, 0)| + 7) / 8
  {
    hide InRange, ItemBits, Encode, ByteBits, BitPackingWriter.Wire;
    var adapter := new OutputAdapter();
    var w := new BitPackingWriter(adapter, width);
    NoBytes();
    assert items[0..] == items;
    Regroup([], Encode(items, 0), []);
    for i := 0 to |items|
      invariant w.Valid() && w.wrapped == adapter && fresh(w) && fresh(adapter)
      invariant w.Wire() + Encode(items[i..], |w.Wire()|) == Encode(items, 0)
    {
      ghost var before := w.Wire();
      ghost var added := ItemBits(items[i], |before|);
      EncodeStep(items, i, |before|);
      Regroup(before, added, Encode(items[i + 1..], |before| + |added|));
      WriteItem(w, items[i]);
    }
    EncodeEnd(items, |w.Wire()|);
    Regroup(w.Wire(), [], []);
    w.Align();
    bytes := adapter.bytes;
  }

  /** The format does not depend on the width of the scratch word or on the path taken: the bits fix the bytes. */
  lemma FormatIsUnique(items: seq<Item>, a: seq<Byte>, b: seq<Byte>)
    requires ByteBits(a) == Encode(items, 0) + Zeros(PadLength(|Encode(items, 0)|))
    requires ByteBits(b) == Encode(items, 0) + Zeros(PadLength(|Encode(items, 0)|))
    ensures a == b
  {
    ByteBitsInjective(a, b);
  }

  lemma {:induction false} BufferTaken(values: seq<nat>, size: nat, rest: seq<bool>)
    requires forall v :: v in values ==> Fits(v, 8 * size)
    ensures |BufferBits(values, size)| == BufferLength(|values|, size)
    ensures TakeValues(BufferBits(values, size) + rest, |values|, size) == values
    decreases |values|
  {
    hide Bits, Number, Fits;
    if values != [] {
      var (first, others) := (Bits(values[0], 8 * size), BufferBits(values[1..], size));
      BufferBitsFront(values, size);
      BitsLength(values[0], 8 * size);
      NumberOfBits(values[0], 8 * size);
      BufferTaken(values[1..], size, rest);
      var t := BufferBits(values, size) + rest;
      assert t[..8 * size] == first;
      assert t[8 * size..] == others + rest;
    }
  }

  // Before an item is read: its bits come next, and the reader stands where the writer stood.
  ghost predicate Comes(r: BitPackingReader, bits: seq<bool>, before: nat, rest: seq<bool>)
    reads r, r.wrapped
  {
    r.Valid() && r.wrapped.Error() == 0 && r.Pending() == bits + rest && (r.scratchBits + before) % 8 == 0
  }

  lemma SamePad(scratchBits: nat, before: nat)
    requires scratchBits < 8 && (scratchBits + before) % 8 == 0
    ensures scratchBits == PadLength(before)
  {
  }

  method ReadPad(r: BitPackingReader, ghost before: nat, ghost rest: seq<bool>)
    requires Comes(r, Zeros(PadLength(before)), before, rest)
    modifies r, r.wrapped
    ensures Comes(r, [], before + PadLength(before), rest)
  {
    hide Fits, BitAt, ByteBits, Bits;
    SamePad(r.scratchBits, before);
    ghost var pad := Zeros(PadLength(before));
    assert r.Pending()[..|pad|] == pad && r.Pending()[|pad|..] == rest;
    r.Align();
    assert [] + rest == rest;
  }

  lemma Front<T>(a: seq<T>, b: seq<T>)
    ensures (a + b)[..|a|] == a && (a + b)[|a|..] == b
  {
  }

  // Taking n bits keeps the reader in step with the writer.
  lemma Aligned(scratchBits: nat, after: nat, before: nat, n: nat)
    requires (scratchBits + before) % 8 == 0 && (after + n) % 8 == scratchBits
    ensures (after + (before + n)) % 8 == 0
  {
  }

  method ReadFixed(r: BitPackingReader, whole: bool, n: nat, ghost value: nat, ghost before: nat, ghost rest: seq<bool>)
    returns (v: nat)
    requires Comes(r, Bits(value, n), before, rest) && Fits(value, n)
    requires whole ==> n > 0 && n % 8 == 0
    modifies r, r.wrapped
    ensures v == value && Comes(r, [], before + n, rest)
  {
    hide Fits, BitAt, ByteBits, Bits, Number, BitPackingReader.Pending;
    ghost var bits := Bits(value, n);
    BitsLength(value, n);
    NumberOfBits(value, n);
    Front(bits, rest);
    Regroup(rest, [], []);
    ghost var scratchBits := r.scratchBits;
    if whole {
      v := r.ReadBytes(n / 8);
    } else {
      v := r.ReadBits(n);
    }
    Aligned(scratchBits, r.scratchBits, before, n);
  }

  method ReadValues(r: BitPackingReader, count: nat, size: nat, ghost values: seq<nat>, ghost before: nat, ghost rest: seq<bool>)
    returns (vs: seq<nat>)
    requires Comes(r, BufferBits(values, size), before, rest) && count == |values| && size > 0
    requires forall v :: v in values ==> Fits(v, 8 * size)
    modifies r, r.wrapped
    ensures vs == values && Comes(r, [], before + |BufferBits(values, size)|, rest)
  {
    hide Fits, BitAt, ByteBits, Bits, Number, BitPackingReader.Pending, BufferBits, TakeValues, BufferLength;
    ghost var n := BufferLength(count, size);
    BufferTaken(values, size, rest);
    assert r.Pending()[n..] == rest;
    vs := r.ReadBuffer(count, size);
    assert [] + rest == rest;
  }

  /** Reads one item back: its bits are taken off the front, and only those. */
  method ReadItem(r: BitPackingReader, shape: Shape, ghost item: Item, ghost before: nat, ghost rest: seq<bool>)
    returns (got: Item)
    requires InRange(item) && shape == ShapeOf(item) && Comes(r, ItemBits(item, before), before, rest)
    modifies r, r.wrapped
    ensures got == item && Comes(r, [], before + |ItemBits(item, before)|, rest)
  {
    hide Fits, Comes;
    match shape
    case FieldShape(typeSize, n) =>
      BitsLength(item.value, n);
      var v := ReadFixed(r, false, n, item.value, before, rest);
      got := Field(typeSize, n, v);
    case WordShape(size) =>
      BitsLength(item.value, 8 * size);
      var v := ReadFixed(r, true, 8 * size, item.value, before, rest);
      got := Word(size, v);
    case BufferShape(size, count) =>
      var vs := ReadValues(r, count, size, item.values, before, rest);
      got := Buffer(size, vs);
    case PadShape =>
      ReadPad(r, before, rest);
      got := Pad;
  }

  lemma Started(r: BitPackingReader, bits: seq<bool>, pad: seq<bool>)
    requires r.Valid() && r.wrapped.Error() == 0 && r.scratchBits == 0 && r.Pending() == bits + pad
    ensures Comes(r, bits, 0, pad)
  {
  }

  // What is still to come may be split in two ways.
  lemma Regrouped(r: BitPackingReader, bits: seq<bool>, rest: seq<bool>, before: nat, pad: seq<bool>)
    ensures Comes(r, bits + rest, before, pad) <==> Comes(r, bits, before, rest + pad)
  {
    hide BitPackingReader.Pending, BitPackingReader.Valid;
    Regroup(bits, rest, pad);
  }

  lemma Finished(r: BitPackingReader, before: nat)
    requires Comes(r, [], before, [])
    ensures r.wrapped.Error() == 0 && r.wrapped.IsCompletedSuccessfully()
  {
    r.PendingLength();
  }

  /** Reads a schedule back from the bytes that were written for it. */
  method Deserialize(bytes: seq<Byte>, shapes: seq<Shape>, width: nat, ghost items: seq<Item>)
    returns (got: seq<Item>, error: nat, completed: bool)
    requires width >= 16 && forall item :: item in items ==> InRange(item)
    requires |shapes| == |items| && forall i :: 0 <= i < |items| ==> shapes[i] == ShapeOf(items[i])
    requires ByteBits(bytes) == Encode(items, 0) + Zeros(PadLength(|Encode(items, 0)|))
    ensures got == items && error == 0 && completed
  {
    hide InRange, ItemBits, ShapeOf, ByteBits, Encode, Zeros, Comes;
    var adapter := new InputAdapter(bytes);
    var r := new BitPackingReader(adapter, width);
    got := [];
    ghost var before: nat := 0;
    ghost var pad := Zeros(PadLength(|Encode(items, 0)|));
    assert items[0..] == items;
    Started(r, Encode(items, 0), pad);
    for i := 0 to |shapes|
      invariant r.wrapped == adapter && fresh(r) && fresh(adapter)
      invariant got == items[..i]
      invariant before + |Encode(items[i..], before)| == |Encode(items, 0)|
      invariant Comes(r, Encode(items[i..], before), before, pad)
    {
      ghost var bits := ItemBits(items[i], before);
      ghost var rest := Encode(items[i + 1..], before + |bits|);
      EncodeStep(items, i, before);
      Regrouped(r, bits, rest, before, pad);
      var item := ReadItem(r, shapes[i], items[i], before, rest + pad);
      Regrouped(r, [], rest, before + |bits|, pad);
      Regroup(rest, [], []);
      got := got + [item];
      before := before + |bits|;
    }
    EncodeEnd(items, before);
    Regroup(pad, [], []);
    Regrouped(r, [], pad, before, []);
    Regrouped(r, pad, [], before, []);
    ReadPad(r, before, []);
    Finished(r, before + PadLength(before));
    error := adapter.Error();
    completed := adapter.IsCompletedSuccessfully();
  }

  /** Any schedule of calls with values in range, written and read back by the same schedule, gives the same values
      with no error, whatever the scratch widths of the two sides, and consumes the whole output. */
  method RoundTrip(items: seq<Item>, writerWidth: nat, readerWidth: nat)
    returns (got: seq<Item>, error: nat, completed: bool)
    requires writerWidth >= 16 && readerWidth >= 16 && forall item :: item in items ==> InRange(item)
    ensures got == items && error == 0 && completed
  {
    hide InRange, Encode, ByteBits;
    var bytes := Serialize(items, writerWidth);
    var shapes := seq(|items|, i requires 0 <= i < |items| => ShapeOf(items[i]));
    got, error, completed := Deserialize(bytes, shapes, readerWidth, items);
  }
}
