// The encoder as it runs: pb_encode and everything below it, writing to an output stream.
module Encoder {
  import opened Bits
  import opened Varints
  import opened Fields
  import opened Scalars
  import opened Encoding
  import opened FieldIterators
  import opened OutputStreams

  // ---- messages below 2^64 bytes ----

  /** Lengths of nested messages, as far as they are sent, stay below 2^64. */
  predicate ValueSized(f: Field, v: Value)
    requires ValueFits(f, v)
    decreases f, 0
  {
    f.ltype.Submessage? ==> Sized(f.ltype.fields, v.slots)
  }

  predicate RowSized(f: Field, s: Slot)
    requires SlotFits(f, s)
    decreases f, 1
  {
    if f.htype.Repeated? then forall k | 0 <= k < |s.items| :: k < Count(f, s) ==> ValueSized(f, s.items[k])
    else IsPresent(f, s) ==> ValueSized(f, s.items[0])
  }

  predicate Sized(fields: seq<Field>, slots: seq<Slot>)
    requires Fits(fields, slots)
    decreases fields
  {
    && (Encode(fields, slots).Some? ==> |Encode(fields, slots).value| < TWO_64)
    && forall i | 0 <= i < |fields| :: RowSized(fields[i], SlotAt(fields, slots, i))
  }

  /** One turn of a loop that writes the parts of a whole in order. */
  lemma Step(a: Snapshot, b: Snapshot, c: Snapshot, whole: Option<seq<byte>>,
             done: seq<byte>, ok: bool, element: Option<seq<byte>>, rest: Option<seq<byte>>)
    requires Emitted(a, b, true, Some(done)) && Emitted(b, c, ok, element)
    requires whole == Join(Some(done), Join(element, rest))
    ensures c.Sane()
    ensures !ok ==> Emitted(a, c, false, whole)
    ensures ok ==> element.Some? && Emitted(a, c, true, Some(done + element.value))
    ensures ok ==> whole == Join(Some(done + element.value), rest)
  {
    Then(a, b, c, done, ok, element);
    if ok {
      if rest.Some? {
        assert done + (element.value + rest.value) == done + element.value + rest.value;
      }
    } else {
      Stopped(a, c, Join(Some(done), element), rest);
      if element.Some? && rest.Some? {
        assert done + (element.value + rest.value) == done + element.value + rest.value;
      }
    }
  }

  lemma JoinNothing(x: Option<seq<byte>>)
    ensures Join(Some([]), x) == x
  {
    if x.Some? {
      assert [] + x.value == x.value;
    }
  }

  // ---- the proto3 zero check ----

  /** The storage of an integer is zero exactly when the integer is. */
  lemma StoredBytes(dataSize: nat, n: int)
    requires IntSize(dataSize) && (FitsSigned(dataSize, n) || FitsUnsigned(dataSize, n))
    ensures 0 <= n % Range(dataSize) < Pow2(8 * dataSize)
    ensures n % Range(dataSize) == 0 <==> n == 0
  {
    RangeIsPow2(dataSize);
    ShortMod(n, Range(dataSize));
  }

  lemma NextByte(p: nat, m: nat)
    requires m > 0 && p < Pow2(8 * m)
    ensures p / 256 < Pow2(8 * (m - 1))
  {
    assert Pow2(8) == 0x100;
    hide Pow2;
    Pow2Sum(8, 8 * (m - 1));
  }

  lemma NoBytes()
    ensures Pow2(0) == 1
  {
  }

  lemma RangeIsPow2(dataSize: nat)
    requires IntSize(dataSize)
    ensures Range(dataSize) == Pow2(8 * dataSize)
  {
    assert Pow2(8) == 0x100;
    hide Pow2;
    Pow2Sum(8, 8);
    Pow2Values();
  }

  lemma ShortMod(n: int, m: nat)
    requires m > 0 && 0 < n + m && n < m
    ensures n % m == if n < 0 then n + m else n
  {
  }

  /** The byte-per-byte comparison with zero of an integer's storage. */
  method AllBytesZero(dataSize: nat, n: int) returns (zero: bool)
    requires IntSize(dataSize) && (FitsSigned(dataSize, n) || FitsUnsigned(dataSize, n))
    ensures zero <==> n == 0
  {
    var p := n % Range(dataSize);
    var i := 0;
    StoredBytes(dataSize, n);
    hide Range, Pow2;
    while i < dataSize
      invariant 0 <= i <= dataSize
      invariant p < Pow2(8 * (dataSize - i)) && p >= 0
      invariant p == 0 <==> n == 0
    {
      if p % 256 != 0 {
        return false;
      }
      NextByte(p, dataSize - i);
      p := p / 256;
      i := i + 1;
    }
    NoBytes();
    zero := true;
  }

  /** pb_check_proto3_default_value */
  method CheckProto3Default(f: Field, s: Slot) returns (zero: bool)
    requires FieldOk(f) && SlotFits(f, s)
    ensures zero <==> IsDefault(f, s)
    decreases f
  {
    if f.htype.Required? {
      return false;
    } else if f.htype.Repeated? {
      return s.size == 0;
    } else if f.htype.Oneof? {
      return s.size == 0;
    } else if f.sizeOffset != 0 {
      return s.size == 0;
    }
    var v := s.items[0];
    match f.ltype {
      case Bytes =>
        return v.size == 0;
      case String =>
        return v.data == [] || v.data[0] == 0;
      case FixedLengthBytes =>
        return f.dataSize == 0;
      case Submessage(fields) =>
        zero := CheckRowsDefault(fields, v.slots);
      case _ =>
        zero := AllBytesZero(f.dataSize, v.n);
    }
  }

  /** The submessage case: the first row that is not zero decides. */
  method CheckRowsDefault(fields: seq<Field>, slots: seq<Slot>) returns (zero: bool)
    requires TableOk(fields) && Fits(fields, slots)
    ensures zero <==> forall i | 0 <= i < |fields| :: IsDefault(fields[i], SlotAt(fields, slots, i))
    decreases fields
  {
    hide IsDefault, FieldOk, SlotFits, TableOk, DataAt, SizeAt, RequiredBefore;
    TableRows(fields);
    var iter := new FieldIter();
    var more := iter.Begin(fields);
    while more
      invariant iter.Valid() && iter.fields == fields
      invariant forall i | 0 <= i < |fields| && (more ==> i < iter.pos) ::
        IsDefault(fields[i], SlotAt(fields, slots, i))
      invariant more ==> iter.pos < |fields|
      decreases if more then |fields| - iter.pos else 0
    {
      var rowZero := CheckProto3Default(fields[iter.pos], SlotAt(fields, slots, iter.pos));
      if !rowZero {
        return false;
      }
      more := iter.Next();
    }
    zero := true;
  }

  // ---- one value ----

  method EncVarint(s: OStream, f: Field, n: int) returns (ok: bool)
    requires s.Valid() && f.ltype.Varint? && ValueFits(f, Num(n))
    modifies s, s.Footprint()
    ensures Emitted(old(s.Snap()), s.Snap(), ok, EncodeScalar(f, n))
  {
    if !IntSize(f.dataSize) {
      return false;
    }
    ok := s.EncodeVarint(Unsigned64(n));
  }

  method EncUvarint(s: OStream, f: Field, n: int) returns (ok: bool)
    requires s.Valid() && f.ltype.Uvarint? && ValueFits(f, Num(n))
    modifies s, s.Footprint()
    ensures Emitted(old(s.Snap()), s.Snap(), ok, EncodeScalar(f, n))
  {
    if !IntSize(f.dataSize) {
      return false;
    }
    assert Unsigned64(n) == n;
    ok := s.EncodeVarint(n);
  }

  method EncSvarint(s: OStream, f: Field, n: int) returns (ok: bool)
    requires s.Valid() && f.ltype.Svarint? && ValueFits(f, Num(n))
    modifies s, s.Footprint()
    ensures Emitted(old(s.Snap()), s.Snap(), ok, EncodeScalar(f, n))
  {
    if !IntSize(f.dataSize) {
      return false;
    }
    ok := s.EncodeSvarint(n);
  }

  /** The first five rows of PB_ENCODERS. */
  method EncScalar(s: OStream, f: Field, n: int) returns (ok: bool)
    requires s.Valid() && f.ltype.Packable() && ValueFits(f, Num(n))
    modifies s, s.Footprint()
    ensures Emitted(old(s.Snap()), s.Snap(), ok, EncodeScalar(f, n))
  {
    match f.ltype {
      case Varint => ok := EncVarint(s, f, n);
      case Uvarint => ok := EncUvarint(s, f, n);
      case Svarint => ok := EncSvarint(s, f, n);
      case Fixed32 => ok := s.EncodeFixed32(n);
      case Fixed64 => ok := s.EncodeFixed64(n);
    }
  }

  method EncBytes(s: OStream, f: Field, v: Value) returns (ok: bool)
    requires s.Valid() && f.ltype.Bytes? && ValueFits(f, v)
    modifies s, s.Footprint()
    ensures Emitted(old(s.Snap()), s.Snap(), ok, EncodeValue(f, v))
  {
    if v.size + BYTES_OFFSET > f.dataSize {
      return false;
    }
    ok := s.EncodeString(v.data[..v.size]);
  }

  method EncString(s: OStream, f: Field, v: Value) returns (ok: bool)
    requires s.Valid() && f.ltype.String? && ValueFits(f, v) && f.dataSize <= PB_SIZE_MAX
    modifies s, s.Footprint()
    ensures Emitted(old(s.Snap()), s.Snap(), ok, EncodeValue(f, v))
  {
    var size := 0;
    while size < f.dataSize && v.data[size] != 0
      invariant 0 <= size <= f.dataSize
      invariant forall k | 0 <= k < size :: v.data[k] != 0
    {
      size := size + 1;
    }
    StringLengthIs(v.data, size);
    ok := s.EncodeString(v.data[..size]);
  }

  lemma {:induction false} StringLengthIs(data: seq<byte>, n: nat)
    requires n <= |data| && (forall k | 0 <= k < n :: data[k] != 0) && (n < |data| ==> data[n] == 0)
    ensures StringLength(data) == n
  {
    if n > 0 {
      assert data[0] != 0;
      StringLengthIs(data[1..], n - 1);
    }
  }

  /** PB_ENCODERS[ltype] */
  method EncValue(s: OStream, f: Field, v: Value) returns (ok: bool)
    requires s.Valid() && FieldOk(f) && ValueFits(f, v) && ValueSized(f, v)
    modifies s, s.Footprint()
    ensures Emitted(old(s.Snap()), s.Snap(), ok, EncodeValue(f, v))
    decreases f, 0
  {
    hide Emitted;
    match f.ltype {
      case Bytes => ok := EncBytes(s, f, v);
      case String => ok := EncString(s, f, v);
      case FixedLengthBytes => ok := s.EncodeString(v.data);
      case Submessage(fields) => ok := EncodeSubmessage(s, fields, v.slots);
      case _ => ok := EncScalar(s, f, v.n);
    }
  }

  /** A body behind its length, if there is one. */
  function Delimited(body: Option<seq<byte>>): Option<seq<byte>>
  {
    if body.Some? then Some(Block(body.value)) else None
  }

  /**
    * pb_encode_submessage: a sizing pass, the length, and a second pass bounded by it. The passes always agree,
    * so the final size check never fails.
    */
  method EncodeSubmessage(s: OStream, fields: seq<Field>, slots: seq<Slot>) returns (ok: bool)
    requires s.Valid() && TableOk(fields) && Fits(fields, slots) && Sized(fields, slots)
    modifies s, s.Footprint()
    ensures Emitted(old(s.Snap()), s.Snap(), ok, Delimited(Encode(fields, slots)))
    decreases fields, 1
  {
    hide Encode, TableOk, Fits;
    ghost var a := s.Snap();
    ghost var body := Encode(fields, slots);
    var sizing := new OStream.Sizing();
    ok := PbEncode(sizing, fields, slots);
    if !ok {
      return;
    }
    var size := sizing.bytesWritten;
    ok := s.EncodeVarint(size);
    ghost var b := s.Snap();
    if !ok {
      Stopped(a, b, Some(Varints.Varint(size)), body);
      return;
    }
    if s.buf == null {
      ok := s.WriteSize(size, body.value);
      Then(a, b, s.Snap(), Varints.Varint(size), ok, body);
      return;
    }
    if s.bytesWritten + size > s.maxSize {
      ok := false;
      Then(a, b, b, Varints.Varint(size), ok, body);
      return;
    }
    var substream := new OStream.FromBuffer(s.buf, s.state, size);
    ghost var c := substream.Snap();
    var status := PbEncode(substream, fields, slots);
    s.bytesWritten := s.bytesWritten + substream.bytesWritten;
    s.state := substream.state;
    assert substream.bytesWritten == size;
    ok := status && substream.bytesWritten == size;
    WithinBound(b, c, substream.Snap(), s.Snap(), body.value);
    Then(a, b, s.Snap(), Varints.Varint(size), ok, body);
  }

  /** A write to a substream over the next bytes of a stream is a write to the stream. */
  lemma WithinBound(b: Snapshot, c: Snapshot, d: Snapshot, r: Snapshot, body: seq<byte>)
    requires b.Sane() && !b.sizing && b.bytesWritten + |body| <= b.maxSize
    requires c == Snapshot(false, b.memory, b.state, |body|, 0) && Emitted(c, d, true, Some(body))
    requires r == Snapshot(false, d.memory, d.state, b.maxSize, b.bytesWritten + d.bytesWritten)
    ensures Emitted(b, r, true, Some(body))
  {
    var k := b.End() - c.End();
    assert d.memory[b.End()..] == d.memory[c.End()..][k..];
    assert c.memory[b.End()..] == c.memory[c.End()..][k..];
  }

  // ---- arrays ----

  /** Sizes are bounded by ten bytes an element. */
  lemma {:induction false} PackedSize(f: Field, items: seq<Value>)
    requires f.ltype.Packable() && forall k | 0 <= k < |items| :: ValueFits(f, items[k])
    ensures PackedData(f, items).Some? ==> |PackedData(f, items).value| <= 10 * |items|
    ensures f.ltype.Fixed32? ==> PackedData(f, items).Some? && |PackedData(f, items).value| == 4 * |items|
    ensures f.ltype.Fixed64? ==> PackedData(f, items).Some? && |PackedData(f, items).value| == 8 * |items|
  {
    if items != [] {
      PackedSize(f, items[1..]);
      match f.ltype {
        case Varint | Uvarint => VarintAtMostTen(Unsigned64(items[0].n));
        case Svarint => VarintAtMostTen(ZigZag(items[0].n));
        case _ =>
      }
    }
  }

  /** The loop over the elements of a packed array, on either kind of stream. */
  method EncodePacked(s: OStream, f: Field, items: seq<Value>) returns (ok: bool)
    requires s.Valid() && f.ltype.Packable() && forall k | 0 <= k < |items| :: ValueFits(f, items[k])
    modifies s, s.Footprint()
    ensures Emitted(old(s.Snap()), s.Snap(), ok, PackedData(f, items))
  {
    hide Emitted, EncodeScalar, ValueFits;
    ghost var a := s.Snap();
    ghost var done: seq<byte> := [];
    Nothing(a);
    JoinNothing(PackedData(f, items));
    assert items[0..] == items;
    var i := 0;
    while i < |items|
      invariant 0 <= i <= |items| && s.Valid()
      invariant Emitted(a, s.Snap(), true, Some(done))
      invariant PackedData(f, items) == Join(Some(done), PackedData(f, items[i..]))
    {
      ghost var b := s.Snap();
      PackedNext(f, items, i);
      ok := EncScalar(s, f, items[i].n);
      Step(a, b, s.Snap(), PackedData(f, items), done, ok, EncodeScalar(f, items[i].n), PackedData(f, items[i + 1..]));
      if !ok {
        return;
      }
      done := done + EncodeScalar(f, items[i].n).value;
      i := i + 1;
    }
    assert items[i..] == [];
    assert done + [] == done;
    ok := true;
  }

  /** The next element of a packed array. */
  lemma PackedNext(f: Field, items: seq<Value>, i: nat)
    requires f.ltype.Packable() && i < |items| && forall k | 0 <= k < |items| :: ValueFits(f, items[k])
    ensures items[i].Num? && ValueFits(f, Num(items[i].n))
    ensures PackedData(f, items[i..]) == Join(EncodeScalar(f, items[i].n), PackedData(f, items[i + 1..]))
  {
    assert items[i..][0] == items[i] && items[i..][1..] == items[i + 1..];
  }

  /** The loop over the elements of an array that is not packed. */
  method EncodeTagged(s: OStream, f: Field, items: seq<Value>) returns (ok: bool)
    requires s.Valid() && FieldOk(f)
    requires forall k | 0 <= k < |items| :: ValueFits(f, items[k]) && ValueSized(f, items[k])
    modifies s, s.Footprint()
    ensures Emitted(old(s.Snap()), s.Snap(), ok, Tagged(f, items))
    decreases f, 2
  {
    hide Emitted, EncodeValue, ValueFits, ValueSized, FieldOk;
    ghost var a := s.Snap();
    ghost var done: seq<byte> := [];
    Nothing(a);
    JoinNothing(Tagged(f, items));
    assert items[0..] == items;
    var i := 0;
    while i < |items|
      invariant 0 <= i <= |items| && s.Valid()
      invariant Emitted(a, s.Snap(), true, Some(done))
      invariant Tagged(f, items) == Join(Some(done), Tagged(f, items[i..]))
    {
      ghost var b := s.Snap();
      ghost var element := Join(Some(FieldTag(f)), EncodeValue(f, items[i]));
      assert items[i..][0] == items[i] && items[i..][1..] == items[i + 1..];
      ok := EncodeTagAndValue(s, f, items[i]);
      Step(a, b, s.Snap(), Tagged(f, items), done, ok, element, Tagged(f, items[i + 1..]));
      if !ok {
        return;
      }
      done := done + element.value;
      i := i + 1;
    }
    assert items[i..] == [];
    assert done + [] == done;
    ok := true;
  }

  /** pb_encode_tag_for_field, and the value behind it. */
  method EncodeTagAndValue(s: OStream, f: Field, v: Value) returns (ok: bool)
    requires s.Valid() && FieldOk(f) && ValueFits(f, v) && ValueSized(f, v)
    modifies s, s.Footprint()
    ensures Emitted(old(s.Snap()), s.Snap(), ok, Join(Some(FieldTag(f)), EncodeValue(f, v)))
    decreases f, 1
  {
    hide Emitted, EncodeValue, ValueFits, ValueSized;
    ghost var a := s.Snap();
    ok := s.EncodeTag(f.ltype.WireType(), f.tag);
    ghost var b := s.Snap();
    SaneAfter(a, b, ok, Some(FieldTag(f)));
    if !ok {
      Stopped(a, b, Some(FieldTag(f)), EncodeValue(f, v));
      return;
    }
    ok := EncValue(s, f, v);
    Then(a, b, s.Snap(), FieldTag(f), ok, EncodeValue(f, v));
  }

  /** encode_array */
  method EncodeArrayField(s: OStream, f: Field, items: seq<Value>, count: nat) returns (ok: bool)
    requires s.Valid() && FieldOk(f) && f.htype.Repeated? && |items| == f.arraySize
    requires forall k | 0 <= k < |items| :: ValueFits(f, items[k])
    requires forall k | 0 <= k < |items| && k < count :: ValueSized(f, items[k])
    modifies s, s.Footprint()
    ensures Emitted(old(s.Snap()), s.Snap(), ok, EncodeArray(f, items, count))
    decreases f, 3
  {
    hide Emitted, EncodeValue, ValueFits, ValueSized, PackedData, Tagged;
    ghost var a := s.Snap();
    Nothing(a);
    if count == 0 {
      return true;
    }
    if count > f.arraySize {
      NoData(a);
      return false;
    }
    if f.ltype.Packable() {
      ok := EncodePackedArray(s, f, items[..count]);
    } else {
      ok := EncodeTagged(s, f, items[..count]);
    }
  }

  /** A sizing pass succeeds exactly when there is something to encode, and measures it. */
  lemma SizingResult(a: Snapshot, b: Snapshot, ok: bool, data: Option<seq<byte>>)
    requires Emitted(a, b, ok, data) && a.sizing && a.bytesWritten == 0
    ensures ok <==> data.Some?
    ensures ok ==> b.bytesWritten == |data.value|
  {
  }

  lemma NoData(a: Snapshot)
    requires a.Sane()
    ensures Emitted(a, a, false, None)
  {
  }

  /** The size of a packed array: its width, or what a sizing pass finds. */
  method MeasurePacked(f: Field, items: seq<Value>) returns (ok: bool, size: nat)
    requires FieldOk(f) && f.ltype.Packable() && forall k | 0 <= k < |items| :: ValueFits(f, items[k])
    ensures ok <==> PackedData(f, items).Some?
    ensures ok ==> size == |PackedData(f, items).value|
  {
    hide Emitted, ValueFits, PackedData;
    PackedSize(f, items);
    ok := true;
    if f.ltype.Fixed32? {
      size := 4 * |items|;
    } else if f.ltype.Fixed64? {
      size := 8 * |items|;
    } else {
      var sizestream := new OStream.Sizing();
      ghost var e := sizestream.Snap();
      ok := EncodePacked(sizestream, f, items);
      SizingResult(e, sizestream.Snap(), ok, PackedData(f, items));
      size := sizestream.bytesWritten;
    }
  }

  /** The packed case of encode_array: tag, size from a sizing pass (or the width), then the data. */
  method EncodePackedArray(s: OStream, f: Field, items: seq<Value>) returns (ok: bool)
    requires s.Valid() && FieldOk(f) && f.ltype.Packable() && |items| <= PB_SIZE_MAX
    requires forall k | 0 <= k < |items| :: ValueFits(f, items[k])
    modifies s, s.Footprint()
    ensures Emitted(old(s.Snap()), s.Snap(), ok,
                    Join(Some(TagBytes(f.tag, WT_STRING)), Delimited(PackedData(f, items))))
  {
    hide Emitted, ValueFits, PackedData, TagBytes, Varints.Varint;
    ghost var a := s.Snap();
    ghost var tag := TagBytes(f.tag, WT_STRING);
    ghost var data := PackedData(f, items);
    PackedSize(f, items);
    ok := s.EncodeTag(WT_STRING, f.tag);
    ghost var b := s.Snap();
    SaneAfter(a, b, ok, Some(tag));
    if !ok {
      Stopped(a, b, Some(tag), Delimited(data));
      return;
    }
    var size;
    ok, size := MeasurePacked(f, items);
    if !ok {
      NoData(b);
      Then(a, b, b, tag, false, None);
      return;
    }
    ok := s.EncodeVarint(size);
    ghost var c := s.Snap();
    SaneAfter(b, c, ok, Some(Varints.Varint(size)));
    if !ok {
      Stopped(b, c, Some(Varints.Varint(size)), data);
      Then(a, b, c, tag, false, Delimited(data));
      return;
    }
    if s.buf == null {
      ok := s.WriteSize(size, data.value);
    } else {
      ok := EncodePacked(s, f, items);
    }
    Then(b, c, s.Snap(), Varints.Varint(size), ok, data);
    Then(a, b, s.Snap(), tag, ok, Delimited(data));
  }

  // ---- fields and messages ----

  /** encode_basic_field */
  method EncodeBasicField(s: OStream, f: Field, slot: Slot) returns (ok: bool)
    requires s.Valid() && FieldOk(f) && SlotFits(f, slot) && RowSized(f, slot)
    modifies s, s.Footprint()
    ensures Emitted(old(s.Snap()), s.Snap(), ok, EncodeField(f, slot))
    decreases f, 4
  {
    hide Emitted, EncodeValue, EncodeArray, ValueFits, ValueSized, IsZero;
    Nothing(s.Snap());
    var implicitHas := true;
    if f.sizeOffset == 0 && f.htype.Optional? {
      var zero := CheckProto3Default(f, slot);
      implicitHas := !zero;
    }
    ok := true;
    match f.htype {
      case Required =>
        ok := EncodeTagAndValue(s, f, slot.items[0]);
      case Optional =>
        var has := if f.sizeOffset != 0 then slot.size != 0 else implicitHas;
        if has {
          ok := EncodeTagAndValue(s, f, slot.items[0]);
        }
      case Repeated =>
        var count := if f.sizeOffset != 0 then slot.size else f.arraySize;
        ok := EncodeArrayField(s, f, slot.items, count);
      case Oneof =>
        if slot.size == f.tag {
          ok := EncodeTagAndValue(s, f, slot.items[0]);
        }
    }
  }

  lemma NextRow(fields: seq<Field>, slots: seq<Slot>, i: nat)
    requires TableOk(fields) && Fits(fields, slots) && Sized(fields, slots) && i < |fields|
    ensures FieldOk(fields[i]) && RowSized(fields[i], SlotAt(fields, slots, i))
    ensures EncodeFrom(fields, slots, i)
         == Join(EncodeField(fields[i], SlotAt(fields, slots, i)), EncodeFrom(fields, slots, i + 1))
  {
    hide EncodeField, FieldOk, SlotFits, RowSized;
  }

  /** pb_encode */
  method PbEncode(s: OStream, fields: seq<Field>, slots: seq<Slot>) returns (ok: bool)
    requires s.Valid() && TableOk(fields) && Fits(fields, slots) && Sized(fields, slots)
    modifies s, s.Footprint()
    ensures Emitted(old(s.Snap()), s.Snap(), ok, Encode(fields, slots))
    decreases fields, 0
  {
    hide Emitted, EncodeField, EncodeFrom, FieldOk, TableOk, Fits, SlotFits, RowSized, DataAt, SizeAt, RequiredBefore;
    TableRows(fields);
    ghost var a := s.Snap();
    ghost var done: seq<byte> := [];
    ghost var i := 0;
    Nothing(a);
    JoinNothing(EncodeFrom(fields, slots, 0));
    NoRows(fields, slots);
    var iter := new FieldIter();
    var more := iter.Begin(fields);
    if !more {
      return true;
    }
    while more
      invariant s.Valid() && iter.Valid() && iter.fields == fields
      invariant i == if more then iter.pos else |fields|
      invariant more ==> i < |fields|
      invariant Emitted(a, s.Snap(), true, Some(done))
      invariant EncodeFrom(fields, slots, 0) == Join(Some(done), EncodeFrom(fields, slots, i))
      decreases |fields| - i
    {
      ghost var b := s.Snap();
      NextRow(fields, slots, i);
      ok := EncodeBasicField(s, fields[iter.pos], SlotAt(fields, slots, iter.pos));
      ghost var element := EncodeField(fields[i], SlotAt(fields, slots, i));
      i := i + 1;
      Step(a, b, s.Snap(), EncodeFrom(fields, slots, 0), done, ok, element, EncodeFrom(fields, slots, i));
      if !ok {
        return;
      }
      done := done + element.value;
      more := iter.Next();
    }
    assert done + [] == done;
    ok := true;
  }

  lemma NoRows(fields: seq<Field>, slots: seq<Slot>)
    requires Fits(fields, slots)
    ensures EncodeFrom(fields, slots, |fields|) == Some([])
  {
  }

  /** pb_encode_delimited */
  method PbEncodeDelimited(s: OStream, fields: seq<Field>, slots: seq<Slot>) returns (ok: bool)
    requires s.Valid() && TableOk(fields) && Fits(fields, slots) && Sized(fields, slots)
    modifies s, s.Footprint()
    ensures Emitted(old(s.Snap()), s.Snap(), ok, Delimited(Encode(fields, slots)))
  {
    ok := EncodeSubmessage(s, fields, slots);
  }

  /** pb_encode_nullterminated */
  method PbEncodeNullterminated(s: OStream, fields: seq<Field>, slots: seq<Slot>) returns (ok: bool)
    requires s.Valid() && TableOk(fields) && Fits(fields, slots) && Sized(fields, slots)
    modifies s, s.Footprint()
    ensures Emitted(old(s.Snap()), s.Snap(), ok, Join(Encode(fields, slots), Some([0])))
  {
    hide Encode, TableOk, Fits;
    ghost var a := s.Snap();
    ok := PbEncode(s, fields, slots);
    ghost var b := s.Snap();
    if !ok {
      Stopped(a, b, Encode(fields, slots), Some([0]));
      return;
    }
    ok := s.Write([0]);
    Then(a, b, s.Snap(), Encode(fields, slots).value, ok, Some([0]));
  }

  /** pb_get_encoded_size */
  method PbGetEncodedSize(fields: seq<Field>, slots: seq<Slot>) returns (ok: bool, size: nat)
    requires TableOk(fields) && Fits(fields, slots) && Sized(fields, slots)
    ensures ok <==> Encode(fields, slots).Some?
    ensures ok ==> size == |Encode(fields, slots).value|
  {
    var stream := new OStream.Sizing();
    ok := PbEncode(stream, fields, slots);
    size := stream.bytesWritten;
  }
}
