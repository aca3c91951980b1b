// What the encoder emits for a struct, as a function of the table and the struct (pb_encode.c).
module Encoding {
  import opened Bits
  import opened Varints
  import opened Fields
  import opened Scalars

  /** Both parts, one after the other; an error in either is an error. */
  function Join(a: Option<seq<byte>>, b: Option<seq<byte>>): (r: Option<seq<byte>>)
  {
    if a.Some? && b.Some? then Some(a.value + b.value) else None
  }

  function TagBytes(tag: nat, wireType: nat): (bs: seq<byte>)
    requires wireType < 8
    ensures |bs| >= 1
  {
    Varints.Varint(8 * tag + wireType)
  }

  function FieldTag(f: Field): seq<byte>
  {
    TagBytes(f.tag, f.ltype.WireType())
  }

  /** A length-delimited block. */
  function Block(data: seq<byte>): (bs: seq<byte>)
    ensures |bs| >= 1 + |data|
  {
    Varints.Varint(|data|) + data
  }

  /** The proto3 "zero value" check on the field's storage. */
  predicate IsDefault(f: Field, s: Slot)
    requires SlotFits(f, s)
    decreases f, 1
  {
    match f.htype
    case Required => false
    case Repeated | Oneof => s.size == 0
    case Optional => if f.sizeOffset != 0 then s.size == 0 else IsZero(f, s.items[0])
  }

  predicate IsZero(f: Field, v: Value)
    requires ValueFits(f, v)
    decreases f, 0
  {
    match f.ltype
    case Bytes => v.size == 0
    case String => v.data == [] || v.data[0] == 0
    case FixedLengthBytes => f.dataSize == 0
    case Submessage(fields) =>
      forall i | 0 <= i < |fields| :: IsDefault(fields[i], SlotAt(fields, v.slots, i))
    case _ => v.n == 0
  }

  predicate IsPresent(f: Field, s: Slot)
    requires SlotFits(f, s)
  {
    match f.htype
    case Required => true
    case Optional => if f.sizeOffset != 0 then s.size != 0 else !IsZero(f, s.items[0])
    case Repeated => true
    case Oneof => s.size == f.tag
  }

  /** Value bytes of one element, without its tag. */
  function EncodeValue(f: Field, v: Value): (r: Option<seq<byte>>)
    requires ValueFits(f, v)
    ensures r.Some? ==> |r.value| >= 1
    decreases f, 0
  {
    match f.ltype
    case Bytes => if v.size + BYTES_OFFSET > f.dataSize then None else Some(Block(v.data[..v.size]))
    case String => Some(Block(v.data[..StringLength(v.data)]))
    case FixedLengthBytes => Some(Block(v.data))
    case Submessage(fields) =>
      var body := EncodeFrom(fields, v.slots, 0);
      if body.Some? then Some(Block(body.value)) else None
    case _ => EncodeScalar(f, v.n)
  }

  /** Elements one after the other, without tags. */
  function PackedData(f: Field, items: seq<Value>): (r: Option<seq<byte>>)
    requires forall k | 0 <= k < |items| :: ValueFits(f, items[k])
    decreases f, 1, |items|
  {
    if items == [] then Some([]) else Join(EncodeValue(f, items[0]), PackedData(f, items[1..]))
  }

  /** Elements each behind its own tag. */
  function Tagged(f: Field, items: seq<Value>): (r: Option<seq<byte>>)
    requires forall k | 0 <= k < |items| :: ValueFits(f, items[k])
    decreases f, 1, |items|
  {
    if items == [] then Some([])
    else Join(Join(Some(FieldTag(f)), EncodeValue(f, items[0])), Tagged(f, items[1..]))
  }

  function EncodeArray(f: Field, items: seq<Value>, count: nat): (r: Option<seq<byte>>)
    requires |items| == f.arraySize && forall k | 0 <= k < |items| :: ValueFits(f, items[k])
    decreases f, 2
  {
    if count == 0 then Some([])
    else if count > f.arraySize then None
    else if f.ltype.Packable() then
      var data := PackedData(f, items[..count]);
      if data.Some? then Some(TagBytes(f.tag, WT_STRING) + Block(data.value)) else None
    else Tagged(f, items[..count])
  }

  function EncodeField(f: Field, s: Slot): (r: Option<seq<byte>>)
    requires SlotFits(f, s)
    decreases f, 3
  {
    if f.htype.Repeated? then EncodeArray(f, s.items, Count(f, s))
    else if IsPresent(f, s) then Join(Some(FieldTag(f)), EncodeValue(f, s.items[0]))
    else Some([])
  }

  /** Rows i and later, in table order. */
  function EncodeFrom(fields: seq<Field>, slots: seq<Slot>, i: nat): (r: Option<seq<byte>>)
    requires Fits(fields, slots) && i <= |fields|
    decreases fields, |fields| - i
  {
    if i == |fields| then Some([])
    else Join(EncodeField(fields[i], SlotAt(fields, slots, i)), EncodeFrom(fields, slots, i + 1))
  }

  function Encode(fields: seq<Field>, slots: seq<Slot>): (r: Option<seq<byte>>)
    requires Fits(fields, slots)
  {
    EncodeFrom(fields, slots, 0)
  }
}
