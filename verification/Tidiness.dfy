// Structs whose content can be sent and read back, and memory that becomes one when its defaults are set.
module Tidiness {
  import opened Fields

  /** The value can be encoded, and the decoder has room for what is sent. */
  predicate ValueTidy(f: Field, v: Value)
    requires ValueFits(f, v)
    decreases f, 0
  {
    match f.ltype
    case Bytes => v.size + BYTES_OFFSET <= f.dataSize
    case String => StringLength(v.data) < |v.data|
    case Submessage(fields) => Tidy(fields, v.slots)
    case _ => true
  }

  /** All that a row could come to send is tidy; array elements past the count are usable. */
  predicate SlotTidy(f: Field, s: Slot)
    requires SlotFits(f, s)
    decreases f, 1
  {
    match f.htype
    case Required | Optional => ValueTidy(f, s.items[0])
    case Repeated =>
      Count(f, s) <= |s.items|
      && forall k | 0 <= k < |s.items| ::
           if k < Count(f, s) then ValueTidy(f, s.items[k]) else ValueUsable(f, s.items[k])
    case Oneof => s.size == f.tag ==> ValueTidy(f, s.items[0])
  }

  predicate Tidy(fields: seq<Field>, slots: seq<Slot>)
    requires Fits(fields, slots)
    decreases fields
  {
    forall i | 0 <= i < |fields| :: SlotTidy(fields[i], SlotAt(fields, slots, i))
  }

  /** Setting defaults makes the value tidy: the fixed-count arrays in it, which keep their content, are tidy. */
  predicate ValueUsable(f: Field, v: Value)
    requires ValueFits(f, v)
    decreases f, 0
  {
    f.ltype.Submessage? ==> Usable(f.ltype.fields, v.slots)
  }

  predicate SlotUsable(f: Field, s: Slot)
    requires SlotFits(f, s)
    decreases f, 1
  {
    match f.htype
    case Required | Optional => ValueUsable(f, s.items[0])
    case Repeated =>
      forall k | 0 <= k < |s.items| :: if f.FixedCount() then ValueTidy(f, s.items[k]) else ValueUsable(f, s.items[k])
    case Oneof => true
  }

  predicate Usable(fields: seq<Field>, slots: seq<Slot>)
    requires Fits(fields, slots)
    decreases fields
  {
    forall i | 0 <= i < |fields| :: SlotUsable(fields[i], SlotAt(fields, slots, i))
  }
}
