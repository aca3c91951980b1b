// Decoding the encoding of one struct into another merges the two.
module Merging {
  import opened Varints
  import opened Fields
  import opened Encoding
  import opened Decoding

  // ---- the merged struct ----

  /** What storage holding `was` contains after value v has been sent to it; None when v does not fit. */
  function MergeValue(f: Field, was: Value, v: Value): (r: Option<Value>)
    requires FieldOk(f) && ValueFits(f, was) && ValueFits(f, v) && EncodeValue(f, v).Some?
    ensures r.Some? ==> ValueFits(f, r.value)
    decreases f, 0
  {
    match f.ltype
    case Bytes => Some(Buf(v.size, v.data[..v.size] + was.data[v.size..]))
    case String =>
      var n := StringLength(v.data);
      if n == |v.data| then None else Some(Buf(was.size, v.data[..n] + [0] + was.data[n + 1..]))
    case FixedLengthBytes => Some(Buf(was.size, v.data))
    case Submessage(fields) =>
      (match MergeFrom(fields, if f.htype.Repeated? then SetDefaults(fields, was.slots, 0) else was.slots, v.slots, 0)
       case Some(slots) => Some(Msg(slots))
       case None => None)
    case _ => Some(v)
  }

  /** Elements sent one after the other to an array; None on overflow or a misfit. */
  function MergeItems(f: Field, e: Elements, items: seq<Value>): (r: Option<Elements>)
    requires FieldOk(f) && ElementsFit(f, e)
    requires forall k | 0 <= k < |items| :: ValueFits(f, items[k]) && EncodeValue(f, items[k]).Some?
    ensures r.Some? ==> ElementsFit(f, r.value) && r.value.count == e.count + |items|
    ensures r.Some? && items != [] ==> r.value.count <= f.arraySize
    decreases f, 1, |items|
  {
    if items == [] then Some(e)
    else if e.count >= f.arraySize then None
    else
      match MergeValue(f, e.items[e.count], items[0])
      case Some(v) => MergeItems(f, Elements(e.items[e.count := v], e.count + 1), items[1..])
      case None => None
  }

  /** Nothing is sent for the field. */
  predicate Absent(f: Field, t: Slot)
    requires SlotFits(f, t)
  {
    !f.htype.Repeated? && !IsPresent(f, t)
  }

  /** Storage s of a field after the field's content in t has been sent to it. */
  function MergeSlot(f: Field, s: Slot, t: Slot): (r: Option<Slot>)
    requires FieldOk(f) && SlotFits(f, s) && SlotFits(f, t) && EncodeField(f, t).Some?
    ensures r.Some? ==> SlotFits(f, r.value)
    ensures r.Some? && f.htype.Oneof? && !Absent(f, t) ==> r.value.size == f.tag
    decreases f, 2
  {
    match f.htype
    case Required => MergeSingle(f, s.items[0], s.size, t)
    case Optional =>
      if Absent(f, t) then Some(s)
      else MergeSingle(f, s.items[0], if f.sizeOffset != 0 then 1 else s.size, t)
    case Repeated =>
      ArrayEncodable(f, t);
      (match MergeItems(f, Elements(s.items, if f.FixedCount() then 0 else s.size), t.items[..Count(f, t)])
       case Some(e) => Some(Slot(if f.FixedCount() then s.size else e.count, e.items))
       case None => None)
    case Oneof => if Absent(f, t) then Some(s) else MergeSingle(f, UnionBefore(f, s), f.tag, t)
  }

  function MergeSingle(f: Field, was: Value, size: nat, t: Slot): (r: Option<Slot>)
    requires FieldOk(f) && !f.htype.Repeated? && ValueFits(f, was) && size <= PB_SIZE_MAX
    requires SlotFits(f, t) && IsPresent(f, t) && EncodeField(f, t).Some?
    ensures r.Some? ==> SlotFits(f, r.value) && r.value.size == size
    decreases f, 1
  {
    match MergeValue(f, was, t.items[0])
    case Some(v) => Some(Slot(size, [v]))
    case None => None
  }

  /** Rows i and later of b sent to a struct. */
  function MergeFrom(fields: seq<Field>, slots: seq<Slot>, b: seq<Slot>, i: nat): (r: Option<seq<Slot>>)
    requires TableOk(fields) && Fits(fields, slots) && Fits(fields, b) && i <= |fields|
    requires EncodeFrom(fields, b, i).Some?
    ensures r.Some? ==> Fits(fields, r.value)
    decreases fields, |fields| - i
  {
    if i == |fields| then Some(slots)
    else
      match MergeRow(fields, slots, b, i)
      case Some(next) => MergeFrom(fields, next, b, i + 1)
      case None => None
  }

  /** Row i of b sent to a struct. */
  function MergeRow(fields: seq<Field>, slots: seq<Slot>, b: seq<Slot>, i: nat): (r: Option<seq<Slot>>)
    requires TableOk(fields) && Fits(fields, slots) && Fits(fields, b) && i < |fields|
    requires EncodeField(fields[i], SlotAt(fields, b, i)).Some?
    ensures r.Some? ==> Fits(fields, r.value)
    decreases fields, 0
  {
    var f := fields[i];
    assert FieldOk(f);
    var t := SlotAt(fields, b, i);
    if Absent(f, t) then Some(slots)
    else
      match MergeSlot(f, SlotAt(fields, slots, i), t)
      case Some(s) => Some(Put(fields, slots, i, s))
      case None => None
  }

  lemma {:induction false} PackedEncodable(f: Field, items: seq<Value>)
    requires forall k | 0 <= k < |items| :: ValueFits(f, items[k])
    requires PackedData(f, items).Some?
    ensures forall k | 0 <= k < |items| :: EncodeValue(f, items[k]).Some?
  {
    if items != [] {
      PackedEncodable(f, items[1..]);
      forall k | 0 <= k < |items| ensures EncodeValue(f, items[k]).Some? {
        if k > 0 { assert items[k] == items[1..][k - 1]; }
      }
    }
  }

  lemma {:induction false} TaggedEncodable(f: Field, items: seq<Value>)
    requires forall k | 0 <= k < |items| :: ValueFits(f, items[k])
    requires Tagged(f, items).Some?
    ensures forall k | 0 <= k < |items| :: EncodeValue(f, items[k]).Some?
  {
    if items != [] {
      TaggedEncodable(f, items[1..]);
      forall k | 0 <= k < |items| ensures EncodeValue(f, items[k]).Some? {
        if k > 0 { assert items[k] == items[1..][k - 1]; }
      }
    }
  }

  /** An array that was encoded is within bounds and each of its elements is encodable. */
  lemma ArrayEncodable(f: Field, t: Slot)
    requires f.htype.Repeated? && SlotFits(f, t) && EncodeField(f, t).Some?
    ensures Count(f, t) <= |t.items|
    ensures forall k | 0 <= k < Count(f, t) :: ValueFits(f, t.items[k]) && EncodeValue(f, t.items[k]).Some?
  {
    var items := t.items[..Count(f, t)];
    if Count(f, t) == 0 {
    } else if f.ltype.Packable() {
      PackedEncodable(f, items);
    } else {
      TaggedEncodable(f, items);
    }
    forall k | 0 <= k < Count(f, t) ensures EncodeValue(f, t.items[k]).Some? {
      assert t.items[k] == items[k];
    }
  }
}
