// What a caller can observe of a struct, and the round trip through the wire.
module Views {
  import opened Bits
  import opened Varints
  import opened Fields
  import opened Encoding
  import opened Decoding
  import opened Merging

  /** One observable value: contents past a string's NUL or a byte array's size do not show. */
  datatype Obs =
    | ONum(n: int)
    | OBytes(data: seq<byte>)
    | OMsg(rows: seq<seq<Obs>>)

  function ViewValue(f: Field, v: Value): Obs
    requires ValueFits(f, v)
    decreases f, 0
  {
    match f.ltype
    case Bytes => OBytes(if v.size <= |v.data| then v.data[..v.size] else v.data)
    case String => OBytes(v.data[..StringLength(v.data)])
    case FixedLengthBytes => OBytes(v.data)
    case Submessage(fields) => OMsg(View(fields, v.slots))
    case _ => ONum(v.n)
  }

  function ViewItems(f: Field, items: seq<Value>): (r: seq<Obs>)
    requires forall k | 0 <= k < |items| :: ValueFits(f, items[k])
    ensures |r| == |items| && forall k | 0 <= k < |items| :: r[k] == ViewValue(f, items[k])
    decreases f, 1, |items|
  {
    if items == [] then [] else [ViewValue(f, items[0])] + ViewItems(f, items[1..])
  }

  /** The values a row shows: none behind a false has-flag or another union member, count many of an array. */
  function ViewRow(f: Field, s: Slot): seq<Obs>
    requires SlotFits(f, s)
    decreases f, 2
  {
    match f.htype
    case Required => ViewItems(f, s.items)
    case Optional => if f.sizeOffset != 0 && s.size == 0 then [] else ViewItems(f, s.items)
    case Repeated => ViewItems(f, if Count(f, s) <= |s.items| then s.items[..Count(f, s)] else s.items)
    case Oneof => if s.size == f.tag then ViewItems(f, s.items) else []
  }

  function View(fields: seq<Field>, slots: seq<Slot>): (r: seq<seq<Obs>>)
    requires Fits(fields, slots)
    ensures |r| == |fields|
    ensures forall i | 0 <= i < |fields| :: r[i] == ViewRow(fields[i], SlotAt(fields, slots, i))
    decreases fields
  {
    ViewRows(fields, slots, |fields|)
  }

  function ViewRows(fields: seq<Field>, slots: seq<Slot>, n: nat): (r: seq<seq<Obs>>)
    requires Fits(fields, slots) && n <= |fields|
    ensures |r| == n && forall i | 0 <= i < n :: r[i] == ViewRow(fields[i], SlotAt(fields, slots, i))
    decreases fields, n
  {
    if n == 0 then [] else ViewRows(fields, slots, n - 1) + [ViewRow(fields[n - 1], SlotAt(fields, slots, n - 1))]
  }

  // ---- strings the decoder has no room for ----

  /** Every string inside a value ends in a NUL within its buffer, as far as it is sent. */
  predicate ValueTerminated(f: Field, v: Value)
    requires ValueFits(f, v)
    decreases f, 0
  {
    match f.ltype
    case String => StringLength(v.data) < |v.data|
    case Submessage(fields) => Terminated(fields, v.slots)
    case _ => true
  }

  predicate RowTerminated(f: Field, t: Slot)
    requires SlotFits(f, t)
    decreases f, 1
  {
    if f.htype.Repeated? then forall k | 0 <= k < Count(f, t) && k < |t.items| :: ValueTerminated(f, t.items[k])
    else IsPresent(f, t) ==> ValueTerminated(f, t.items[0])
  }

  predicate Terminated(fields: seq<Field>, slots: seq<Slot>)
    requires Fits(fields, slots)
    decreases fields
  {
    forall i | 0 <= i < |fields| :: RowTerminated(fields[i], SlotAt(fields, slots, i))
  }

  // ---- row by row ----

  predicate RowSent(fields: seq<Field>, b: seq<Slot>, j: nat)
    requires Fits(fields, b) && j < |fields|
  {
    !Absent(fields[j], SlotAt(fields, b, j))
  }

  lemma {:induction false} RowEncodable(fields: seq<Field>, b: seq<Slot>, i: nat, j: nat)
    requires Fits(fields, b) && i <= j < |fields| && EncodeFrom(fields, b, i).Some?
    ensures EncodeField(fields[j], SlotAt(fields, b, j)).Some? && EncodeFrom(fields, b, j).Some?
    decreases j - i
  {
    hide EncodeField;
    if i < j {
      RowEncodable(fields, b, i + 1, j);
    }
  }

  /** At most one member of a union is sent. */
  lemma OneMemberSent(fields: seq<Field>, b: seq<Slot>, i: nat, j: nat)
    requires TableOk(fields) && Fits(fields, b) && i < |fields| && j < |fields| && i != j
    requires SlotOf(fields, i) == SlotOf(fields, j)
    ensures !RowSent(fields, b, i) || !RowSent(fields, b, j)
    ensures fields[i].htype.Oneof? && fields[j].htype.Oneof?
  {
    if i < j { SharedSlotIsUnion(fields, i, j); } else { SharedSlotIsUnion(fields, j, i); }
    assert fields[i].tag != fields[j].tag;
  }

  /** The merge treats every row on its own: a sent row is merged with what its storage held at the start. */
  lemma {:induction false} RowResult(fields: seq<Field>, slots: seq<Slot>, b: seq<Slot>, i: nat, j: nat)
    requires TableOk(fields) && Fits(fields, slots) && Fits(fields, b) && i <= |fields| && j < |fields|
    requires EncodeFrom(fields, b, i).Some? && MergeFrom(fields, slots, b, i).Some?
    ensures FieldOk(fields[j])
    ensures i <= j && RowSent(fields, b, j) ==>
      && EncodeField(fields[j], SlotAt(fields, b, j)).Some?
      && MergeSlot(fields[j], SlotAt(fields, slots, j), SlotAt(fields, b, j))
         == Some(SlotAt(fields, MergeFrom(fields, slots, b, i).value, j))
    ensures (forall k | i <= k < |fields| && SlotOf(fields, k) == SlotOf(fields, j) :: !RowSent(fields, b, k))
      ==> SlotAt(fields, MergeFrom(fields, slots, b, i).value, j) == SlotAt(fields, slots, j)
    decreases |fields| - i
  {
    hide EncodeField, MergeSlot, FieldOk, SlotFits;
    if i < |fields| {
      var next := MergeRow(fields, slots, b, i).value;
      if RowSent(fields, b, i) {
        PutSeen(fields, slots, i, MergeSlot(fields[i], SlotAt(fields, slots, i), SlotAt(fields, b, i)).value, j);
      }
      RowResult(fields, next, b, i + 1, j);
      if j == i && RowSent(fields, b, i) {
        forall k | i < k < |fields| && SlotOf(fields, k) == SlotOf(fields, i) ensures !RowSent(fields, b, k) {
          OneMemberSent(fields, b, i, k);
        }
      } else if j > i && SlotOf(fields, i) == SlotOf(fields, j) {
        OneMemberSent(fields, b, i, j);
      }
    }
  }

  /** There is no merge exactly when some sent row has none. */
  lemma {:induction false} MergeFailsByRow(fields: seq<Field>, slots: seq<Slot>, b: seq<Slot>, i: nat)
    requires TableOk(fields) && Fits(fields, slots) && Fits(fields, b) && i <= |fields|
    requires EncodeFrom(fields, b, i).Some?
    ensures MergeFrom(fields, slots, b, i).Some? <==> RowsMergeable(fields, slots, b, i)
    decreases |fields| - i
  {
    hide EncodeField, MergeSlot, FieldOk, SlotFits;
    forall j | i <= j < |fields| ensures FieldOk(fields[j]) && EncodeField(fields[j], SlotAt(fields, b, j)).Some? {
      RowEncodable(fields, b, i, j);
    }
    if i == |fields| {
    } else if MergeRow(fields, slots, b, i).None? {
      assert RowSent(fields, b, i) && !RowMergeable(fields, slots, b, i);
    } else {
      var next := MergeRow(fields, slots, b, i).value;
      MergeFailsByRow(fields, next, b, i + 1);
      forall j | i < j < |fields| && RowSent(fields, b, j)
        ensures RowMergeable(fields, next, b, j) == RowMergeable(fields, slots, b, j)
      {
        if RowSent(fields, b, i) {
          if SlotOf(fields, i) == SlotOf(fields, j) { OneMemberSent(fields, b, i, j); }
          PutSeen(fields, slots, i, MergeSlot(fields[i], SlotAt(fields, slots, i), SlotAt(fields, b, i)).value, j);
        }
      }
      assert RowSent(fields, b, i) ==> RowMergeable(fields, slots, b, i);
    }
  }

  predicate RowsMergeable(fields: seq<Field>, slots: seq<Slot>, b: seq<Slot>, i: nat)
    requires TableOk(fields) && Fits(fields, slots) && Fits(fields, b) && i <= |fields|
  {
    forall j | i <= j < |fields| && RowSent(fields, b, j) :: RowMergeable(fields, slots, b, j)
  }

  predicate RowMergeable(fields: seq<Field>, slots: seq<Slot>, b: seq<Slot>, j: nat)
    requires TableOk(fields) && Fits(fields, slots) && Fits(fields, b) && j < |fields|
  {
    && FieldOk(fields[j])
    && EncodeField(fields[j], SlotAt(fields, b, j)).Some?
    && MergeSlot(fields[j], SlotAt(fields, slots, j), SlotAt(fields, b, j)).Some?
  }

  /** Setting defaults also acts row by row; every union is unset. */
  lemma {:induction false} DefaultRow(fields: seq<Field>, slots: seq<Slot>, i: nat, j: nat)
    requires TableOk(fields) && Fits(fields, slots) && i <= |fields| && j < |fields|
    ensures FieldOk(fields[j])
    ensures i <= j ==>
      SlotAt(fields, SetDefaults(fields, slots, i), j) == DefaultSlot(fields[j], SlotAt(fields, slots, j))
    ensures j < i ==>
      var s := SlotAt(fields, slots, j);
      var r := SlotAt(fields, SetDefaults(fields, slots, i), j);
      r == s || (fields[j].htype.Oneof? && r == s.(size := 0))
    decreases |fields| - i
  {
    hide FieldOk, SlotFits, DefaultValue, ValueFits;
    if i < |fields| {
      var next := Put(fields, slots, i, DefaultSlot(fields[i], SlotAt(fields, slots, i)));
      PutSeen(fields, slots, i, DefaultSlot(fields[i], SlotAt(fields, slots, i)), j);
      DefaultRow(fields, next, i + 1, j);
      if i != j && SlotOf(fields, i) == SlotOf(fields, j) {
        if i < j { SharedSlotIsUnion(fields, i, j); } else { SharedSlotIsUnion(fields, j, i); }
      }
    }
  }
}
