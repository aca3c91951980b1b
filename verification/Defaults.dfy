// What stands in the storage of fields that no record was for.
module Defaults {
  import opened Bits
  import opened Varints
  import opened Fields
  import opened Decoding
  import opened Views
  import opened Traces

  /** Every byte of the storage is zero. */
  predicate Blank(v: Value)
  {
    match v
    case Num(n) => n == 0
    case Buf(size, data) => size == 0 && forall k | 0 <= k < |data| :: data[k] == 0
    case Msg(_) => false
  }

  /** The value is the table's default value, or zero if it has none; in a submessage each row is ready. */
  predicate InitialStored(f: Field, v: Value)
    requires ValueFits(f, v)
    decreases f, 0
  {
    match f.ltype
    case Submessage(fields) => Ready(fields, v.slots)
    case _ => if f.initial.Some? then v == f.initial.value else Blank(v)
  }

  /** The row is unset and its default value is stored; an array is empty, and a union has no member. */
  predicate RowReady(f: Field, s: Slot)
    requires SlotFits(f, s)
    decreases f, 1
  {
    match f.htype
    case Required => InitialStored(f, s.items[0])
    case Optional => (f.sizeOffset != 0 ==> s.size == 0) && InitialStored(f, s.items[0])
    case Repeated => f.sizeOffset != 0 ==> s.size == 0
    case Oneof => s.size == 0
  }

  predicate Ready(fields: seq<Field>, slots: seq<Slot>)
    requires Fits(fields, slots)
    decreases fields
  {
    forall i | 0 <= i < |fields| :: RowReady(fields[i], SlotAt(fields, slots, i))
  }

  /** pb_message_set_to_defaults leaves every row ready, at every depth, whatever was there. */
  lemma {:induction false} DefaultsReady(fields: seq<Field>, slots: seq<Slot>)
    requires TableOk(fields) && Fits(fields, slots)
    ensures Ready(fields, SetDefaults(fields, slots, 0))
    decreases fields
  {
    forall i | 0 <= i < |fields| ensures RowReady(fields[i], SlotAt(fields, SetDefaults(fields, slots, 0), i)) {
      DefaultRow(fields, slots, 0, i);
      var f, s := fields[i], SlotAt(fields, slots, i);
      hide FieldOk, ValueFits, SetDefaults, DefaultValue, InitialStored;
      if f.htype.Required? || f.htype.Optional? {
        DefaultValueReady(f, s.items[0]);
      }
    }
  }

  lemma DefaultValueReady(f: Field, v: Value)
    requires FieldOk(f) && ValueFits(f, v)
    ensures InitialStored(f, DefaultValue(f, v))
    decreases f
  {
    match f.ltype
    case Submessage(fields) => DefaultsReady(fields, v.slots);
    case _ =>
  }

  // ---- rows that no record was for ----

  /** None of the rows shares row i's storage. */
  predicate Unsent(fields: seq<Field>, rows: seq<nat>, i: nat)
    requires i < |fields|
  {
    forall k | 0 <= k < |rows| :: rows[k] < |fields| ==> SlotOf(fields, rows[k]) != SlotOf(fields, i)
  }

  lemma RecordKeeps(fields: seq<Field>, tag: nat, wireType: nat, bs: seq<byte>, st: State, i: nat)
    requires TableOk(fields) && StateFits(fields, st) && i < |fields|
    requires DecodeRecord(fields, tag, wireType, bs, st).Done?
    requires Find(fields, tag).Some? ==> SlotOf(fields, Find(fields, tag).value) != SlotOf(fields, i)
    ensures SlotAt(fields, DecodeRecord(fields, tag, wireType, bs, st).value.slots, i) == SlotAt(fields, st.slots, i)
  {
    hide DecodeValue, DecodeElements, TableOk, Skip, Find, Fits, SlotFits, ArrayAt;
    if Find(fields, tag).Some? {
      FieldKeeps(fields, Find(fields, tag).value, wireType, bs, st, i);
    }
  }

  lemma FieldKeeps(fields: seq<Field>, j: nat, wireType: nat, bs: seq<byte>, st: State, i: nat)
    requires TableOk(fields) && StateFits(fields, st) && i < |fields| && j < |fields|
    requires DecodeField(fields, j, wireType, bs, st).Done? && SlotOf(fields, j) != SlotOf(fields, i)
    ensures SlotAt(fields, DecodeField(fields, j, wireType, bs, st).value.slots, i) == SlotAt(fields, st.slots, i)
  {
    hide DecodeValue, DecodeElements, TableOk, Skip, Find, Fits, SlotFits, ArrayAt;
  }

  /** A row keeps what it held when no record is for its storage. */
  lemma {:induction false} UnsentKept(fields: seq<Field>, bs: seq<byte>, st: State, i: nat)
    requires TableOk(fields) && StateFits(fields, st) && i < |fields| && DecodeLoop(fields, bs, st).Done?
    requires Unsent(fields, RowsReceived(fields, bs, st), i)
    ensures SlotAt(fields, DecodeLoop(fields, bs, st).value.slots, i) == SlotAt(fields, st.slots, i)
    decreases |bs|
  {
    hide DecodeRecord, ReadTag, TableOk, Find, Fits, SlotFits, SlotOf;
    if bs != [] && ReadTag(bs).Tag? {
      var t := ReadTag(bs);
      var p := DecodeRecord(fields, t.tag, t.wireType, t.rest, st);
      var row := Find(fields, t.tag);
      var later := RowsReceived(fields, p.rest, p.value);
      var first := if row.Some? then [row.value] else [];
      assert RowsReceived(fields, bs, st) == first + later;
      assert Unsent(fields, later, i) && Unsent(fields, first, i) by {
        UnsentParts(fields, first, later, i);
      }
      assert row.Some? ==> first[0] == row.value;
      RecordKeeps(fields, t.tag, t.wireType, t.rest, st, i);
      UnsentKept(fields, p.rest, p.value, i);
    }
  }

  lemma UnsentParts(fields: seq<Field>, first: seq<nat>, later: seq<nat>, i: nat)
    requires i < |fields| && Unsent(fields, first + later, i)
    ensures Unsent(fields, first, i) && Unsent(fields, later, i)
  {
    hide SlotOf;
    forall k | 0 <= k < |first| ensures (first + later)[k] == first[k] {
    }
    forall k | 0 <= k < |later| ensures (first + later)[|first| + k] == later[k] {
    }
  }

  /**
    * After pb_decode, a row that no record was for is unset and holds exactly the table's default value, or zero, and
    * so does every row inside it: whatever the memory held, and whatever else the input was.
    */
  lemma DefaultsArrive(fields: seq<Field>, bs: seq<byte>, memory: seq<Slot>, i: nat)
    requires TableOk(fields) && Fits(fields, memory) && i < |fields| && Decode(fields, bs, memory).Done?
    requires Unsent(fields, RowsReceived(fields, bs, Start(SetDefaults(fields, memory, 0))), i)
    ensures RowReady(fields[i], SlotAt(fields, Decode(fields, bs, memory).value, i))
  {
    hide DecodeLoop, SetDefaults, RowsReceived, Unsent, Fits, SlotFits, TableOk, RowReady;
    var d := SetDefaults(fields, memory, 0);
    DefaultsReady(fields, memory);
    UnsentKept(fields, bs, Start(d), i);
  }

  /**
    * The same inside a submessage that was sent: a row that no record in its block was for holds its default in an
    * array element and in a new union member, and keeps what it held in any other submessage.
    */
  lemma NestedDefaultsArrive(f: Field, bs: seq<byte>, s: Slot, was: Value, i: nat)
    requires FieldOk(f) && f.ltype.Submessage? && SlotFits(f, s) && ValueFits(f, was) && i < |f.ltype.fields|
    requires f.htype.Oneof? ==> was == UnionBefore(f, s)
    requires DecodeValue(f, bs, was).Done?
    requires var fields := f.ltype.fields;
      var before := if f.htype.Repeated? then SetDefaults(fields, was.slots, 0) else was.slots;
      Unsent(fields, RowsReceived(fields, ReadBlock(bs).value, Start(before)), i)
    ensures var row := SlotAt(f.ltype.fields, DecodeValue(f, bs, was).value.slots, i);
      if f.htype.Repeated? || f.htype.Oneof? then RowReady(f.ltype.fields[i], row)
      else row == SlotAt(f.ltype.fields, was.slots, i)
  {
    var fields := f.ltype.fields;
    var before := if f.htype.Repeated? then SetDefaults(fields, was.slots, 0) else was.slots;
    if f.htype.Repeated? {
      DefaultsReady(fields, was.slots);
    } else if f.htype.Oneof? {
      DefaultValueReady(f, ZeroValue(f));
    }
    hide DecodeLoop, SetDefaults, RowsReceived, Unsent, Fits, SlotFits, TableOk, RowReady, ReadBlock;
    UnsentKept(fields, ReadBlock(bs).value, Start(before), i);
  }

  /** The table of gdt_cct_NetworkConnectionInfo: two enumerations, the first with the default value -1. */
  const NETWORK_INFO := [
    Field(1, LType.Varint, Optional, 4, -4, 4, 0, Some(Num(-1))),
    Field(2, Uvarint, Optional, 4, -4, 4, 0, Some(Num(0)))]

  /** Nothing at all is decoded into used memory: both has-flags fall, and the default values are there. */
  lemma NetworkInfoDefaults()
    ensures TableOk(NETWORK_INFO)
    ensures var memory := [Slot(1, [Num(5)]), Slot(1, [Num(7)])];
      Fits(NETWORK_INFO, memory)
      && Decode(NETWORK_INFO, [], memory) == Done([Slot(0, [Num(-1)]), Slot(0, [Num(0)])], [])
  {
    var fields := NETWORK_INFO;
    var memory := [Slot(1, [Num(5)]), Slot(1, [Num(7)])];
    assert FieldOk(fields[0]) && FieldOk(fields[1]);
    assert SlotOf(fields, 0) == 0 && SlotOf(fields, 1) == 1;
    assert RowFits(fields, memory, 0) && RowFits(fields, memory, 1);
    DefaultsReady(fields, memory);
    var d := SetDefaults(fields, memory, 0);
    assert RowReady(fields[0], SlotAt(fields, d, 0)) && RowReady(fields[1], SlotAt(fields, d, 1));
    assert d == [Slot(0, [Num(-1)]), Slot(0, [Num(0)])];
    assert Complete(fields, Start(d));
  }
}
