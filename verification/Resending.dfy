// Whatever the decoder accepts, the encoder can send again, and it arrives as the same struct.
module Resending {
  import opened Bits
  import opened Varints
  import opened Fields
  import opened Scalars
  import opened Tidiness
  import opened Encoding
  import opened Decoding
  import opened Views
  import opened RoundTrip

  /** Default values are tidy, and every string buffer has room for its NUL. */
  predicate DefaultsTidy(fields: seq<Field>)
    requires TableOk(fields)
    decreases fields
  {
    forall i | 0 <= i < |fields| :: FieldOk(fields[i]) && DefaultTidy(fields[i])
  }

  predicate DefaultTidy(f: Field)
    requires FieldOk(f)
    decreases f
  {
    && (f.ltype.String? ==> f.dataSize > 0)
    && (f.initial.Some? ==> ValueTidy(f, f.initial.value))
    && (f.ltype.Submessage? ==> DefaultsTidy(f.ltype.fields))
  }

  // ---- tidy content is usable memory ----

  lemma {:induction false} ValueTidyUsable(f: Field, v: Value)
    requires ValueFits(f, v) && ValueTidy(f, v)
    ensures ValueUsable(f, v)
    decreases f, 0
  {
    if f.ltype.Submessage? {
      var fields := f.ltype.fields;
      forall i | 0 <= i < |fields| ensures SlotUsable(fields[i], SlotAt(fields, v.slots, i)) {
        SlotTidyUsable(fields[i], SlotAt(fields, v.slots, i));
      }
    }
  }

  lemma {:induction false} SlotTidyUsable(f: Field, s: Slot)
    requires SlotFits(f, s) && SlotTidy(f, s)
    ensures SlotUsable(f, s)
    decreases f, 1
  {
    hide ValueTidy, ValueUsable, ValueFits;
    match f.htype
    case Required | Optional => ValueTidyUsable(f, s.items[0]);
    case Repeated =>
      forall k | 0 <= k < |s.items| && k < Count(f, s) ensures ValueUsable(f, s.items[k]) {
        ValueTidyUsable(f, s.items[k]);
      }
    case Oneof =>
  }

  // ---- zeroed storage is tidy ----

  /** Zeroed storage of a row with a slot of its own. */
  lemma {:induction false} ZeroRowAt(fields: seq<Field>, n: nat, i: nat)
    requires TableOk(fields) && i < n <= |fields| && !fields[i].htype.Oneof?
    ensures FieldOk(fields[i])
    ensures SlotOf(fields, i) < |ZeroRows(fields, n)| && ZeroRows(fields, n)[SlotOf(fields, i)] == ZeroSlot(fields[i])
    decreases n
  {
    hide FieldOk, ZeroSlot, RowsFit;
    TableRow(fields, i);
    if i < n - 1 {
      ZeroRowAt(fields, n - 1, i);
    }
  }

  lemma {:induction false} ZeroTidy(f: Field)
    requires FieldOk(f) && DefaultTidy(f)
    ensures ValueTidy(f, ZeroValue(f))
    decreases f, 0
  {
    if f.ltype.Submessage? {
      var fields := f.ltype.fields;
      var slots := ZeroRows(fields, |fields|);
      assert ZeroValue(f) == Msg(slots) && Fits(fields, slots) by {
        assert ValueFits(f, ZeroValue(f));
      }
      forall i | 0 <= i < |fields| ensures SlotTidy(fields[i], SlotAt(fields, slots, i)) {
        assert FieldOk(fields[i]) && DefaultTidy(fields[i]);
        ZeroSlotTidy(fields[i]);
        var s := SlotAt(fields, slots, i);
        if fields[i].htype.Oneof? {
          assert RowsFit(fields, |fields|, slots);
          assert s == slots[SlotOf(fields, i)] && s.size == 0;
        } else {
          ZeroRowAt(fields, |fields|, i);
        }
      }
    }
  }

  lemma ZeroSlotTidy(f: Field)
    requires FieldOk(f) && DefaultTidy(f)
    ensures SlotTidy(f, ZeroSlot(f))
    decreases f, 1
  {
    hide ValueTidy, ValueUsable, ValueFits, ZeroValue, DefaultTidy;
    ZeroTidy(f);
    ValueTidyUsable(f, ZeroValue(f));
  }

  // ---- defaults are tidy ----

  lemma {:induction false} DefaultsMakeTidy(fields: seq<Field>, x: seq<Slot>)
    requires TableOk(fields) && DefaultsTidy(fields) && Fits(fields, x) && Usable(fields, x)
    ensures Tidy(fields, SetDefaults(fields, x, 0))
    decreases fields
  {
    hide SetDefaults, FieldOk, SlotFits, SlotTidy, SlotUsable, DefaultTidy;
    var d := SetDefaults(fields, x, 0);
    forall i | 0 <= i < |fields| ensures SlotTidy(fields[i], SlotAt(fields, d, i)) {
      DefaultRow(fields, x, 0, i);
      DefaultSlotTidy(fields[i], SlotAt(fields, x, i));
    }
  }

  lemma DefaultSlotTidy(f: Field, s: Slot)
    requires FieldOk(f) && DefaultTidy(f) && SlotFits(f, s) && SlotUsable(f, s)
    ensures SlotTidy(f, DefaultSlot(f, s))
    decreases f, 1
  {
    if f.htype.Required? || f.htype.Optional? {
      DefaultValueTidy(f, s.items[0]);
    } else if f.FixedCount() {
      assert SlotTidy(f, s);
    }
  }

  lemma DefaultValueTidy(f: Field, v: Value)
    requires FieldOk(f) && DefaultTidy(f) && ValueFits(f, v) && ValueUsable(f, v)
    ensures ValueTidy(f, DefaultValue(f, v))
    decreases f, 0
  {
    if f.ltype.Submessage? {
      DefaultsMakeTidy(f.ltype.fields, v.slots);
    } else {
      ZeroTidy(f);
    }
  }

  // ---- decoding keeps content tidy ----

  /** A tidy row's slot in place of the old one leaves the struct tidy. */
  lemma PutTidy(fields: seq<Field>, slots: seq<Slot>, i: nat, s: Slot)
    requires TableOk(fields) && Fits(fields, slots) && Tidy(fields, slots) && i < |fields|
    requires SlotFits(fields[i], s) && SlotTidy(fields[i], s)
    requires fields[i].htype.Oneof? ==> s.size == fields[i].tag
    ensures Tidy(fields, Put(fields, slots, i, s))
  {
    hide SlotTidy, FieldOk, SlotFits;
    forall j | 0 <= j < |fields| ensures SlotTidy(fields[j], SlotAt(fields, Put(fields, slots, i, s), j)) {
      PutSeen(fields, slots, i, s, j);
      if j != i && SlotOf(fields, j) == SlotOf(fields, i) {
        if j < i { SharedSlotIsUnion(fields, j, i); } else { SharedSlotIsUnion(fields, i, j); }
        OtherMemberTidy(fields[j], SlotAt(fields, Put(fields, slots, i, s), j));
      }
    }
  }

  lemma OtherMemberTidy(f: Field, s: Slot)
    requires f.htype.Oneof? && SlotFits(f, s) && s.size != f.tag
    ensures SlotTidy(f, s)
  {
  }

  /** A row's elements are tidy as far as they count, and all of them for a fixed-count array. */
  predicate ElementsTidy(f: Field, e: Elements)
    requires ElementsFit(f, e)
  {
    && (!f.FixedCount() ==> e.count <= |e.items|)
    && forall k | 0 <= k < |e.items| ::
         if f.FixedCount() || k < e.count then ValueTidy(f, e.items[k]) else ValueUsable(f, e.items[k])
  }

  lemma {:induction false} ReadPackedTidy(f: Field, block: seq<byte>, e: Elements)
    requires f.htype.Repeated? && f.ltype.Packable() && ElementsFit(f, e) && ElementsTidy(f, e)
    requires ReadPacked(f, block, e).Some?
    ensures ElementsTidy(f, ReadPacked(f, block, e).value)
  {
    var r := ReadPacked(f, block, e).value;
    hide ReadPacked, ValueFits;
    assert r.count == e.count || r.count <= f.arraySize;
  }

  lemma {:induction false} DecodeValueTidy(f: Field, bs: seq<byte>, was: Value)
    requires FieldOk(f) && DefaultTidy(f) && ValueFits(f, was) && DecodeValue(f, bs, was).Done?
    requires if f.htype.Repeated? then ValueUsable(f, was) else f.ltype.Submessage? ==> ValueTidy(f, was)
    ensures ValueTidy(f, DecodeValue(f, bs, was).value)
    decreases |bs|, 0
  {
    match f.ltype
    case String => StringTidy(f, bs, was);
    case Submessage(fields) =>
      var block := ReadBlock(bs).value;
      if f.htype.Repeated? {
        DefaultsMakeTidy(fields, was.slots);
        DecodeNoinitTidy(fields, block, SetDefaults(fields, was.slots, 0));
      } else {
        DecodeNoinitTidy(fields, block, was.slots);
      }
    case _ =>
  }

  lemma StringTidy(f: Field, bs: seq<byte>, was: Value)
    requires f.ltype.String? && ValueFits(f, was) && ReadStringField(f, bs, was).Done?
    ensures ValueTidy(f, ReadStringField(f, bs, was).value)
  {
    var n := ReadVarint32(bs).value;
    assert ReadStringField(f, bs, was).value.data[n] == 0;
  }

  lemma DecodeElementsTidy(f: Field, wireType: nat, bs: seq<byte>, e: Elements)
    requires FieldOk(f) && DefaultTidy(f) && f.htype.Repeated? && ElementsFit(f, e) && ElementsTidy(f, e)
    requires DecodeElements(f, wireType, bs, e).Done?
    ensures ElementsTidy(f, DecodeElements(f, wireType, bs, e).value)
    decreases |bs|, 1
  {
    hide DecodeValue, ReadBlock, ReadPacked, ValueTidy, ValueUsable, ValueFits, DefaultTidy;
    if wireType == WT_STRING && f.ltype.Packable() {
      ReadPackedTidy(f, ReadBlock(bs).value, e);
    } else {
      if f.FixedCount() {
        ValueTidyUsable(f, e.items[e.count]);
      }
      DecodeValueTidy(f, bs, e.items[e.count]);
    }
  }

  lemma DecodeFieldTidy(fields: seq<Field>, i: nat, wireType: nat, bs: seq<byte>, st: State)
    requires TableOk(fields) && DefaultsTidy(fields) && i < |fields| && StateFits(fields, st)
    requires Tidy(fields, st.slots) && DecodeField(fields, i, wireType, bs, st).Done?
    ensures Tidy(fields, DecodeField(fields, i, wireType, bs, st).value.slots)
    decreases |bs|, 2
  {
    TableRow(fields, i);
    var f := fields[i];
    assert DefaultTidy(f);
    var s := SlotAt(fields, st.slots, i);
    assert SlotTidy(f, s);
    var s' := SlotAt(fields, DecodeField(fields, i, wireType, bs, st).value.slots, i);
    hide Tidy, TableOk, DefaultTidy, DefaultsTidy;
    if f.htype.Repeated? {
      hide DecodeElements;
      var e := ArrayAt(fields, Enter(fields, st, i).value, i);
      assert ElementsTidy(f, e);
      DecodeElementsTidy(f, wireType, bs, e);
    } else {
      hide DecodeValue, ValueTidy;
      var was := if f.htype.Oneof? then UnionBefore(f, s) else s.items[0];
      if f.htype.Oneof? {
        UnionBeforeTidy(f, s);
      }
      DecodeValueTidy(f, bs, was);
    }
    PutTidy(fields, st.slots, i, s');
  }

  lemma UnionBeforeTidy(f: Field, s: Slot)
    requires FieldOk(f) && DefaultTidy(f) && f.htype.Oneof? && SlotFits(f, s)
    ensures f.ltype.Submessage? ==> ValueTidy(f, UnionBefore(f, s))
  {
    if f.ltype.Submessage? {
      ZeroTidy(f);
      ValueTidyUsable(f, ZeroValue(f));
      DefaultValueTidy(f, ZeroValue(f));
    }
  }

  lemma {:induction false} DecodeLoopTidy(fields: seq<Field>, bs: seq<byte>, st: State)
    requires TableOk(fields) && DefaultsTidy(fields) && StateFits(fields, st)
    requires Tidy(fields, st.slots) && DecodeLoop(fields, bs, st).Done?
    ensures Tidy(fields, DecodeLoop(fields, bs, st).value.slots)
    decreases |bs|, 3
  {
    hide DecodeField, ReadTag, TableOk, DefaultsTidy, Tidy, Skip, Find;
    if bs != [] && ReadTag(bs).Tag? {
      var t := ReadTag(bs);
      var p := DecodeRecord(fields, t.tag, t.wireType, t.rest, st);
      if Find(fields, t.tag).Some? {
        DecodeFieldTidy(fields, Find(fields, t.tag).value, t.wireType, t.rest, st);
      }
      DecodeLoopTidy(fields, p.rest, p.value);
    }
  }

  lemma DecodeNoinitTidy(fields: seq<Field>, bs: seq<byte>, slots: seq<Slot>)
    requires TableOk(fields) && DefaultsTidy(fields) && Fits(fields, slots)
    requires Tidy(fields, slots) && DecodeNoinit(fields, bs, slots).Done?
    ensures Tidy(fields, DecodeNoinit(fields, bs, slots).value)
    decreases |bs|, 4
  {
    hide DecodeLoop, TableOk, DefaultsTidy, Tidy;
    DecodeLoopTidy(fields, bs, Start(slots));
  }

  // ---- tidy structs can be sent ----

  lemma {:induction false} ValueSends(f: Field, v: Value)
    requires FieldOk(f) && ValueFits(f, v) && ValueTidy(f, v)
    ensures EncodeValue(f, v).Some? && ValueTerminated(f, v)
    decreases f, 0
  {
    if f.ltype.Submessage? {
      TidySends(f.ltype.fields, v.slots);
    }
  }

  lemma SlotSends(f: Field, s: Slot)
    requires FieldOk(f) && SlotFits(f, s) && SlotTidy(f, s)
    ensures EncodeField(f, s).Some? && RowTerminated(f, s)
    decreases f, 2
  {
    hide EncodeValue, ValueTerminated, ValueTidy, ValueUsable, ValueFits, FieldOk;
    if f.htype.Repeated? {
      var items := s.items[..Count(f, s)];
      forall k | 0 <= k < |items| ensures EncodeValue(f, items[k]).Some? && ValueTerminated(f, items[k]) {
        ValueSends(f, items[k]);
      }
      ItemsSend(f, items);
      forall k | 0 <= k < Count(f, s) ensures ValueTerminated(f, s.items[k]) {
        assert items[k] == s.items[k];
      }
    } else if f.htype.Oneof? {
      if s.size == f.tag {
        ValueSends(f, s.items[0]);
      }
    } else {
      ValueSends(f, s.items[0]);
    }
  }

  lemma {:induction false} ItemsSend(f: Field, items: seq<Value>)
    requires forall k | 0 <= k < |items| :: ValueFits(f, items[k]) && EncodeValue(f, items[k]).Some?
    ensures PackedData(f, items).Some? && Tagged(f, items).Some?
    decreases |items|
  {
    hide EncodeValue, ValueFits;
    if items != [] {
      ItemsSend(f, items[1..]);
    }
  }

  lemma {:induction false} TidySends(fields: seq<Field>, slots: seq<Slot>)
    requires TableOk(fields) && Fits(fields, slots) && Tidy(fields, slots)
    ensures EncodeFrom(fields, slots, 0).Some? && Terminated(fields, slots)
    decreases fields
  {
    hide EncodeFrom, EncodeField, RowTerminated, SlotTidy, SlotFits, FieldOk;
    forall i | 0 <= i < |fields|
      ensures EncodeField(fields[i], SlotAt(fields, slots, i)).Some?
      ensures RowTerminated(fields[i], SlotAt(fields, slots, i))
    {
      TableRow(fields, i);
      SlotSends(fields[i], SlotAt(fields, slots, i));
    }
    RowsSend(fields, slots, 0);
  }

  lemma {:induction false} RowsSend(fields: seq<Field>, slots: seq<Slot>, i: nat)
    requires Fits(fields, slots) && i <= |fields|
    requires forall j | 0 <= j < |fields| :: EncodeField(fields[j], SlotAt(fields, slots, j)).Some?
    ensures EncodeFrom(fields, slots, i).Some?
    decreases |fields| - i
  {
    hide EncodeField;
    if i < |fields| {
      RowsSend(fields, slots, i + 1);
    }
  }

  /**
    * Whatever pb_decode accepts, from arbitrary bytes into any usable memory, can be encoded; and decoding that
    * encoding, into any other memory, shows the same struct again.
    */
  lemma DecodedResends(fields: seq<Field>, bs: seq<byte>, memory: seq<Slot>, again: seq<Slot>)
    requires TableOk(fields) && DefaultsTidy(fields) && Fits(fields, memory) && Usable(fields, memory)
    requires Fits(fields, again) && Decode(fields, bs, memory).Done?
    ensures var slots := Decode(fields, bs, memory).value;
      && Encode(fields, slots).Some? && Terminated(fields, slots)
      && (|Encode(fields, slots).value| < TWO_32 ==>
            var p := Decode(fields, Encode(fields, slots).value, again);
            p.Done? && p.rest == [] && View(fields, p.value) == View(fields, slots))
  {
    hide DecodeNoinit, SetDefaults, EncodeFrom, Terminated, Tidy, Usable, TableOk, DefaultsTidy, View;
    var slots := Decode(fields, bs, memory).value;
    DefaultsMakeTidy(fields, memory);
    DecodeNoinitTidy(fields, bs, SetDefaults(fields, memory, 0));
    TidySends(fields, slots);
    if |Encode(fields, slots).value| < TWO_32 {
      hide Encode, Decode;
      EncodeDecode(fields, slots, again);
    }
  }
}
