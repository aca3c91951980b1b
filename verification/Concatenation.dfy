// Decoding one message behind another in the same input: the protocol's merge law, and when it fails.
module Concatenation {
  import opened Bits
  import opened Varints
  import opened Fields
  import opened Encoding
  import opened Decoding
  import opened Merging
  import opened MergeProof
  import opened Views
  import opened RoundTrip
  import opened MergeViews

  // ---- setting defaults is idempotent ----

  lemma {:induction false} RowOfSlot(fields: seq<Field>, n: nat, g: nat) returns (j: nat)
    requires 0 < n <= |fields| && g <= SlotOf(fields, n - 1)
    ensures j < n && SlotOf(fields, j) == g
  {
    if SlotOf(fields, n - 1) == g {
      j := n - 1;
    } else {
      j := RowOfSlot(fields, n - 1, g);
    }
  }

  /** Structs that agree on every row are equal. */
  lemma SameRows(fields: seq<Field>, a: seq<Slot>, b: seq<Slot>)
    requires Fits(fields, a) && Fits(fields, b)
    requires forall j | 0 <= j < |fields| :: SlotAt(fields, a, j) == SlotAt(fields, b, j)
    ensures a == b
  {
    hide RowFits, SlotFits;
    forall g | 0 <= g < |a| ensures a[g] == b[g] {
      var j := RowOfSlot(fields, |fields|, g);
      assert SlotAt(fields, a, j) == SlotAt(fields, b, j);
    }
  }

  lemma {:induction false} DefaultValueTwice(f: Field, v: Value)
    requires FieldOk(f) && ValueFits(f, v)
    ensures DefaultValue(f, DefaultValue(f, v)) == DefaultValue(f, v)
    decreases f, 0
  {
    if f.ltype.Submessage? {
      DefaultsTwice(f.ltype.fields, v.slots);
    }
  }

  lemma {:induction false} DefaultsTwice(fields: seq<Field>, x: seq<Slot>)
    requires TableOk(fields) && Fits(fields, x)
    ensures SetDefaults(fields, SetDefaults(fields, x, 0), 0) == SetDefaults(fields, x, 0)
    decreases fields
  {
    hide SetDefaults, FieldOk, SlotFits;
    var d := SetDefaults(fields, x, 0);
    forall j | 0 <= j < |fields| ensures SlotAt(fields, SetDefaults(fields, d, 0), j) == SlotAt(fields, d, j) {
      DefaultRow(fields, x, 0, j);
      DefaultRow(fields, d, 0, j);
      DefaultSlotTwice(fields[j], SlotAt(fields, x, j));
    }
    SameRows(fields, SetDefaults(fields, d, 0), d);
  }

  lemma DefaultSlotTwice(f: Field, s: Slot)
    requires FieldOk(f) && SlotFits(f, s)
    ensures DefaultSlot(f, DefaultSlot(f, s)) == DefaultSlot(f, s)
    decreases f, 1
  {
    hide DefaultValue, ValueFits;
    if f.htype.Required? || f.htype.Optional? {
      DefaultValueTwice(f, s.items[0]);
    }
  }

  // ---- absent submessages stay at their defaults ----

  lemma {:induction false} DefaultsAreClean(fields: seq<Field>, x: seq<Slot>)
    requires TableOk(fields) && Fits(fields, x)
    ensures Clean(fields, SetDefaults(fields, x, 0))
    decreases fields
  {
    hide SetDefaults, RowClean, FieldOk, SlotFits;
    var d := SetDefaults(fields, x, 0);
    forall j | 0 <= j < |fields| ensures FieldOk(fields[j]) && RowClean(fields[j], SlotAt(fields, d, j)) {
      DefaultRow(fields, x, 0, j);
      DefaultSlotClean(fields[j], SlotAt(fields, x, j));
    }
  }

  lemma DefaultSlotClean(f: Field, s: Slot)
    requires FieldOk(f) && SlotFits(f, s)
    ensures RowClean(f, DefaultSlot(f, s))
    decreases f, 1
  {
    hide Clean, SetDefaults;
    if f.ltype.Submessage? && (f.htype.Optional? || f.htype.Required?) {
      if f.htype.Optional? && f.sizeOffset != 0 {
        DefaultValueTwice(f, s.items[0]);
      } else {
        DefaultsAreClean(f.ltype.fields, s.items[0].slots);
      }
    }
  }

  lemma {:induction false} MergeStaysClean(fields: seq<Field>, a: seq<Slot>, b: seq<Slot>)
    requires TableOk(fields) && Fits(fields, a) && Fits(fields, b) && EncodeFrom(fields, b, 0).Some?
    requires Clean(fields, a) && MergeFrom(fields, a, b, 0).Some?
    ensures Clean(fields, MergeFrom(fields, a, b, 0).value)
    decreases fields
  {
    hide EncodeFrom, MergeFrom, RowClean, FieldOk, SlotFits;
    var r := MergeFrom(fields, a, b, 0).value;
    forall j | 0 <= j < |fields| ensures FieldOk(fields[j]) && RowClean(fields[j], SlotAt(fields, r, j)) {
      RowStaysClean(fields, a, b, j);
    }
  }

  lemma RowStaysClean(fields: seq<Field>, a: seq<Slot>, b: seq<Slot>, j: nat)
    requires TableOk(fields) && Fits(fields, a) && Fits(fields, b) && EncodeFrom(fields, b, 0).Some?
    requires Clean(fields, a) && MergeFrom(fields, a, b, 0).Some? && j < |fields|
    ensures FieldOk(fields[j]) && RowClean(fields[j], SlotAt(fields, MergeFrom(fields, a, b, 0).value, j))
    decreases fields, 0
  {
    hide EncodeFrom, EncodeField, MergeFrom, MergeSlot, RowClean, SlotFits;
    var f := fields[j];
    RowResult(fields, a, b, 0, j);
    if RowSent(fields, b, j) {
      SlotStaysClean(f, SlotAt(fields, a, j), SlotAt(fields, b, j));
    } else if f.htype.Oneof? {
      UnionIsClean(f, SlotAt(fields, MergeFrom(fields, a, b, 0).value, j));
    } else {
      forall k | 0 <= k < |fields| && SlotOf(fields, k) == SlotOf(fields, j) ensures !RowSent(fields, b, k) {
        if k != j { OneMemberSent(fields, b, k, j); }
      }
    }
  }

  lemma UnionIsClean(f: Field, s: Slot)
    requires FieldOk(f) && SlotFits(f, s) && f.htype.Oneof?
    ensures RowClean(f, s)
  {
  }

  lemma SlotStaysClean(f: Field, s: Slot, t: Slot)
    requires FieldOk(f) && SlotFits(f, s) && SlotFits(f, t) && EncodeField(f, t).Some? && !Absent(f, t)
    requires RowClean(f, s) && MergeSlot(f, s, t).Some?
    ensures RowClean(f, MergeSlot(f, s, t).value)
    decreases f
  {
    if f.ltype.Submessage? && (f.htype.Optional? || f.htype.Required?) {
      hide Clean, MergeFrom, SetDefaults, EncodeFrom;
      var fields := f.ltype.fields;
      var was := s.items[0].slots;
      if f.htype.Optional? && f.sizeOffset != 0 && s.size == 0 {
        DefaultsAreClean(fields, was);
        assert DefaultValue(f, s.items[0]) == Msg(SetDefaults(fields, was, 0));
      }
      assert MergeValue(f, s.items[0], t.items[0]).Some?;
      MergeStaysClean(fields, was, t.items[0].slots);
    }
  }

  // ---- one message behind another ----

  /** Row j is the table's only fixed-count array. */
  predicate LoneFixedCount(fields: seq<Field>, j: nat)
  {
    && j < |fields| && fields[j].FixedCount()
    && forall k | 0 <= k < |fields| && k != j :: !fields[k].FixedCount()
  }

  /**
    * A fixed-count array that was completed is not started afresh when it arrives again next:
    * the next row to be sent for it is refused, and nothing sent before gets in between.
    */
  lemma {:induction false} LoneFixedCountFails(
    fields: seq<Field>, b: seq<Slot>, i: nat, j: nat, tail: seq<byte>, st: State)
    requires TableOk(fields) && StateFits(fields, st) && Fits(fields, b) && LoneFixedCount(fields, j) && i <= j
    requires EncodeFrom(fields, b, i).Some? && |EncodeFrom(fields, b, i).value| < TWO_32
    requires st.fixedRow == Some(j) && st.fixedSize == fields[j].arraySize
    ensures DecodeLoop(fields, EncodeFrom(fields, b, i).value + tail, st).Fail?
    decreases j - i
  {
    hide DecodeLoop, StepRow, FieldOk;
    var f := fields[i];
    assert FieldOk(f);
    var first := EncodeField(f, SlotAt(fields, b, i)).value;
    var rest := EncodeFrom(fields, b, i + 1).value;
    assert first + rest + tail == first + (rest + tail);
    if f.htype.Repeated? {
      ArrayRowStep(fields, b, i, rest + tail, st);
    } else {
      SingleRowStep(fields, b, i, rest + tail, st);
    }
    if i == j {
      FullArrayRefuses(fields, b, i, st);
    } else {
      FixedCountUntouched(fields, b, i, st);
      if StepRow(fields, b, i, st).Some? {
        LoneFixedCountFails(fields, b, i + 1, j, tail, StepRow(fields, b, i, st).value);
      }
    }
  }

  lemma FullArrayRefuses(fields: seq<Field>, b: seq<Slot>, i: nat, st: State)
    requires TableOk(fields) && StateFits(fields, st) && Fits(fields, b) && i < |fields| && FieldOk(fields[i])
    requires fields[i].FixedCount() && st.fixedRow == Some(i) && st.fixedSize == fields[i].arraySize
    requires EncodeField(fields[i], SlotAt(fields, b, i)).Some?
    ensures StepRow(fields, b, i, st).None?
  {
    hide EncodeField, EncodeValue, MergeValue;
  }

  lemma FixedCountUntouched(fields: seq<Field>, b: seq<Slot>, i: nat, st: State)
    requires TableOk(fields) && StateFits(fields, st) && Fits(fields, b) && i < |fields| && FieldOk(fields[i])
    requires !fields[i].FixedCount()
    requires EncodeField(fields[i], SlotAt(fields, b, i)).Some?
    ensures StepRow(fields, b, i, st).Some? ==>
      && StepRow(fields, b, i, st).value.fixedRow == st.fixedRow
      && StepRow(fields, b, i, st).value.fixedSize == st.fixedSize
  {
    hide EncodeField, EncodeValue, MergeItems, MergeRow, FieldOk, TableOk;
  }

  /** The decoder after the first message, and what becomes of the second. */
  lemma SecondMessage(fields: seq<Field>, b: seq<Slot>, st: State)
    requires TableOk(fields) && StateFits(fields, st) && Fits(fields, b)
    requires EncodeFrom(fields, b, 0).Some? && |EncodeFrom(fields, b, 0).value| < TWO_32
    requires SentBefore(fields, |fields|, st)
    ensures (exists j :: LoneFixedCount(fields, j)) ==> DecodeLoop(fields, EncodeFrom(fields, b, 0).value, st).Fail?
    ensures !(exists j :: LoneFixedCount(fields, j)) ==>
      match MergeFrom(fields, st.slots, b, 0)
      case None => DecodeLoop(fields, EncodeFrom(fields, b, 0).value, st).Fail?
      case Some(slots) =>
        var p := DecodeLoop(fields, EncodeFrom(fields, b, 0).value, st);
        p.Done? && p.rest == [] && p.value.slots == slots && Complete(fields, p.value)
  {
    hide EncodeFrom, MergeFrom, StepRow, TableOk, Fits;
    var bs := EncodeFrom(fields, b, 0).value;
    assert bs + [] == bs;
    if j :| LoneFixedCount(fields, j) {
      LoneFixedCountFails(fields, b, 0, j, [], st);
    } else {
      if st.fixedRow.Some? {
        var v := st.fixedRow.value;
        assert !LoneFixedCount(fields, v);
      }
      var st' := RowsStep(fields, b, 0, [], st);
    }
  }

  /**
    * pb_decode of the encoding of a followed by the encoding of b shows a merged with b, as the
    * protocol says of concatenated messages. It fails exactly when a sent string fills its buffer, an
    * array overflows, or the table has exactly one fixed-count array.
    */
  lemma ConcatenationMerges(fields: seq<Field>, a: seq<Slot>, b: seq<Slot>, memory: seq<Slot>)
    requires TableOk(fields) && Fits(fields, a) && Fits(fields, b) && Fits(fields, memory)
    requires Encode(fields, a).Some? && |Encode(fields, a).value| < TWO_32
    requires Encode(fields, b).Some? && |Encode(fields, b).value| < TWO_32
    ensures var p := Decode(fields, Encode(fields, a).value + Encode(fields, b).value, memory);
      var x := View(fields, a); var y := View(fields, b);
      && (p.Done? <==> Terminated(fields, a) && Terminated(fields, b) && !Overflows(fields, x, y)
                       && !exists j :: LoneFixedCount(fields, j))
      && (p.Done? ==> p.rest == [] && View(fields, p.value) == MergeRows(fields, x, y, |fields|))
  {
    hide EncodeFrom, MergeFrom, SetDefaults, DecodeLoop, TableOk, Fits, View, Terminated, Overflows, MergeRows, Clean,
         Complete, LoneFixedCount;
    var d := SetDefaults(fields, memory, 0);
    RoundMessage(fields, memory, a);
    var st := RowsStep(fields, a, 0, Encode(fields, b).value, Start(d));
    if MergeFrom(fields, d, a, 0).Some? {
      DefaultsAreClean(fields, memory);
      MergeStaysClean(fields, d, a);
      SecondMessage(fields, b, st);
      MessageMerge(fields, st.slots, b);
    }
  }

  /** A table of one fixed-count array: a message is decoded, and twice the same message is refused. */
  lemma TwiceOneArrayIsRefused()
    ensures exists fields, a ::
      && TableOk(fields) && Fits(fields, a) && Encode(fields, a).Some?
      && Decode(fields, Encode(fields, a).value, a).Done?
      && Decode(fields, Encode(fields, a).value + Encode(fields, a).value, a).Fail?
  {
    var f := Field(1, Uvarint, Repeated, 0, 0, 1, 1, None);
    var fields := [f];
    var a := [Slot(0, [Num(1)])];
    assert SlotOf(fields, 0) == 0;
    assert FieldOk(f) && TableOk(fields);
    assert ValueFits(f, Num(1)) && SlotFits(f, a[0]) && RowFits(fields, a, 0) && Fits(fields, a);
    assert SlotAt(fields, a, 0) == a[0] && EncodeFrom(fields, a, 1) == Some([]);
    var items := a[0].items[..Count(f, a[0])];
    assert items == [Num(1)] && items[1..] == [];
    assert EncodeValue(f, Num(1)) == Some([1]);
    assert PackedData(f, items) == Join(EncodeValue(f, items[0]), PackedData(f, items[1..]));
    assert PackedData(f, items) == Some([1] + []) && [1] + [] == [1];
    assert Varints.Varint(10) == [10] && Varints.Varint(1) == [1];
    assert EncodeField(f, a[0]) == Some([10] + ([1] + [1]));
    assert EncodeFrom(fields, a, 0) == Join(EncodeField(fields[0], SlotAt(fields, a, 0)), EncodeFrom(fields, a, 1));
    assert LoneFixedCount(fields, 0);
    hide Encode, Decode;
    assert RowTerminated(f, SlotAt(fields, a, 0));
    EncodeDecode(fields, a, a);
    ConcatenationMerges(fields, a, a, a);
  }
}
