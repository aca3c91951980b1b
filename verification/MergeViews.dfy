// The merge in terms of what a caller observes, and exactly when it overflows.
module MergeViews {
  import opened Varints
  import opened Fields
  import opened Encoding
  import opened Decoding
  import opened Merging
  import opened MergeProof
  import opened Views
  import opened RoundTrip

  // ---- the protocol's merge rule, on observable values ----

  /** Scalars are replaced; nested messages are merged. */
  function MergeObs(f: Field, x: Obs, y: Obs): Obs
    decreases f, 0
  {
    if f.ltype.Submessage? && x.OMsg? && y.OMsg? && |x.rows| == |f.ltype.fields| == |y.rows| then
      OMsg(MergeRows(f.ltype.fields, x.rows, y.rows, |y.rows|))
    else y
  }

  /** A proto3 scalar that is not sent. */
  predicate ZeroObs(f: Field, y: Obs)
  {
    match f.ltype
    case Bytes | String => y == OBytes([])
    case FixedLengthBytes => f.dataSize == 0
    case Submessage(_) => false
    case _ => y == ONum(0)
  }

  /** Row of the merged message; shadowed says that another member of the same union was sent. */
  function MergeRowObs(f: Field, x: seq<Obs>, y: seq<Obs>, shadowed: bool): seq<Obs>
    decreases f, 1
  {
    match f.htype
    case Repeated => if f.FixedCount() then y else x + y
    case Oneof => if y != [] then y else if shadowed then [] else x
    case _ =>
      if y == [] then x
      else if x == [] then y
      else if f.Singular() && ZeroObs(f, y[0]) then x
      else [MergeObs(f, x[0], y[0])]
  }

  predicate Shadowed(fields: seq<Field>, y: seq<seq<Obs>>, i: nat)
    requires |y| == |fields| && i < |fields|
  {
    exists k | 0 <= k < |fields| :: SlotOf(fields, k) == SlotOf(fields, i) && y[k] != []
  }

  function MergeRows(fields: seq<Field>, x: seq<seq<Obs>>, y: seq<seq<Obs>>, n: nat): (r: seq<seq<Obs>>)
    requires |x| == |y| == |fields| && n <= |fields|
    ensures |r| == n
    ensures forall i | 0 <= i < n :: r[i] == MergeRowObs(fields[i], x[i], y[i], Shadowed(fields, y, i))
    decreases fields, n
  {
    if n == 0 then []
    else
      MergeRows(fields, x, y, n - 1)
      + [MergeRowObs(fields[n - 1], x[n - 1], y[n - 1], Shadowed(fields, y, n - 1))]
  }

  /** Some array, here or in a nested message that is merged, would outgrow its storage. */
  predicate RowOverflows(f: Field, x: seq<Obs>, y: seq<Obs>)
    decreases f, 0
  {
    match f.htype
    case Repeated => !f.FixedCount() && y != [] && |x| + |y| > f.arraySize
    case Oneof => false
    case _ =>
      && f.ltype.Submessage? && x != [] && y != [] && x[0].OMsg? && y[0].OMsg?
      && Overflows(f.ltype.fields, x[0].rows, y[0].rows)
  }

  predicate Overflows(fields: seq<Field>, x: seq<seq<Obs>>, y: seq<seq<Obs>>)
    decreases fields
  {
    |x| == |y| == |fields| && exists i | 0 <= i < |fields| :: RowOverflows(fields[i], x[i], y[i])
  }

  // ---- absent submessages at their defaults ----

  function Nested(f: Field, v: Value): (slots: seq<Slot>)
    requires f.ltype.Submessage? && ValueFits(f, v)
    ensures v == Msg(slots) && Fits(f.ltype.fields, slots)
  {
    v.slots
  }

  predicate RowClean(f: Field, s: Slot)
    requires FieldOk(f) && SlotFits(f, s)
    decreases f, 1
  {
    f.ltype.Submessage? && (f.htype.Optional? || f.htype.Required?) ==>
      if f.htype.Optional? && f.sizeOffset != 0 && s.size == 0 then s.items[0] == DefaultValue(f, s.items[0])
      else TableOk(f.ltype.fields) && Clean(f.ltype.fields, Nested(f, s.items[0]))
  }

  /** Absent submessages hold their default values, as after pb_message_set_to_defaults. */
  predicate Clean(fields: seq<Field>, slots: seq<Slot>)
    requires TableOk(fields) && Fits(fields, slots)
    decreases fields, 0
  {
    forall i | 0 <= i < |fields| :: RowClean(fields[i], SlotAt(fields, slots, i))
  }

  // ---- rows that are not sent ----

  lemma SlotViewOfOne(f: Field, s: Slot)
    requires !f.htype.Repeated? && SlotFits(f, s) && (f.htype.Oneof? ==> s.size == f.tag)
    ensures ViewItems(f, s.items) == [ViewValue(f, s.items[0])]
  {
  }

  /** Merging a proto3 submessage that was left out because it is zero would change nothing. */
  lemma {:induction false} ZeroMerge(f: Field, u: Value, v: Value)
    requires FieldOk(f) && f.Singular() && f.ltype.Submessage?
    requires ValueFits(f, u) && ValueFits(f, v) && IsZero(f, v)
    ensures MergeObs(f, ViewValue(f, u), ViewValue(f, v)) == ViewValue(f, u)
    ensures !Overflows(f.ltype.fields, View(f.ltype.fields, Nested(f, u)), View(f.ltype.fields, Nested(f, v)))
    decreases f, 0
  {
    var fields := f.ltype.fields;
    var x := View(fields, Nested(f, u));
    var y := View(fields, Nested(f, v));
    forall i | 0 <= i < |fields|
      ensures MergeRowObs(fields[i], x[i], y[i], Shadowed(fields, y, i)) == x[i]
      ensures !RowOverflows(fields[i], x[i], y[i])
    {
      ZeroRowMerge(fields, u.slots, v.slots, i);
    }
    assert MergeRows(fields, x, y, |y|) == x;
  }

  lemma ZeroRowMerge(fields: seq<Field>, a: seq<Slot>, b: seq<Slot>, i: nat)
    requires TableOk(fields) && NoFixedCount(fields) && Fits(fields, a) && Fits(fields, b) && i < |fields|
    requires forall k | 0 <= k < |fields| :: IsDefault(fields[k], SlotAt(fields, b, k))
    ensures var x := View(fields, a); var y := View(fields, b);
      && MergeRowObs(fields[i], x[i], y[i], Shadowed(fields, y, i)) == x[i]
      && !RowOverflows(fields[i], x[i], y[i])
    decreases fields, 0
  {
    var f := fields[i];
    assert FieldOk(f) && !f.FixedCount();
    var s := SlotAt(fields, a, i);
    var t := SlotAt(fields, b, i);
    assert IsDefault(f, t);
    if f.Singular() {
      hide TableOk, NoFixedCount, IsDefault, View, FieldOk;
      ZeroSingleMerge(f, s, t);
    } else {
      NothingShadows(fields, b, i);
      hide TableOk, NoFixedCount, ViewItems, FieldOk;
    }
  }

  lemma ZeroSingleMerge(f: Field, s: Slot, t: Slot)
    requires FieldOk(f) && f.Singular() && SlotFits(f, s) && SlotFits(f, t) && IsZero(f, t.items[0])
    ensures MergeRowObs(f, ViewRow(f, s), ViewRow(f, t), false) == ViewRow(f, s)
    ensures MergeRowObs(f, ViewRow(f, s), ViewRow(f, t), true) == ViewRow(f, s)
    ensures !RowOverflows(f, ViewRow(f, s), ViewRow(f, t))
    decreases f, 1
  {
    hide FieldOk;
    SlotViewOfOne(f, s);
    SlotViewOfOne(f, t);
    if f.ltype.Submessage? {
      ZeroMerge(f, s.items[0], t.items[0]);
    }
  }

  lemma NothingShadows(fields: seq<Field>, b: seq<Slot>, i: nat)
    requires TableOk(fields) && Fits(fields, b) && i < |fields| && !fields[i].Singular()
    requires forall k | 0 <= k < |fields| :: IsDefault(fields[k], SlotAt(fields, b, k))
    requires NoFixedCount(fields)
    ensures !Shadowed(fields, View(fields, b), i)
    ensures View(fields, b)[i] == []
  {
    hide SlotFits, ViewItems;
    forall k | 0 <= k < |fields| && SlotOf(fields, k) == SlotOf(fields, i) ensures View(fields, b)[k] == [] {
      assert IsDefault(fields[k], SlotAt(fields, b, k));
      assert FieldOk(fields[k]);
      if k != i {
        if k < i { SharedSlotIsUnion(fields, k, i); } else { SharedSlotIsUnion(fields, i, k); }
      }
      EmptyRow(fields[k], SlotAt(fields, b, k));
    }
  }

  lemma EmptyRow(f: Field, t: Slot)
    requires FieldOk(f) && SlotFits(f, t) && !f.Singular() && !f.FixedCount() && IsDefault(f, t)
    ensures ViewRow(f, t) == []
  {
  }

  // ---- rows that are sent ----

  lemma ArrayMerge(f: Field, s: Slot, t: Slot, shadowed: bool)
    requires FieldOk(f) && f.htype.Repeated? && SlotFits(f, s) && SlotFits(f, t) && EncodeField(f, t).Some?
    ensures MergeSlot(f, s, t).Some? <==> RowTerminated(f, t) && !RowOverflows(f, ViewRow(f, s), ViewRow(f, t))
    ensures MergeSlot(f, s, t).Some? ==>
      ViewRow(f, MergeSlot(f, s, t).value) == MergeRowObs(f, ViewRow(f, s), ViewRow(f, t), shadowed)
    decreases f, 2
  {
    if f.FixedCount() {
      hide EncodeField, EncodeValue, ViewValue, ValueTerminated, ValueFits, MergeItems;
      ArrayEncodable(f, t);
      ArrayRound(f, s, t);
    } else {
      CountedArrayMerge(f, s, t, shadowed);
    }
  }

  lemma CountedArrayMerge(f: Field, s: Slot, t: Slot, shadowed: bool)
    requires FieldOk(f) && f.htype.Repeated? && SlotFits(f, s) && SlotFits(f, t) && EncodeField(f, t).Some?
    requires !f.FixedCount()
    ensures MergeSlot(f, s, t).Some? <==> RowTerminated(f, t) && !RowOverflows(f, ViewRow(f, s), ViewRow(f, t))
    ensures MergeSlot(f, s, t).Some? ==>
      ViewRow(f, MergeSlot(f, s, t).value) == MergeRowObs(f, ViewRow(f, s), ViewRow(f, t), shadowed)
    decreases f, 2
  {
    hide EncodeField, EncodeValue, ViewValue, ValueTerminated, ValueFits, MergeItems;
    ArrayEncodable(f, t);
    var items := t.items[..t.size];
    var e := Elements(s.items, s.size);
    RoundItems(f, e, items);
    if t.size == 0 {
      NothingMerged(f, e);
      assert items == [];
    } else if MergeItems(f, e, items).Some? {
      AppendedView(f, e, items, MergeItems(f, e, items).value);
    }
  }

  lemma AppendedView(f: Field, e: Elements, items: seq<Value>, r: Elements)
    requires ElementsFit(f, e) && ElementsFit(f, r) && r.count == e.count + |items| <= f.arraySize
    requires forall k | 0 <= k < |items| :: ValueFits(f, items[k])
    requires Landed(f, e, items, r)
    ensures ViewItems(f, r.items[..r.count]) == ViewItems(f, e.items[..e.count]) + ViewItems(f, items)
  {
    hide ViewValue, ValueFits;
  }

  /** A sent value merges with what is there; a nested message is merged row by row. */
  lemma {:induction false} ValueMerge(f: Field, u: Value, v: Value)
    requires FieldOk(f) && !f.htype.Repeated? && ValueFits(f, u) && ValueFits(f, v) && EncodeValue(f, v).Some?
    requires f.ltype.Submessage? ==> TableOk(f.ltype.fields) && Clean(f.ltype.fields, Nested(f, u))
    ensures MergeValue(f, u, v).Some? <==>
      && ValueTerminated(f, v)
      && (f.ltype.Submessage? ==>
            !Overflows(f.ltype.fields, View(f.ltype.fields, Nested(f, u)), View(f.ltype.fields, Nested(f, v))))
    ensures MergeValue(f, u, v).Some? ==>
      ViewValue(f, MergeValue(f, u, v).value) == MergeObs(f, ViewValue(f, u), ViewValue(f, v))
    decreases f, 0
  {
    if f.ltype.Submessage? {
      MessageMerge(f.ltype.fields, u.slots, v.slots);
    } else {
      RoundValue(f, u, v);
    }
  }

  lemma PresentIsNotZero(f: Field, v: Value)
    requires ValueFits(f, v) && EncodeValue(f, v).Some? && !IsZero(f, v)
    ensures !ZeroObs(f, ViewValue(f, v))
  {
    hide EncodeFrom;
  }

  lemma SingleMerge(f: Field, s: Slot, t: Slot, shadowed: bool)
    requires FieldOk(f) && !f.htype.Repeated? && SlotFits(f, s) && SlotFits(f, t) && EncodeField(f, t).Some?
    requires IsPresent(f, t) && RowClean(f, s)
    ensures MergeSlot(f, s, t).Some? <==> RowTerminated(f, t) && !RowOverflows(f, ViewRow(f, s), ViewRow(f, t))
    ensures MergeSlot(f, s, t).Some? ==>
      ViewRow(f, MergeSlot(f, s, t).value) == MergeRowObs(f, ViewRow(f, s), ViewRow(f, t), shadowed)
    decreases f, 2
  {
    hide EncodeValue, FieldOk, MergeValue, ViewValue, ValueTerminated, MergeObs, Overflows, ValueFits, IsZero, ZeroObs;
    var v := t.items[0];
    SlotViewOfOne(f, t);
    if f.htype.Oneof? {
      RoundValue(f, if f.ltype.Submessage? then ZeroValue(f) else UnionBefore(f, s), v);
    } else if f.htype.Optional? && f.sizeOffset != 0 && s.size == 0 {
      RoundValue(f, s.items[0], v);
    } else {
      SlotViewOfOne(f, s);
      ValueMerge(f, s.items[0], v);
      if f.Singular() {
        PresentIsNotZero(f, v);
      }
      if f.ltype.Submessage? {
        NestedView(f, s.items[0]);
        NestedView(f, v);
      }
    }
  }

  lemma NestedView(f: Field, v: Value)
    requires f.ltype.Submessage? && ValueFits(f, v)
    ensures ViewValue(f, v) == OMsg(View(f.ltype.fields, Nested(f, v)))
  {
  }

  lemma SentRowMerge(f: Field, s: Slot, t: Slot, shadowed: bool)
    requires FieldOk(f) && SlotFits(f, s) && SlotFits(f, t) && EncodeField(f, t).Some? && !Absent(f, t)
    requires RowClean(f, s)
    ensures MergeSlot(f, s, t).Some? <==> RowTerminated(f, t) && !RowOverflows(f, ViewRow(f, s), ViewRow(f, t))
    ensures MergeSlot(f, s, t).Some? ==>
      ViewRow(f, MergeSlot(f, s, t).value) == MergeRowObs(f, ViewRow(f, s), ViewRow(f, t), shadowed)
    decreases f, 3
  {
    if f.htype.Repeated? {
      ArrayMerge(f, s, t, shadowed);
    } else {
      SingleMerge(f, s, t, shadowed);
    }
  }

  // ---- whole messages ----

  lemma MergedRow(fields: seq<Field>, a: seq<Slot>, b: seq<Slot>, j: nat)
    requires TableOk(fields) && Fits(fields, a) && Fits(fields, b) && EncodeFrom(fields, b, 0).Some?
    requires j < |fields| && Clean(fields, a)
    ensures FieldOk(fields[j])
    ensures var r := MergeFrom(fields, a, b, 0);
      var x := View(fields, a); var y := View(fields, b);
      && (RowSent(fields, b, j) ==>
            (RowMergeable(fields, a, b, j) <==>
               RowTerminated(fields[j], SlotAt(fields, b, j)) && !RowOverflows(fields[j], x[j], y[j])))
      && (!RowSent(fields, b, j) ==>
            RowTerminated(fields[j], SlotAt(fields, b, j)) && !RowOverflows(fields[j], x[j], y[j]))
      && (r.Some? ==>
            ViewRow(fields[j], SlotAt(fields, r.value, j))
            == MergeRowObs(fields[j], x[j], y[j], Shadowed(fields, y, j)))
    decreases fields, 0
  {
    var f := fields[j];
    assert FieldOk(f);
    var s := SlotAt(fields, a, j);
    var t := SlotAt(fields, b, j);
    var y := View(fields, b);
    RowEncodable(fields, b, 0, j);
    if RowSent(fields, b, j) {
      assert RowClean(f, s);
      hide MergeFrom, MergeSlot, FieldOk, SlotFits, RowTerminated, ViewRow, RowOverflows, MergeRowObs, TableOk, Clean;
      SentRowMerge(f, s, t, Shadowed(fields, y, j));
      if MergeFrom(fields, a, b, 0).Some? {
        RowResult(fields, a, b, 0, j);
      }
    } else {
      hide MergeFrom, MergeSlot, TableOk, Clean;
      UnsentRowOverflow(f, s, t);
      if MergeFrom(fields, a, b, 0).Some? {
        UnsentRowMerge(fields, a, b, j);
      }
    }
  }

  lemma UnsentRowOverflow(f: Field, s: Slot, t: Slot)
    requires FieldOk(f) && SlotFits(f, s) && SlotFits(f, t) && Absent(f, t)
    ensures RowTerminated(f, t) && !RowOverflows(f, ViewRow(f, s), ViewRow(f, t))
    decreases f, 3
  {
    if f.Singular() {
      ZeroSingleMerge(f, s, t);
    }
  }

  lemma UnsentRowMerge(fields: seq<Field>, a: seq<Slot>, b: seq<Slot>, j: nat)
    requires TableOk(fields) && Fits(fields, a) && Fits(fields, b) && EncodeFrom(fields, b, 0).Some?
    requires j < |fields| && !RowSent(fields, b, j) && MergeFrom(fields, a, b, 0).Some?
    ensures var y := View(fields, b);
      ViewRow(fields[j], SlotAt(fields, MergeFrom(fields, a, b, 0).value, j))
      == MergeRowObs(fields[j], View(fields, a)[j], y[j], Shadowed(fields, y, j))
    decreases fields, 0
  {
    hide EncodeField, MergeSlot, MergeFrom, EncodeFrom, ViewItems, MergeObs, TableOk, View, ZeroObs;
    var f := fields[j];
    var s := SlotAt(fields, a, j);
    var t := SlotAt(fields, b, j);
    var y := View(fields, b);
    RowResult(fields, a, b, 0, j);
    if f.htype.Oneof? {
      UnsentMember(fields, a, b, j);
    } else {
      forall k | 0 <= k < |fields| && SlotOf(fields, k) == SlotOf(fields, j) ensures !RowSent(fields, b, k) {
        if k != j { OneMemberSent(fields, b, k, j); }
      }
      if f.Singular() {
        ZeroSingleMerge(f, s, t);
      }
    }
  }

  lemma MemberShows(f: Field, t: Slot)
    requires f.htype.Oneof? && SlotFits(f, t)
    ensures ViewRow(f, t) != [] <==> IsPresent(f, t)
  {
  }

  lemma UnsentMember(fields: seq<Field>, a: seq<Slot>, b: seq<Slot>, j: nat)
    requires TableOk(fields) && Fits(fields, a) && Fits(fields, b) && EncodeFrom(fields, b, 0).Some?
    requires j < |fields| && !RowSent(fields, b, j) && MergeFrom(fields, a, b, 0).Some? && fields[j].htype.Oneof?
    ensures var y := View(fields, b);
      ViewRow(fields[j], SlotAt(fields, MergeFrom(fields, a, b, 0).value, j))
      == MergeRowObs(fields[j], View(fields, a)[j], y[j], Shadowed(fields, y, j))
  {
    hide EncodeField, MergeSlot, MergeFrom, EncodeFrom, ViewRow, View, FieldOk;
    var y := View(fields, b);
    var r := MergeFrom(fields, a, b, 0).value;
    RowResult(fields, a, b, 0, j);
    MemberShows(fields[j], SlotAt(fields, b, j));
    MemberShows(fields[j], SlotAt(fields, r, j));
    if k: nat :| k < |fields| && SlotOf(fields, k) == SlotOf(fields, j) && RowSent(fields, b, k) {
      assert k != j;
      OneMemberSent(fields, b, k, j);
      RowResult(fields, a, b, 0, k);
      assert fields[k].tag != fields[j].tag;
      MemberShows(fields[k], SlotAt(fields, b, k));
      assert y[k] != [];
      assert Shadowed(fields, y, j);
    } else {
      forall k | 0 <= k < |fields| && SlotOf(fields, k) == SlotOf(fields, j) ensures y[k] == [] {
        if k != j {
          if k < j { SharedSlotIsUnion(fields, k, j); } else { SharedSlotIsUnion(fields, j, k); }
        }
        MemberShows(fields[k], SlotAt(fields, b, k));
      }
      assert !Shadowed(fields, y, j);
    }
  }

  lemma {:induction false} MessageMerge(fields: seq<Field>, a: seq<Slot>, b: seq<Slot>)
    requires TableOk(fields) && Fits(fields, a) && Fits(fields, b) && EncodeFrom(fields, b, 0).Some?
    requires Clean(fields, a)
    ensures var r := MergeFrom(fields, a, b, 0);
      var x := View(fields, a); var y := View(fields, b);
      && (r.Some? <==> Terminated(fields, b) && !Overflows(fields, x, y))
      && (r.Some? ==> View(fields, r.value) == MergeRows(fields, x, y, |fields|))
    decreases fields, 1
  {
    hide EncodeFrom, MergeFrom, RowMergeable, RowTerminated, RowOverflows, MergeRowObs, RowSent, ViewRow, SlotFits,
         TableOk, Clean, Shadowed, FieldOk;
    var r := MergeFrom(fields, a, b, 0);
    var x := View(fields, a);
    var y := View(fields, b);
    forall j | 0 <= j < |fields|
      ensures RowSent(fields, b, j) ==>
        (RowMergeable(fields, a, b, j) <==>
           RowTerminated(fields[j], SlotAt(fields, b, j)) && !RowOverflows(fields[j], x[j], y[j]))
      ensures !RowSent(fields, b, j) ==>
        RowTerminated(fields[j], SlotAt(fields, b, j)) && !RowOverflows(fields[j], x[j], y[j])
      ensures r.Some? ==>
        ViewRow(fields[j], SlotAt(fields, r.value, j)) == MergeRowObs(fields[j], x[j], y[j], Shadowed(fields, y, j))
    {
      MergedRow(fields, a, b, j);
    }
    MergeFailsByRow(fields, a, b, 0);
    if RowsMergeable(fields, a, b, 0) {
      forall j | 0 <= j < |fields|
        ensures RowTerminated(fields[j], SlotAt(fields, b, j)) && !RowOverflows(fields[j], x[j], y[j]) {
      }
    }
    if r.Some? {
      assert View(fields, r.value) == MergeRows(fields, x, y, |fields|);
    }
  }

  /**
    * pb_decode_noinit of what pb_encode wrote for b, into a struct holding a: the result shows the
    * merge of the two; it fails exactly when an array would overflow or a sent string has no NUL.
    */
  lemma DecodeMerges(fields: seq<Field>, a: seq<Slot>, b: seq<Slot>)
    requires TableOk(fields) && Fits(fields, a) && Fits(fields, b) && Clean(fields, a)
    requires Encode(fields, b).Some? && |Encode(fields, b).value| < TWO_32
    ensures var p := DecodeNoinit(fields, Encode(fields, b).value, a);
      var x := View(fields, a); var y := View(fields, b);
      && (p.Done? <==> Terminated(fields, b) && !Overflows(fields, x, y))
      && (p.Done? ==> p.rest == [] && View(fields, p.value) == MergeRows(fields, x, y, |fields|))
  {
    hide DecodeNoinit, Terminated, Overflows, View, MergeRows, MergeFrom, EncodeFrom;
    MessageStep(fields, a, b);
    MessageMerge(fields, a, b);
  }
}
