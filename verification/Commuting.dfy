// Records of different fields may come in any order.
module Commuting {
  import opened Bits
  import opened Varints
  import opened Fields
  import opened Decoding
  import opened Records

  /** What a record for row i does to a state: to the row's slot, to the required rows seen, and, for a fixed-count
      array, to the array at hand. */
  datatype Effect = Effect(slot: Slot, seen: set<nat>, count: nat)

  ghost predicate Fitting(f: Field, e: Effect)
  {
    SlotFits(f, e.slot) && (f.htype.Oneof? ==> e.slot.size == f.tag)
  }

  ghost function Moved(fields: seq<Field>, st: State, i: nat, e: Effect): (r: State)
    requires TableOk(fields) && StateFits(fields, st) && i < |fields| && Fitting(fields[i], e)
    ensures StateFits(fields, r)
  {
    var slots := Put(fields, st.slots, i, e.slot);
    if fields[i].FixedCount() then State(slots, Some(i), e.count, st.seen + e.seen)
    else State(slots, st.fixedRow, st.fixedSize, st.seen + e.seen)
  }

  /** Two states that a record for row i cannot tell apart. */
  ghost predicate AlikeFor(fields: seq<Field>, i: nat, st: State, other: State)
    requires StateFits(fields, st) && StateFits(fields, other) && i < |fields|
  {
    && SlotAt(fields, other.slots, i) == SlotAt(fields, st.slots, i)
    && (fields[i].FixedCount() ==> other.fixedRow == st.fixedRow && other.fixedSize == st.fixedSize)
  }

  lemma ArrayEffect(fields: seq<Field>, i: nat, wireType: nat, bs: seq<byte>, st: State, other: State)
    returns (e: Effect)
    requires TableOk(fields) && i < |fields| && StateFits(fields, st) && StateFits(fields, other)
    requires AlikeFor(fields, i, st, other) && fields[i].htype.Repeated?
    requires DecodeField(fields, i, wireType, bs, st).Done?
    ensures Fitting(fields[i], e)
    ensures var rest := DecodeField(fields, i, wireType, bs, st).rest;
      && DecodeField(fields, i, wireType, bs, st) == Done(Moved(fields, st, i, e), rest)
      && DecodeField(fields, i, wireType, bs, other) == Done(Moved(fields, other, i, e), rest)
  {
    hide DecodeElements, TableOk, Fits, SlotFits;
    TableRow(fields, i);
    var entered := Enter(fields, st, i).value;
    var p := DecodeElements(fields[i], wireType, bs, ArrayAt(fields, entered, i));
    assert Enter(fields, other, i).Some?;
    assert ArrayAt(fields, Enter(fields, other, i).value, i) == ArrayAt(fields, entered, i);
    assert StateFits(fields, WithArray(fields, entered, i, p.value));
    e := Effect(SlotAt(fields, WithArray(fields, entered, i, p.value).slots, i), {}, p.value.count);
    assert st.seen + {} == st.seen && other.seen + {} == other.seen;
  }

  lemma SingleEffect(fields: seq<Field>, i: nat, wireType: nat, bs: seq<byte>, st: State, other: State)
    returns (e: Effect)
    requires TableOk(fields) && i < |fields| && StateFits(fields, st) && StateFits(fields, other)
    requires AlikeFor(fields, i, st, other) && !fields[i].htype.Repeated?
    requires DecodeField(fields, i, wireType, bs, st).Done?
    ensures Fitting(fields[i], e)
    ensures var rest := DecodeField(fields, i, wireType, bs, st).rest;
      && DecodeField(fields, i, wireType, bs, st) == Done(Moved(fields, st, i, e), rest)
      && DecodeField(fields, i, wireType, bs, other) == Done(Moved(fields, other, i, e), rest)
  {
    hide DecodeValue, TableOk, Fits;
    TableRow(fields, i);
    var f, s := fields[i], SlotAt(fields, st.slots, i);
    var r := RequiredBefore(fields, i);
    var v := DecodeValue(f, bs, if f.htype.Oneof? then UnionBefore(f, s) else s.items[0]).value;
    assert st.seen + {} == st.seen && other.seen + {} == other.seen;
    if f.htype.Required? {
      e := Effect(Slot(s.size, [v]), if r < PB_MAX_REQUIRED_FIELDS then {r} else {}, 0);
    } else if f.htype.Optional? {
      e := Effect(Slot(if f.sizeOffset != 0 then 1 else s.size, [v]), {}, 0);
    } else {
      e := Effect(Slot(f.tag, [v]), {}, 0);
    }
  }

  lemma FieldEffect(fields: seq<Field>, i: nat, wireType: nat, bs: seq<byte>, st: State, other: State)
    returns (e: Effect)
    requires TableOk(fields) && i < |fields| && StateFits(fields, st) && StateFits(fields, other)
    requires AlikeFor(fields, i, st, other)
    requires DecodeField(fields, i, wireType, bs, st).Done?
    ensures Fitting(fields[i], e)
    ensures var rest := DecodeField(fields, i, wireType, bs, st).rest;
      && DecodeField(fields, i, wireType, bs, st) == Done(Moved(fields, st, i, e), rest)
      && DecodeField(fields, i, wireType, bs, other) == Done(Moved(fields, other, i, e), rest)
  {
    hide *;
    if fields[i].htype.Repeated? {
      e := ArrayEffect(fields, i, wireType, bs, st, other);
    } else {
      e := SingleEffect(fields, i, wireType, bs, st, other);
    }
  }

  /** Effects on different storage, at most one of them on a fixed-count array, do not see each other. */
  lemma EffectsCommute(fields: seq<Field>, st: State, i: nat, e: Effect, j: nat, d: Effect)
    requires TableOk(fields) && StateFits(fields, st) && i < |fields| && j < |fields|
    requires Fitting(fields[i], e) && Fitting(fields[j], d)
    requires SlotOf(fields, i) != SlotOf(fields, j) && !(fields[i].FixedCount() && fields[j].FixedCount())
    ensures AlikeFor(fields, j, st, Moved(fields, st, i, e))
    ensures Moved(fields, Moved(fields, st, i, e), j, d) == Moved(fields, Moved(fields, st, j, d), i, e)
  {
    hide SlotFits, TableOk, Fits, SlotOf;
    PutSeen(fields, st.slots, i, e.slot, j);
    PutSeen(fields, st.slots, j, d.slot, i);
    assert st.seen + e.seen + d.seen == st.seen + d.seen + e.seen;
    PutsCommute(fields, st.slots, i, e.slot, j, d.slot);
  }

  lemma PutsCommute(fields: seq<Field>, slots: seq<Slot>, i: nat, s: Slot, j: nat, t: Slot)
    requires TableOk(fields) && Fits(fields, slots) && i < |fields| && j < |fields|
    requires SlotFits(fields[i], s) && SlotFits(fields[j], t) && SlotOf(fields, i) != SlotOf(fields, j)
    requires fields[i].htype.Oneof? ==> s.size == fields[i].tag
    requires fields[j].htype.Oneof? ==> t.size == fields[j].tag
    ensures Put(fields, Put(fields, slots, i, s), j, t) == Put(fields, Put(fields, slots, j, t), i, s)
  {
    hide SlotFits, TableOk;
    var g, h := SlotOf(fields, i), SlotOf(fields, j);
    assert RowFits(fields, slots, i) && RowFits(fields, slots, j);
    assert slots[g := s][h := t] == slots[h := t][g := s];
  }

  /** The bytes are one record for row i, which decodes in the state. */
  predicate RecordFor(fields: seq<Field>, record: seq<byte>, i: nat, st: State)
    requires TableOk(fields) && StateFits(fields, st) && i < |fields|
  {
    var t := ReadTag(record);
    && record != [] && t.Tag? && Find(fields, t.tag) == Some(i)
    && DecodeField(fields, i, t.wireType, t.rest, st).Done? && DecodeField(fields, i, t.wireType, t.rest, st).rest == []
  }

  lemma RecordDecoded(fields: seq<Field>, record: seq<byte>, i: nat, tail: seq<byte>, st: State)
    requires TableOk(fields) && StateFits(fields, st) && i < |fields| && RecordFor(fields, record, i, st)
    ensures DecodeLoop(fields, record + tail, st)
         == DecodeLoop(fields, tail, DecodeField(fields, i, ReadTag(record).wireType, ReadTag(record).rest, st).value)
  {
    hide DecodeField, ReadTag, Find;
    var t := ReadTag(record);
    ReadTagExtend(record, tail);
    DecodeFieldExtend(fields, i, t.wireType, t.rest, st, tail);
    assert [] + tail == tail;
  }

  /** Records of different fields commute, wherever they stand, unless both are of fixed-count arrays. */
  lemma DifferentFieldsCommute(
    fields: seq<Field>, i: nat, first: seq<byte>, j: nat, second: seq<byte>, tail: seq<byte>, st: State)
    requires TableOk(fields) && StateFits(fields, st) && i < |fields| && j < |fields|
    requires SlotOf(fields, i) != SlotOf(fields, j) && !(fields[i].FixedCount() && fields[j].FixedCount())
    requires RecordFor(fields, first, i, st) && RecordFor(fields, second, j, st)
    ensures DecodeLoop(fields, first + second + tail, st) == DecodeLoop(fields, second + first + tail, st)
  {
    hide DecodeField, ReadTag, Find, Moved, DecodeLoop, SlotOf, TableOk, AlikeFor, Fitting;
    var a, b := ReadTag(first), ReadTag(second);
    assert AlikeFor(fields, i, st, st) && AlikeFor(fields, j, st, st) by { AlikeSelf(fields, st); }
    var e := FieldEffect(fields, i, a.wireType, a.rest, st, st);
    var d := FieldEffect(fields, j, b.wireType, b.rest, st, st);
    EffectsCommute(fields, st, i, e, j, d);
    EffectsCommute(fields, st, j, d, i, e);
    OtherFirst(fields, i, first, e, j, second, d, tail, st);
    OtherFirst(fields, j, second, d, i, first, e, tail, st);
  }

  lemma AlikeSelf(fields: seq<Field>, st: State)
    requires StateFits(fields, st)
    ensures forall i | 0 <= i < |fields| :: AlikeFor(fields, i, st, st)
  {
  }

  lemma OtherFirst(fields: seq<Field>, i: nat, first: seq<byte>, e: Effect, j: nat, second: seq<byte>, d: Effect,
                   tail: seq<byte>, st: State)
    requires TableOk(fields) && StateFits(fields, st) && i < |fields| && j < |fields|
    requires RecordFor(fields, first, i, st) && RecordFor(fields, second, j, st)
    requires Fitting(fields[i], e) && Fitting(fields[j], d)
    requires DecodeField(fields, i, ReadTag(first).wireType, ReadTag(first).rest, st)
          == Done(Moved(fields, st, i, e), [])
    requires DecodeField(fields, j, ReadTag(second).wireType, ReadTag(second).rest, st)
          == Done(Moved(fields, st, j, d), [])
    requires AlikeFor(fields, j, st, Moved(fields, st, i, e))
    ensures DecodeLoop(fields, first + second + tail, st)
         == DecodeLoop(fields, tail, Moved(fields, Moved(fields, st, i, e), j, d))
  {
    hide DecodeField, ReadTag, Find, DecodeLoop, SlotOf, TableOk, AlikeFor;
    var next := Moved(fields, st, i, e);
    var b := ReadTag(second);
    assert first + second + tail == first + (second + tail);
    RecordDecoded(fields, first, i, second + tail, st);
    assert st.seen <= next.seen by { MovedSees(fields, st, i, e); }
    var d' := FieldEffect(fields, j, b.wireType, b.rest, st, next);
    SameEffect(fields, st, next, j, d, d');
    RecordDecoded(fields, second, j, tail, next);
  }

  lemma MovedSees(fields: seq<Field>, st: State, i: nat, e: Effect)
    requires TableOk(fields) && StateFits(fields, st) && i < |fields| && Fitting(fields[i], e)
    ensures st.seen <= Moved(fields, st, i, e).seen
  {
  }

  lemma SameEffect(fields: seq<Field>, st: State, other: State, i: nat, d: Effect, e: Effect)
    requires TableOk(fields) && StateFits(fields, st) && StateFits(fields, other) && i < |fields|
    requires Fitting(fields[i], d) && Fitting(fields[i], e) && st.seen <= other.seen
    requires Moved(fields, st, i, d) == Moved(fields, st, i, e)
    ensures Moved(fields, other, i, d) == Moved(fields, other, i, e)
  {
    hide SlotFits, TableOk, SlotOf;
    PutSeen(fields, st.slots, i, d.slot, i);
    PutSeen(fields, st.slots, i, e.slot, i);
    assert other.seen + d.seen == other.seen + (st.seen + d.seen);
    assert other.seen + e.seen == other.seen + (st.seen + e.seen);
  }
}
