// The decoder, run on the encoder's output, computes exactly the merge of Merging.
module MergeProof {
  import opened Bits
  import opened Varints
  import opened Fields
  import opened Scalars
  import opened Encoding
  import opened Decoding
  import opened Merging

  /** Reading succeeded with r and stopped at tail, or failed. */
  function Lift<T>(r: Option<T>, tail: seq<byte>): Parse<T>
  {
    match r
    case Some(x) => Done(x, tail)
    case None => Fail
  }

  lemma BlockParts(data: seq<byte>, tail: seq<byte>)
    requires |data| < TWO_32
    ensures ReadVarint32(Block(data) + tail) == Done(|data|, data + tail)
    ensures ReadBytes(data + tail, |data|) == Done(data, tail)
  {
    ReadVarint32OfVarint(|data|, data + tail);
    assert Block(data) + tail == Varints.Varint(|data|) + (data + tail);
    assert (data + tail)[..|data|] == data && (data + tail)[|data|..] == tail;
  }

  lemma BlockRead(data: seq<byte>, tail: seq<byte>)
    requires |data| < TWO_32
    ensures ReadBlock(Block(data) + tail) == Done(data, tail)
  {
    BlockParts(data, tail);
  }

  /** A record for row i is handed to DecodeField, and the loop goes on behind it. */
  lemma RecordStep(fields: seq<Field>, i: nat, wireType: nat, payload: seq<byte>, st: State)
    requires TableOk(fields) && StateFits(fields, st) && i < |fields| && wireType < 8
    ensures DecodeLoop(fields, TagBytes(fields[i].tag, wireType) + payload, st)
         == match DecodeField(fields, i, wireType, payload, st)
            case Fail => Fail
            case Done(st', rest) => DecodeLoop(fields, rest, st')
  {
    hide DecodeField;
    assert FieldOk(fields[i]);
    TagRead(fields[i].tag, wireType, payload);
    FindRow(fields, i);
  }

  lemma TagRead(tag: nat, wireType: nat, payload: seq<byte>)
    requires 0 < tag < 0x2000_0000 && wireType < 8
    ensures ReadTag(TagBytes(tag, wireType) + payload) == Tag(tag, wireType, payload)
  {
    ReadVarint32OfVarint(8 * tag + wireType, payload);
  }

  // ---- one value ----

  lemma BytesStep(f: Field, was: Value, v: Value, tail: seq<byte>)
    requires FieldOk(f) && f.ltype.Bytes? && ValueFits(f, was) && ValueFits(f, v) && EncodeValue(f, v).Some?
    ensures DecodeValue(f, EncodeValue(f, v).value + tail, was) == Lift(MergeValue(f, was, v), tail)
  {
    hide ReadVarint32, ReadBytes, Block;
    BlockParts(v.data[..v.size], tail);
  }

  lemma StringStep(f: Field, was: Value, v: Value, tail: seq<byte>)
    requires FieldOk(f) && f.ltype.String? && ValueFits(f, was) && ValueFits(f, v)
    ensures DecodeValue(f, EncodeValue(f, v).value + tail, was) == Lift(MergeValue(f, was, v), tail)
  {
    hide ReadVarint32, ReadBytes, Block, StringLength;
    BlockParts(v.data[..StringLength(v.data)], tail);
  }

  lemma FixedLengthStep(f: Field, was: Value, v: Value, tail: seq<byte>)
    requires FieldOk(f) && f.ltype.FixedLengthBytes? && ValueFits(f, was) && ValueFits(f, v)
    ensures DecodeValue(f, EncodeValue(f, v).value + tail, was) == Lift(MergeValue(f, was, v), tail)
  {
    hide ReadVarint32, ReadBytes, Block;
    BlockParts(v.data, tail);
    if |v.data| == 0 {
      assert Zeros(f.dataSize) == v.data;
      assert v.data + tail == tail;
    }
  }

  /** Decoding an encoded value into storage merges it there. */
  lemma {:induction false} ValueStep(f: Field, was: Value, v: Value, tail: seq<byte>)
    requires FieldOk(f) && ValueFits(f, was) && ValueFits(f, v) && EncodeValue(f, v).Some?
    requires |EncodeValue(f, v).value| < TWO_32
    ensures DecodeValue(f, EncodeValue(f, v).value + tail, was) == Lift(MergeValue(f, was, v), tail)
    decreases f, 0
  {
    match f.ltype
    case Bytes => BytesStep(f, was, v, tail);
    case String => StringStep(f, was, v, tail);
    case FixedLengthBytes => FixedLengthStep(f, was, v, tail);
    case Submessage(fields) =>
      var body := EncodeFrom(fields, v.slots, 0).value;
      BlockRead(body, tail);
      MessageStep(fields, if f.htype.Repeated? then SetDefaults(fields, was.slots, 0) else was.slots, v.slots);
    case _ =>
      ScalarRoundTrip(f, v.n, tail);
  }

  // ---- arrays ----

  lemma {:induction false} PackedStep(f: Field, e: Elements, items: seq<Value>)
    requires FieldOk(f) && f.ltype.Packable() && ElementsFit(f, e)
    requires forall k | 0 <= k < |items| :: ValueFits(f, items[k]) && EncodeValue(f, items[k]).Some?
    requires PackedData(f, items).Some?
    ensures ReadPacked(f, PackedData(f, items).value, e) == MergeItems(f, e, items)
    decreases |items|
  {
    if items != [] {
      var first := EncodeValue(f, items[0]).value;
      var rest := PackedData(f, items[1..]).value;
      ScalarRoundTrip(f, items[0].n, rest);
      if e.count < f.arraySize {
        PackedStep(f, Elements(e.items[e.count := items[0]], e.count + 1), items[1..]);
      }
    }
  }

  /** The state after elements were sent to array row i; None on overflow or a misfit. */
  function StepItems(fields: seq<Field>, i: nat, items: seq<Value>, st: State): (r: Option<State>)
    requires TableOk(fields) && StateFits(fields, st) && i < |fields| && fields[i].htype.Repeated? && FieldOk(fields[i])
    requires forall k | 0 <= k < |items| :: ValueFits(fields[i], items[k]) && EncodeValue(fields[i], items[k]).Some?
    ensures r.Some? ==> StateFits(fields, r.value)
  {
    match MergeItems(fields[i], ArrayAt(fields, st, i), items)
    case Some(e) => Some(WithArray(fields, st, i, e))
    case None => None
  }

  /** A tagged element for row i, seen by the main loop. */
  lemma ElementRecord(fields: seq<Field>, i: nat, wireType: nat, payload: seq<byte>, st: State)
    requires TableOk(fields) && StateFits(fields, st) && i < |fields| && wireType < 8
    requires fields[i].htype.Repeated? && FieldOk(fields[i]) && Enter(fields, st, i).Some?
    ensures DecodeLoop(fields, TagBytes(fields[i].tag, wireType) + payload, st)
         == match DecodeElements(fields[i], wireType, payload, ArrayAt(fields, Enter(fields, st, i).value, i))
            case Fail => Fail
            case Done(e, rest) => DecodeLoop(fields, rest, WithArray(fields, Enter(fields, st, i).value, i, e))
  {
    hide DecodeElements, DecodeLoop;
    RecordStep(fields, i, wireType, payload, st);
  }

  lemma WithArrayTwice(fields: seq<Field>, i: nat, st: State, e1: Elements, e2: Elements)
    requires TableOk(fields) && StateFits(fields, st) && i < |fields| && fields[i].htype.Repeated?
    requires ElementsFit(fields[i], e1) && (e1.count <= PB_SIZE_MAX || fields[i].FixedCount())
    requires ElementsFit(fields[i], e2) && (e2.count <= PB_SIZE_MAX || fields[i].FixedCount())
    ensures ArrayAt(fields, WithArray(fields, st, i, e1), i) == e1
    ensures WithArray(fields, WithArray(fields, st, i, e1), i, e2) == WithArray(fields, st, i, e2)
    ensures Enter(fields, st, i) == Some(st)
        ==> Enter(fields, WithArray(fields, st, i, e1), i) == Some(WithArray(fields, st, i, e1))
  {
    hide FieldOk, TableOk, ValueFits;
  }

  lemma WithArraySame(fields: seq<Field>, i: nat, st: State)
    requires TableOk(fields) && StateFits(fields, st) && i < |fields| && fields[i].htype.Repeated?
    ensures WithArray(fields, st, i, ArrayAt(fields, st, i)) == st
  {
    var g := SlotOf(fields, i);
    var s := SlotAt(fields, st.slots, i);
    assert st.slots[g := s] == st.slots;
  }

  /** Elements sent one record each. */
  lemma {:induction false} TaggedStep(
    fields: seq<Field>, i: nat, items: seq<Value>, tail: seq<byte>, st: State)
    requires TableOk(fields) && StateFits(fields, st) && i < |fields|
    requires fields[i].htype.Repeated? && FieldOk(fields[i]) && !fields[i].ltype.Packable()
    requires forall k | 0 <= k < |items| :: ValueFits(fields[i], items[k]) && EncodeValue(fields[i], items[k]).Some?
    requires Tagged(fields[i], items).Some? && |Tagged(fields[i], items).value| < TWO_32
    requires Enter(fields, st, i) == Some(st)
    ensures DecodeLoop(fields, Tagged(fields[i], items).value + tail, st)
         == match StepItems(fields, i, items, st)
            case None => Fail
            case Some(st') => DecodeLoop(fields, tail, st')
    decreases fields[i], 1, |items|
  {
    hide DecodeLoop, DecodeValue, MergeValue, WithArray, ArrayAt, Enter;
    var f := fields[i];
    var e := ArrayAt(fields, st, i);
    if items == [] {
      assert [] + tail == tail;
      WithArraySame(fields, i, st);
    } else {
      var value := EncodeValue(f, items[0]).value;
      var rest := Tagged(f, items[1..]).value + tail;
      assert Tagged(f, items).value + tail == FieldTag(f) + (value + rest);
      ElementRecord(fields, i, f.ltype.WireType(), value + rest, st);
      if e.count < f.arraySize {
        ValueStep(f, e.items[e.count], items[0], rest);
        var merged := MergeValue(f, e.items[e.count], items[0]);
        if merged.Some? {
          var e1 := Elements(e.items[e.count := merged.value], e.count + 1);
          var st1 := WithArray(fields, st, i, e1);
          WithArrayTwice(fields, i, st, e1, e1);
          TaggedStep(fields, i, items[1..], tail, st1);
          var more := MergeItems(f, e1, items[1..]);
          if more.Some? {
            WithArrayTwice(fields, i, st, e1, more.value);
          }
        }
      }
    }
  }

  /** Elements sent as one packed block. */
  lemma PackedRecord(fields: seq<Field>, i: nat, items: seq<Value>, tail: seq<byte>, st: State)
    requires TableOk(fields) && StateFits(fields, st) && i < |fields|
    requires fields[i].htype.Repeated? && FieldOk(fields[i]) && fields[i].ltype.Packable()
    requires forall k | 0 <= k < |items| :: ValueFits(fields[i], items[k]) && EncodeValue(fields[i], items[k]).Some?
    requires PackedData(fields[i], items).Some? && |PackedData(fields[i], items).value| < TWO_32
    requires Enter(fields, st, i).Some?
    ensures DecodeLoop(fields,
                       TagBytes(fields[i].tag, WT_STRING) + Block(PackedData(fields[i], items).value) + tail, st)
         == match StepItems(fields, i, items, Enter(fields, st, i).value)
            case None => Fail
            case Some(st') => DecodeLoop(fields, tail, st')
  {
    hide DecodeLoop, DecodeValue, MergeItems, ReadPacked, WithArray, ArrayAt, Enter;
    var f := fields[i];
    var data := PackedData(f, items).value;
    var entered := Enter(fields, st, i).value;
    assert TagBytes(f.tag, WT_STRING) + Block(data) + tail == TagBytes(f.tag, WT_STRING) + (Block(data) + tail);
    ElementRecord(fields, i, WT_STRING, Block(data) + tail, st);
    BlockRead(data, tail);
    PackedStep(f, ArrayAt(fields, entered, i), items);
  }

  // ---- one row of the table ----

  /** The decoder's state after row i of b was sent to it; None is a failure. */
  function StepRow(fields: seq<Field>, b: seq<Slot>, i: nat, st: State): (r: Option<State>)
    requires TableOk(fields) && StateFits(fields, st) && Fits(fields, b) && i < |fields| && FieldOk(fields[i])
    requires EncodeField(fields[i], SlotAt(fields, b, i)).Some?
    ensures r.Some? ==> StateFits(fields, r.value)
  {
    var f := fields[i];
    var t := SlotAt(fields, b, i);
    if f.htype.Repeated? then
      ArrayEncodable(f, t);
      if Count(f, t) == 0 then Some(st)
      else
        match Enter(fields, st, i)
        case None => None
        case Some(entered) => StepItems(fields, i, t.items[..Count(f, t)], entered)
    else
      match MergeRow(fields, st.slots, b, i)
      case None => None
      case Some(next) =>
        var r := RequiredBefore(fields, i);
        Some(st.(slots := next,
                 seen := if f.htype.Required? && r < PB_MAX_REQUIRED_FIELDS then st.seen + {r} else st.seen))
  }

  lemma ArrayRowStep(fields: seq<Field>, b: seq<Slot>, i: nat, tail: seq<byte>, st: State)
    requires TableOk(fields) && StateFits(fields, st) && Fits(fields, b) && i < |fields| && FieldOk(fields[i])
    requires fields[i].htype.Repeated?
    requires EncodeField(fields[i], SlotAt(fields, b, i)).Some?
    requires |EncodeField(fields[i], SlotAt(fields, b, i)).value| < TWO_32
    ensures DecodeLoop(fields, EncodeField(fields[i], SlotAt(fields, b, i)).value + tail, st)
         == match StepRow(fields, b, i, st)
            case None => Fail
            case Some(st') => DecodeLoop(fields, tail, st')
    decreases fields[i], 2
  {
    hide DecodeLoop, DecodeValue, StepItems;
    var f := fields[i];
    var t := SlotAt(fields, b, i);
    var n := Count(f, t);
    ArrayEncodable(f, t);
    if n == 0 {
      assert [] + tail == tail;
    } else {
      var items := t.items[..n];
      if Enter(fields, st, i).None? {
        FirstElementRefused(fields, i, items, tail, st);
      } else if f.ltype.Packable() {
        PackedRecord(fields, i, items, tail, st);
      } else {
        FirstElementEnters(fields, i, items, tail, st);
        TaggedStep(fields, i, items, tail, Enter(fields, st, i).value);
      }
    }
  }

  /** The first record of an array row starts with the row's tag. */
  function ArrayBytes(f: Field, items: seq<Value>): (r: Option<seq<byte>>)
    requires forall k | 0 <= k < |items| :: ValueFits(f, items[k])
  {
    if f.ltype.Packable() then
      var data := PackedData(f, items);
      if data.Some? then Some(TagBytes(f.tag, WT_STRING) + Block(data.value)) else None
    else Tagged(f, items)
  }

  lemma FirstElementRefused(fields: seq<Field>, i: nat, items: seq<Value>, tail: seq<byte>, st: State)
    requires TableOk(fields) && StateFits(fields, st) && i < |fields| && fields[i].htype.Repeated? && items != []
    requires forall k | 0 <= k < |items| :: ValueFits(fields[i], items[k])
    requires ArrayBytes(fields[i], items).Some? && Enter(fields, st, i).None?
    ensures DecodeLoop(fields, ArrayBytes(fields[i], items).value + tail, st).Fail?
  {
    hide DecodeLoop, DecodeElements;
    var f := fields[i];
    if f.ltype.Packable() {
      var data := PackedData(f, items).value;
      assert TagBytes(f.tag, WT_STRING) + Block(data) + tail == TagBytes(f.tag, WT_STRING) + (Block(data) + tail);
      RecordStep(fields, i, WT_STRING, Block(data) + tail, st);
    } else {
      var rest := EncodeValue(f, items[0]).value + Tagged(f, items[1..]).value + tail;
      assert Tagged(f, items).value + tail == FieldTag(f) + rest;
      RecordStep(fields, i, f.ltype.WireType(), rest, st);
    }
  }

  lemma FirstElementEnters(fields: seq<Field>, i: nat, items: seq<Value>, tail: seq<byte>, st: State)
    requires TableOk(fields) && StateFits(fields, st) && i < |fields| && fields[i].htype.Repeated? && items != []
    requires FieldOk(fields[i]) && !fields[i].ltype.Packable()
    requires forall k | 0 <= k < |items| :: ValueFits(fields[i], items[k])
    requires Tagged(fields[i], items).Some? && Enter(fields, st, i).Some?
    ensures Enter(fields, Enter(fields, st, i).value, i) == Enter(fields, st, i)
    ensures DecodeLoop(fields, Tagged(fields[i], items).value + tail, st)
         == DecodeLoop(fields, Tagged(fields[i], items).value + tail, Enter(fields, st, i).value)
  {
    hide DecodeLoop, DecodeElements, WithArray, ArrayAt;
    var f := fields[i];
    var rest := EncodeValue(f, items[0]).value + Tagged(f, items[1..]).value + tail;
    assert Tagged(f, items).value + tail == FieldTag(f) + rest;
    ElementRecord(fields, i, f.ltype.WireType(), rest, st);
    ElementRecord(fields, i, f.ltype.WireType(), rest, Enter(fields, st, i).value);
  }

  lemma SingleRowStep(fields: seq<Field>, b: seq<Slot>, i: nat, tail: seq<byte>, st: State)
    requires TableOk(fields) && StateFits(fields, st) && Fits(fields, b) && i < |fields| && FieldOk(fields[i])
    requires !fields[i].htype.Repeated?
    requires EncodeField(fields[i], SlotAt(fields, b, i)).Some?
    requires |EncodeField(fields[i], SlotAt(fields, b, i)).value| < TWO_32
    ensures DecodeLoop(fields, EncodeField(fields[i], SlotAt(fields, b, i)).value + tail, st)
         == match StepRow(fields, b, i, st)
            case None => Fail
            case Some(st') => DecodeLoop(fields, tail, st')
    decreases fields[i], 2
  {
    hide DecodeLoop, DecodeValue, DecodeField;
    var f := fields[i];
    var t := SlotAt(fields, b, i);
    if Absent(f, t) {
      hide EncodeValue;
      assert [] + tail == tail;
    } else {
      var value := EncodeValue(f, t.items[0]).value;
      assert FieldTag(f) + value + tail == FieldTag(f) + (value + tail);
      RecordStep(fields, i, f.ltype.WireType(), value + tail, st);
      SingleFieldStep(fields, b, i, tail, st);
    }
  }

  lemma SingleFieldStep(fields: seq<Field>, b: seq<Slot>, i: nat, tail: seq<byte>, st: State)
    requires TableOk(fields) && StateFits(fields, st) && Fits(fields, b) && i < |fields| && FieldOk(fields[i])
    requires !fields[i].htype.Repeated? && IsPresent(fields[i], SlotAt(fields, b, i))
    requires EncodeValue(fields[i], SlotAt(fields, b, i).items[0]).Some?
    requires |EncodeValue(fields[i], SlotAt(fields, b, i).items[0]).value| < TWO_32
    ensures DecodeField(fields, i, fields[i].ltype.WireType(),
                        EncodeValue(fields[i], SlotAt(fields, b, i).items[0]).value + tail, st)
         == Lift(StepRow(fields, b, i, st), tail)
    decreases fields[i], 1
  {
    hide DecodeValue, MergeValue, EncodeValue;
    var f := fields[i];
    var s := SlotAt(fields, st.slots, i);
    var t := SlotAt(fields, b, i);
    var was := if f.htype.Oneof? then UnionBefore(f, s) else s.items[0];
    ValueStep(f, was, t.items[0], tail);
    var merged := MergeValue(f, was, t.items[0]);
    assert MergeSlot(f, s, t) == match merged
      case Some(v) => Some(Slot(if f.htype.Oneof? then f.tag
                                else if f.htype.Optional? && f.sizeOffset != 0 then 1 else s.size, [v]))
      case None => None;
  }

  lemma PutSame(fields: seq<Field>, slots: seq<Slot>, i: nat)
    requires Fits(fields, slots) && i < |fields|
    ensures SlotOf(fields, i) < |slots| && slots[SlotOf(fields, i) := SlotAt(fields, slots, i)] == slots
  {
    var s := SlotAt(fields, slots, i);
  }

  // ---- the whole table ----

  /**
    * The fixed-count array received last: it is the last one of the rows so far; one left over from
    * before these rows is at hand again only after another one.
    */
  ghost predicate FixedInOrder(fields: seq<Field>, i: nat, fixedRow: Option<nat>)
    requires i <= |fields|
  {
    && (forall k | 0 <= k < i && fields[k].FixedCount() :: fixedRow.Some? && k <= fixedRow.value < i)
    && (fixedRow.Some? && i <= fixedRow.value < |fields| ==>
          exists k | i <= k < fixedRow.value :: fields[k].FixedCount())
  }

  /** What holds between rows: every required row so far was seen, no fixed-count array is unfinished. */
  ghost predicate SentBefore(fields: seq<Field>, i: nat, st: State)
    requires StateFits(fields, st) && i <= |fields|
  {
    && FixedComplete(fields, st)
    && FixedInOrder(fields, i, st.fixedRow)
    && forall r: nat | r < RequiredBefore(fields, i) && r < PB_MAX_REQUIRED_FIELDS :: r in st.seen
  }

  lemma RowMerges(fields: seq<Field>, b: seq<Slot>, i: nat, st: State)
    requires TableOk(fields) && StateFits(fields, st) && Fits(fields, b) && i < |fields| && FieldOk(fields[i])
    requires EncodeField(fields[i], SlotAt(fields, b, i)).Some?
    requires SentBefore(fields, i, st)
    ensures MergeRow(fields, st.slots, b, i).None? <==> StepRow(fields, b, i, st).None?
    ensures StepRow(fields, b, i, st).Some? ==>
      && StepRow(fields, b, i, st).value.slots == MergeRow(fields, st.slots, b, i).value
      && SentBefore(fields, i + 1, StepRow(fields, b, i, st).value)
  {
    hide *;
    if fields[i].htype.Repeated? {
      ArrayRowMerges(fields, b, i, st);
    } else {
      SingleRowMerges(fields, b, i, st);
    }
  }

  lemma SingleRowMerges(fields: seq<Field>, b: seq<Slot>, i: nat, st: State)
    requires TableOk(fields) && StateFits(fields, st) && Fits(fields, b) && i < |fields| && FieldOk(fields[i])
    requires !fields[i].htype.Repeated?
    requires EncodeField(fields[i], SlotAt(fields, b, i)).Some?
    requires SentBefore(fields, i, st)
    ensures MergeRow(fields, st.slots, b, i).None? <==> StepRow(fields, b, i, st).None?
    ensures StepRow(fields, b, i, st).Some? ==>
      && StepRow(fields, b, i, st).value.slots == MergeRow(fields, st.slots, b, i).value
      && SentBefore(fields, i + 1, StepRow(fields, b, i, st).value)
  {
    hide MergeRow, EncodeField, EncodeValue, TableOk, FieldOk, ValueFits, SlotFits;
  }

  lemma ArrayRowMerges(fields: seq<Field>, b: seq<Slot>, i: nat, st: State)
    requires TableOk(fields) && StateFits(fields, st) && Fits(fields, b) && i < |fields| && FieldOk(fields[i])
    requires fields[i].htype.Repeated?
    requires EncodeField(fields[i], SlotAt(fields, b, i)).Some?
    requires SentBefore(fields, i, st)
    ensures MergeRow(fields, st.slots, b, i).None? <==> StepRow(fields, b, i, st).None?
    ensures StepRow(fields, b, i, st).Some? ==>
      && StepRow(fields, b, i, st).value.slots == MergeRow(fields, st.slots, b, i).value
      && SentBefore(fields, i + 1, StepRow(fields, b, i, st).value)
  {
    if Count(fields[i], SlotAt(fields, b, i)) == 0 {
      EmptyArrayMerges(fields, b, i, st);
    } else {
      SentArrayMerges(fields, b, i, st);
    }
  }

  lemma EmptyArrayMerges(fields: seq<Field>, b: seq<Slot>, i: nat, st: State)
    requires TableOk(fields) && StateFits(fields, st) && Fits(fields, b) && i < |fields| && FieldOk(fields[i])
    requires fields[i].htype.Repeated? && Count(fields[i], SlotAt(fields, b, i)) == 0
    requires EncodeField(fields[i], SlotAt(fields, b, i)).Some?
    requires SentBefore(fields, i, st)
    ensures MergeRow(fields, st.slots, b, i) == Some(st.slots) && StepRow(fields, b, i, st) == Some(st)
    ensures SentBefore(fields, i + 1, st)
  {
    hide MergeItems, MergeValue, EncodeField, EncodeValue, TableOk, ValueFits;
    var f := fields[i];
    var s := SlotAt(fields, st.slots, i);
    var t := SlotAt(fields, b, i);
    PutSame(fields, st.slots, i);
    NothingMerged(f, Elements(s.items, s.size));
    NothingMerged(f, Elements(s.items, if f.FixedCount() then 0 else s.size));
    assert t.items[..0] == [];
    assert MergeSlot(f, s, t) == Some(s);
  }

  lemma SentArrayMerges(fields: seq<Field>, b: seq<Slot>, i: nat, st: State)
    requires TableOk(fields) && StateFits(fields, st) && Fits(fields, b) && i < |fields| && FieldOk(fields[i])
    requires fields[i].htype.Repeated? && Count(fields[i], SlotAt(fields, b, i)) > 0
    requires EncodeField(fields[i], SlotAt(fields, b, i)).Some?
    requires SentBefore(fields, i, st)
    ensures MergeRow(fields, st.slots, b, i).None? <==> StepRow(fields, b, i, st).None?
    ensures StepRow(fields, b, i, st).Some? ==>
      && StepRow(fields, b, i, st).value.slots == MergeRow(fields, st.slots, b, i).value
      && SentBefore(fields, i + 1, StepRow(fields, b, i, st).value)
  {
    hide MergeItems, MergeValue, EncodeField, EncodeValue, TableOk, ValueFits;
    var f := fields[i];
    var s := SlotAt(fields, st.slots, i);
    var t := SlotAt(fields, b, i);
    ArrayEncodable(f, t);
    var entered := Enter(fields, st, i).value;
    var merged := MergeItems(f, ArrayAt(fields, entered, i), t.items[..Count(f, t)]);
    assert MergeSlot(f, s, t) == match merged
      case Some(e) => Some(Slot(if f.FixedCount() then s.size else e.count, e.items))
      case None => None;
  }

  lemma NothingMerged(f: Field, e: Elements)
    requires FieldOk(f) && ElementsFit(f, e)
    ensures MergeItems(f, e, []) == Some(e)
  {
  }

  /** Rows i and later. */
  lemma {:induction false} RowsStep(fields: seq<Field>, b: seq<Slot>, i: nat, tail: seq<byte>, st: State)
    returns (st': State)
    requires TableOk(fields) && StateFits(fields, st) && Fits(fields, b) && i <= |fields|
    requires EncodeFrom(fields, b, i).Some? && |EncodeFrom(fields, b, i).value| < TWO_32
    requires SentBefore(fields, i, st)
    ensures StateFits(fields, st')
    ensures DecodeLoop(fields, EncodeFrom(fields, b, i).value + tail, st)
         == if MergeFrom(fields, st.slots, b, i).None? then Fail else DecodeLoop(fields, tail, st')
    ensures MergeFrom(fields, st.slots, b, i).Some? ==>
      st'.slots == MergeFrom(fields, st.slots, b, i).value && SentBefore(fields, |fields|, st')
    decreases fields, |fields| - i
  {
    hide DecodeLoop, StepRow, MergeRow;
    st' := st;
    if i == |fields| {
      assert [] + tail == tail;
    } else {
      var f := fields[i];
      assert FieldOk(f);
      var first := EncodeField(f, SlotAt(fields, b, i)).value;
      var rest := EncodeFrom(fields, b, i + 1).value;
      assert first + rest + tail == first + (rest + tail);
      if f.htype.Repeated? {
        ArrayRowStep(fields, b, i, rest + tail, st);
      } else {
        SingleRowStep(fields, b, i, rest + tail, st);
      }
      RowMerges(fields, b, i, st);
      if StepRow(fields, b, i, st).Some? {
        st' := RowsStep(fields, b, i + 1, tail, StepRow(fields, b, i, st).value);
      }
    }
  }

  /** pb_decode_noinit of the encoding of b gives exactly the merge, and fails exactly when there is none. */
  lemma {:induction false} MessageStep(fields: seq<Field>, a: seq<Slot>, b: seq<Slot>)
    requires TableOk(fields) && Fits(fields, a) && Fits(fields, b)
    requires EncodeFrom(fields, b, 0).Some? && |EncodeFrom(fields, b, 0).value| < TWO_32
    ensures DecodeNoinit(fields, EncodeFrom(fields, b, 0).value, a) == Lift(MergeFrom(fields, a, b, 0), [])
    decreases fields, |fields| + 1
  {
    var bs := EncodeFrom(fields, b, 0).value;
    assert bs + [] == bs;
    var st := RowsStep(fields, b, 0, [], Start(a));
  }
}
