// Record-level properties of the decoder: unknown fields, packed and unpacked arrays.
module Records {
  import opened Bits
  import opened Varints
  import opened Fields
  import opened Scalars
  import opened Encoding
  import opened Decoding
  import opened MergeProof

  // ---- a record is decoded without looking at what follows it ----

  lemma ReadBlockExtend(bs: seq<byte>, tail: seq<byte>)
    requires ReadBlock(bs).Done?
    ensures ReadBlock(bs + tail) == Done(ReadBlock(bs).value, ReadBlock(bs).rest + tail)
  {
    ReadVarint32Extend(bs, tail);
    ReadBytesExtend(ReadVarint32(bs).rest, ReadVarint32(bs).value, tail);
  }

  lemma BufferExtend(f: Field, bs: seq<byte>, was: Value, tail: seq<byte>)
    requires FieldOk(f) && ValueFits(f, was) && DecodeValue(f, bs, was).Done?
    requires f.ltype.Bytes? || f.ltype.String? || f.ltype.FixedLengthBytes?
    ensures DecodeValue(f, bs + tail, was) == Done(DecodeValue(f, bs, was).value, DecodeValue(f, bs, was).rest + tail)
  {
    hide ReadVarint32, ReadBytes;
    ReadVarint32Extend(bs, tail);
    var n := ReadVarint32(bs).value;
    var rest := ReadVarint32(bs).rest;
    if ReadBytes(rest, n).Done? {
      ReadBytesExtend(rest, n, tail);
    }
  }

  lemma DecodeValueExtend(f: Field, bs: seq<byte>, was: Value, tail: seq<byte>)
    requires FieldOk(f) && ValueFits(f, was) && DecodeValue(f, bs, was).Done?
    ensures DecodeValue(f, bs + tail, was) == Done(DecodeValue(f, bs, was).value, DecodeValue(f, bs, was).rest + tail)
  {
    match f.ltype
    case Bytes | String | FixedLengthBytes =>
      BufferExtend(f, bs, was, tail);
    case Submessage(_) =>
      hide DecodeNoinit, ReadBlock;
      ReadBlockExtend(bs, tail);
    case _ =>
      hide DecodeScalar;
      DecodeScalarExtend(f, bs, tail);
  }

  lemma DecodeElementsExtend(f: Field, wireType: nat, bs: seq<byte>, e: Elements, tail: seq<byte>)
    requires FieldOk(f) && ElementsFit(f, e) && DecodeElements(f, wireType, bs, e).Done?
    ensures DecodeElements(f, wireType, bs + tail, e)
         == Done(DecodeElements(f, wireType, bs, e).value, DecodeElements(f, wireType, bs, e).rest + tail)
  {
    hide DecodeValue, ReadBlock, ReadPacked;
    if wireType == WT_STRING && f.ltype.Packable() {
      ReadBlockExtend(bs, tail);
    } else {
      DecodeValueExtend(f, bs, e.items[e.count], tail);
    }
  }

  lemma DecodeFieldExtend(fields: seq<Field>, i: nat, wireType: nat, bs: seq<byte>, st: State, tail: seq<byte>)
    requires TableOk(fields) && i < |fields| && StateFits(fields, st)
    requires DecodeField(fields, i, wireType, bs, st).Done?
    ensures DecodeField(fields, i, wireType, bs + tail, st)
         == Done(DecodeField(fields, i, wireType, bs, st).value, DecodeField(fields, i, wireType, bs, st).rest + tail)
  {
    hide DecodeValue, DecodeElements, WithArray, Put, TableOk, Enter, ArrayAt;
    var f := fields[i];
    TableRow(fields, i);
    var s := SlotAt(fields, st.slots, i);
    if f.htype.Repeated? {
      DecodeElementsExtend(f, wireType, bs, ArrayAt(fields, Enter(fields, st, i).value, i), tail);
    } else {
      DecodeValueExtend(f, bs, if f.htype.Oneof? then UnionBefore(f, s) else s.items[0], tail);
    }
  }

  lemma {:induction false} SkipVarintExtend(bs: seq<byte>, tail: seq<byte>)
    requires SkipVarint(bs).Done?
    ensures SkipVarint(bs + tail) == Done((), SkipVarint(bs).rest + tail)
  {
    assert (bs + tail)[1..] == bs[1..] + tail;
    if bs[0] >= 128 {
      SkipVarintExtend(bs[1..], tail);
    }
  }

  lemma SkipBytesExtend(bs: seq<byte>, n: nat, tail: seq<byte>)
    requires SkipBytes(bs, n).Done?
    ensures SkipBytes(bs + tail, n) == Done((), SkipBytes(bs, n).rest + tail)
  {
    assert (bs + tail)[n..] == bs[n..] + tail;
  }

  lemma SkipExtend(bs: seq<byte>, wireType: nat, tail: seq<byte>)
    requires Skip(bs, wireType).Done?
    ensures Skip(bs + tail, wireType) == Done((), Skip(bs, wireType).rest + tail)
  {
    hide ReadVarint32;
    if wireType == WT_VARINT {
      SkipVarintExtend(bs, tail);
    } else if wireType == WT_64BIT {
      SkipBytesExtend(bs, 8, tail);
    } else if wireType == WT_STRING {
      ReadVarint32Extend(bs, tail);
      SkipBytesExtend(ReadVarint32(bs).rest, ReadVarint32(bs).value, tail);
    } else {
      SkipBytesExtend(bs, 4, tail);
    }
  }

  lemma DecodeRecordExtend(fields: seq<Field>, tag: nat, wireType: nat, bs: seq<byte>, st: State, tail: seq<byte>)
    requires TableOk(fields) && StateFits(fields, st)
    requires DecodeRecord(fields, tag, wireType, bs, st).Done?
    ensures DecodeRecord(fields, tag, wireType, bs + tail, st)
         == Done(DecodeRecord(fields, tag, wireType, bs, st).value,
                 DecodeRecord(fields, tag, wireType, bs, st).rest + tail)
  {
    hide DecodeField, Skip;
    match Find(fields, tag)
    case Some(i) => DecodeFieldExtend(fields, i, wireType, bs, st, tail);
    case None => SkipExtend(bs, wireType, tail);
  }

  // ---- record boundaries ----

  /** Decoding the records of bs, which must end at a record boundary and hold no terminator. */
  function Run(fields: seq<Field>, bs: seq<byte>, st: State): (r: Option<State>)
    requires TableOk(fields) && StateFits(fields, st)
    ensures r.Some? ==> StateFits(fields, r.value)
    decreases |bs|
  {
    if bs == [] then Some(st)
    else
      match ReadTag(bs)
      case Tag(tag, wireType, rest) =>
        (match DecodeRecord(fields, tag, wireType, rest, st)
         case Done(st', rest') => Run(fields, rest', st')
         case Fail => None)
      case _ => None
  }

  lemma ReadTagExtend(bs: seq<byte>, tail: seq<byte>)
    requires bs != [] && ReadTag(bs).Tag?
    ensures ReadTag(bs + tail) == ReadTag(bs).(rest := ReadTag(bs).rest + tail)
  {
    hide ReadVarint32;
    ReadVarint32Extend(bs, tail);
  }

  lemma {:induction false} RunThen(fields: seq<Field>, before: seq<byte>, after: seq<byte>, st: State)
    requires TableOk(fields) && StateFits(fields, st) && Run(fields, before, st).Some?
    ensures DecodeLoop(fields, before + after, st) == DecodeLoop(fields, after, Run(fields, before, st).value)
    decreases |before|
  {
    hide DecodeRecord, ReadTag;
    if before == [] {
      assert before + after == after;
    } else {
      var t := ReadTag(before);
      ReadTagExtend(before, after);
      DecodeRecordExtend(fields, t.tag, t.wireType, t.rest, st, after);
      var p := DecodeRecord(fields, t.tag, t.wireType, t.rest, st);
      RunThen(fields, p.rest, after, p.value);
    }
  }

  // ---- unknown fields ----

  /** A base-128 varint of any length. */
  predicate IsVarint(bs: seq<byte>)
  {
    bs != [] && if bs[0] < 128 then |bs| == 1 else IsVarint(bs[1..])
  }

  /** Payload of a record of the given wire type, as the wire format defines it. */
  ghost predicate IsPayload(wireType: nat, payload: seq<byte>)
  {
    || (wireType == WT_VARINT && IsVarint(payload))
    || (wireType == WT_64BIT && |payload| == 8)
    || (wireType == WT_STRING && exists data :: |data| < TWO_32 && payload == Block(data))
    || (wireType == WT_32BIT && |payload| == 4)
  }

  lemma {:induction false} VarintSkipped(bs: seq<byte>)
    requires IsVarint(bs)
    ensures SkipVarint(bs) == Done((), [])
  {
    if bs[0] >= 128 {
      VarintSkipped(bs[1..]);
    }
  }

  lemma PayloadSkipped(wireType: nat, payload: seq<byte>)
    requires IsPayload(wireType, payload)
    ensures Skip(payload, wireType) == Done((), []) && wireType < 8
  {
    hide ReadVarint32;
    if wireType == WT_VARINT {
      VarintSkipped(payload);
    } else if wireType == WT_STRING {
      var data :| |data| < TWO_32 && payload == Block(data);
      BlockParts(data, []);
      assert Block(data) + [] == Block(data) && data + [] == data;
    }
  }

  /** Any bytes the decoder reads as one whole record with a field number outside the table. */
  predicate UnknownRecord(fields: seq<Field>, record: seq<byte>)
  {
    var t := ReadTag(record);
    t.Tag? && Find(fields, t.tag).None? && Skip(t.rest, t.wireType) == Done((), [])
  }

  /** Such a record, seen by the main loop in any state. */
  lemma UnknownSkipped(fields: seq<Field>, record: seq<byte>, after: seq<byte>, st: State)
    requires TableOk(fields) && StateFits(fields, st) && UnknownRecord(fields, record)
    ensures DecodeLoop(fields, record + after, st)
         == if ReadTag(record).tag == 0 && fields == [] then Fail else DecodeLoop(fields, after, st)
  {
    hide Skip, ReadTag, DecodeField, Find;
    var t := ReadTag(record);
    if record == [] {
      NothingIsNoTag();
    } else {
      ReadTagExtend(record, after);
      SkipExtend(t.rest, t.wireType, after);
      assert [] + after == after;
      assert DecodeRecord(fields, t.tag, t.wireType, t.rest + after, st)
          == if t.tag == 0 && fields == [] then Fail else Done(st, after);
    }
  }

  lemma NothingIsNoTag()
    ensures ReadTag([]).BadTag?
  {
  }

  /** A payload of the wire format behind its tag is such a record. */
  lemma FormatIsRecord(fields: seq<Field>, tag: nat, wireType: nat, payload: seq<byte>)
    requires tag < 0x2000_0000 && Find(fields, tag).None? && IsPayload(wireType, payload)
    requires tag > 0 || wireType > 0
    ensures UnknownRecord(fields, TagBytes(tag, wireType) + payload)
    ensures ReadTag(TagBytes(tag, wireType) + payload).tag == tag
  {
    hide ReadVarint32, Skip;
    PayloadSkipped(wireType, payload);
    ReadVarint32OfVarint(8 * tag + wireType, payload);
  }

  lemma UnknownInserted(fields: seq<Field>, slots: seq<Slot>, before: seq<byte>, record: seq<byte>, after: seq<byte>)
    requires TableOk(fields) && Fits(fields, slots) && Run(fields, before, Start(slots)).Some?
    requires UnknownRecord(fields, record)
    ensures DecodeNoinit(fields, before + record + after, slots)
         == if ReadTag(record).tag == 0 && fields == [] then Fail else DecodeNoinit(fields, before + after, slots)
  {
    assert ReadTag(record).Tag?;
    hide DecodeLoop, Run, UnknownRecord, ReadTag, Complete;
    assert before + record + after == before + (record + after);
    RunThen(fields, before, record + after, Start(slots));
    RunThen(fields, before, after, Start(slots));
    UnknownSkipped(fields, record, after, Run(fields, before, Start(slots)).value);
  }

  /**
    * A record with a field number outside the table, inserted at any record boundary before a
    * terminator (an unfinished fixed-count array included), never changes the outcome, except that
    * an empty table refuses field number 0.
    */
  lemma UnknownFieldTransparent(fields: seq<Field>, slots: seq<Slot>, before: seq<byte>, record: seq<byte>)
    requires TableOk(fields) && Fits(fields, slots) && Run(fields, before, Start(slots)).Some?
    requires UnknownRecord(fields, record)
    ensures (forall after: seq<byte> ::
               DecodeNoinit(fields, before + record + after, slots) == DecodeNoinit(fields, before + after, slots))
      <==> ReadTag(record).tag != 0 || fields != []
  {
    assert ReadTag(record).Tag?;
    hide DecodeNoinit, Run, UnknownRecord, ReadTag;
    var refused := ReadTag(record).tag == 0 && fields == [];
    forall after: seq<byte>
      ensures DecodeNoinit(fields, before + record + after, slots)
           == if refused then Fail else DecodeNoinit(fields, before + after, slots)
    {
      UnknownInserted(fields, slots, before, record, after);
    }
    if refused {
      EmptyTableAccepts(before, slots);
      assert DecodeNoinit(fields, before + [], slots).Done?;
    }
  }

  lemma {:induction false} EmptyRunState(bs: seq<byte>, st: State)
    requires StateFits([], st) && Run([], bs, st).Some?
    ensures Run([], bs, st).value == st
    decreases |bs|
  {
    if bs != [] {
      var t := ReadTag(bs);
      var p := DecodeRecord([], t.tag, t.wireType, t.rest, st);
      EmptyRunState(p.rest, p.value);
    }
  }

  lemma EmptyTableAccepts(before: seq<byte>, slots: seq<Slot>)
    requires Fits([], slots) && Run([], before, Start(slots)).Some?
    ensures DecodeNoinit([], before + [], slots).Done?
  {
    RunThen([], before, [], Start(slots));
    EmptyRunState(before, Start(slots));
  }
}
