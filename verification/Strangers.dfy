// A message decoded with a table that knows none of its fields, and messages with something behind a terminator.
module Strangers {
  import opened Bits
  import opened Varints
  import opened Fields
  import opened Scalars
  import opened Encoding
  import opened Decoding
  import opened Merging
  import opened MergeProof
  import opened Records
  import opened Views
  import opened RoundTrip

  // ---- every record that is written is a record of the wire format ----

  lemma {:induction false} VarintIsVarint(v: nat)
    ensures IsVarint(Varints.Varint(v))
  {
    if v >= 128 {
      VarintIsVarint(v / 128);
      assert Varints.Varint(v)[1..] == Varints.Varint(v / 128);
    }
  }

  lemma ValueIsPayload(f: Field, v: Value)
    requires FieldOk(f) && ValueFits(f, v) && EncodeValue(f, v).Some? && |EncodeValue(f, v).value| < TWO_32
    ensures IsPayload(f.ltype.WireType(), EncodeValue(f, v).value)
  {
    match f.ltype
    case Varint | Uvarint => VarintIsVarint(Unsigned64(v.n));
    case Svarint => VarintIsVarint(ZigZag(v.n));
    case Fixed32 =>
    case Fixed64 =>
    case Bytes => BlockIsPayload(v.data[..v.size]);
    case String => BlockIsPayload(v.data[..StringLength(v.data)]);
    case FixedLengthBytes => BlockIsPayload(v.data);
    case Submessage(fields) => BlockIsPayload(EncodeFrom(fields, v.slots, 0).value);
  }

  lemma BlockIsPayload(data: seq<byte>)
    requires |Block(data)| < TWO_32
    ensures IsPayload(WT_STRING, Block(data))
  {
  }

  lemma RecordSkipped(other: seq<Field>, tag: nat, wireType: nat, payload: seq<byte>, tail: seq<byte>, st: State)
    requires TableOk(other) && StateFits(other, st) && Find(other, tag).None?
    requires 0 < tag < 0x2000_0000 && IsPayload(wireType, payload)
    ensures wireType < 8
    ensures DecodeLoop(other, TagBytes(tag, wireType) + payload + tail, st) == DecodeLoop(other, tail, st)
  {
    assert wireType < 8;
    hide DecodeLoop, UnknownRecord, IsPayload, ReadTag;
    FormatIsRecord(other, tag, wireType, payload);
    UnknownSkipped(other, TagBytes(tag, wireType) + payload, tail, st);
  }

  lemma {:induction false} TaggedSkipped(f: Field, items: seq<Value>, other: seq<Field>, tail: seq<byte>, st: State)
    requires FieldOk(f) && forall k | 0 <= k < |items| :: ValueFits(f, items[k])
    requires Tagged(f, items).Some? && |Tagged(f, items).value| < TWO_32
    requires TableOk(other) && StateFits(other, st) && Find(other, f.tag).None?
    ensures DecodeLoop(other, Tagged(f, items).value + tail, st) == DecodeLoop(other, tail, st)
    decreases |items|
  {
    hide DecodeLoop, EncodeValue, IsPayload, ValueFits, TableOk, Find;
    if items == [] {
      assert [] + tail == tail;
    } else {
      var value := EncodeValue(f, items[0]).value;
      var rest := Tagged(f, items[1..]).value + tail;
      assert Tagged(f, items).value + tail == FieldTag(f) + value + rest;
      ValueIsPayload(f, items[0]);
      RecordSkipped(other, f.tag, f.ltype.WireType(), value, rest, st);
      TaggedSkipped(f, items[1..], other, tail, st);
    }
  }

  lemma FieldSkipped(f: Field, s: Slot, other: seq<Field>, tail: seq<byte>, st: State)
    requires FieldOk(f) && SlotFits(f, s) && EncodeField(f, s).Some? && |EncodeField(f, s).value| < TWO_32
    requires TableOk(other) && StateFits(other, st) && Find(other, f.tag).None?
    ensures DecodeLoop(other, EncodeField(f, s).value + tail, st) == DecodeLoop(other, tail, st)
  {
    hide DecodeLoop, EncodeValue, IsPayload, ValueFits, TableOk, Find, IsZero;
    if f.htype.Repeated? {
      var items := s.items[..if Count(f, s) <= |s.items| then Count(f, s) else 0];
      if items == [] {
        assert [] + tail == tail;
      } else if f.ltype.Packable() {
        var data := PackedData(f, items).value;
        BlockIsPayload(data);
        RecordSkipped(other, f.tag, WT_STRING, Block(data), tail, st);
      } else {
        TaggedSkipped(f, items, other, tail, st);
      }
    } else if IsPresent(f, s) {
      ValueIsPayload(f, s.items[0]);
      RecordSkipped(other, f.tag, f.ltype.WireType(), EncodeValue(f, s.items[0]).value, tail, st);
    } else {
      assert [] + tail == tail;
    }
  }

  /** No field number is in both tables. */
  predicate Apart(fields: seq<Field>, other: seq<Field>)
  {
    forall i | 0 <= i < |fields| :: Find(other, fields[i].tag).None?
  }

  lemma {:induction false} RowsSkipped(
    fields: seq<Field>, b: seq<Slot>, i: nat, other: seq<Field>, tail: seq<byte>, st: State)
    requires TableOk(fields) && Fits(fields, b) && i <= |fields|
    requires EncodeFrom(fields, b, i).Some? && |EncodeFrom(fields, b, i).value| < TWO_32
    requires TableOk(other) && StateFits(other, st) && Apart(fields, other)
    ensures DecodeLoop(other, EncodeFrom(fields, b, i).value + tail, st) == DecodeLoop(other, tail, st)
    decreases |fields| - i
  {
    hide DecodeLoop, EncodeField, FieldOk, SlotFits, Find;
    if i == |fields| {
      assert [] + tail == tail;
    } else {
      assert FieldOk(fields[i]);
      var first := EncodeField(fields[i], SlotAt(fields, b, i)).value;
      var rest := EncodeFrom(fields, b, i + 1).value;
      assert first + rest + tail == first + (rest + tail);
      FieldSkipped(fields[i], SlotAt(fields, b, i), other, rest + tail, st);
      RowsSkipped(fields, b, i + 1, other, tail, st);
    }
  }

  /**
    * A message means nothing to a table that shares no field number with it: its bytes, wherever they stand
    * between records, leave the decoder as it was; alone they decode to the unchanged struct, and fail exactly when
    * the other table has a required field.
    */
  lemma StrangersAreSkipped(fields: seq<Field>, b: seq<Slot>, other: seq<Field>, memory: seq<Slot>)
    requires TableOk(fields) && Fits(fields, b) && Encode(fields, b).Some? && |Encode(fields, b).value| < TWO_32
    requires TableOk(other) && Fits(other, memory) && Apart(fields, other)
    ensures forall tail: seq<byte>, st | StateFits(other, st) ::
      DecodeLoop(other, Encode(fields, b).value + tail, st) == DecodeLoop(other, tail, st)
    ensures DecodeNoinit(other, Encode(fields, b).value, memory)
         == if forall i | 0 <= i < |other| :: !other[i].htype.Required? then Done(memory, []) else Fail
  {
    hide DecodeLoop, Complete, Apart, TableOk, Fits, EncodeFrom;
    forall tail: seq<byte>, st | StateFits(other, st)
      ensures DecodeLoop(other, Encode(fields, b).value + tail, st) == DecodeLoop(other, tail, st)
    {
      RowsSkipped(fields, b, 0, other, tail, st);
    }
    var bs := Encode(fields, b).value;
    RowsSkipped(fields, b, 0, other, [], Start(memory));
    assert bs + [] == bs;
    NothingLeft(other, Start(memory));
    NothingMissing(other, memory);
  }

  lemma NothingMissing(fields: seq<Field>, memory: seq<Slot>)
    requires Fits(fields, memory)
    ensures Complete(fields, Start(memory)) <==> forall i | 0 <= i < |fields| :: !fields[i].htype.Required?
  {
    hide Fits;
    var st := Start(memory);
    if i :| 0 <= i < |fields| && fields[i].htype.Required? {
      RequiredBeforeMonotone(fields, i, |fields|);
      var r: nat := 0;
      assert r < Tracked(fields) && r !in st.seen;
    } else if Tracked(fields) > 0 {
      var i := RequiredRow(fields, |fields|, 0);
    }
  }

  // ---- a zero tag ends a message ----

  lemma ZeroEnds(fields: seq<Field>, tail: seq<byte>, st: State)
    requires TableOk(fields) && StateFits(fields, st)
    ensures DecodeLoop(fields, [0] + tail, st) == Done(st, tail)
  {
    assert ([0] + tail)[1..] == tail;
    assert ReadVarint32([0] + tail) == Done(0, tail);
  }

  /** Records before a zero tag are all that is decoded; what follows it is not looked at. */
  lemma TerminatorEnds(fields: seq<Field>, before: seq<byte>, tail: seq<byte>, st: State)
    requires TableOk(fields) && StateFits(fields, st) && Run(fields, before, st).Some?
    ensures DecodeLoop(fields, before + [0] + tail, st) == Done(Run(fields, before, st).value, tail)
    ensures DecodeLoop(fields, before, st) == Done(Run(fields, before, st).value, [])
  {
    hide Run, DecodeLoop;
    assert before + [0] + tail == before + ([0] + tail) && before + [] == before;
    RunThen(fields, before, [0] + tail, st);
    RunThen(fields, before, [], st);
    ZeroEnds(fields, tail, Run(fields, before, st).value);
    assert DecodeLoop(fields, [], Run(fields, before, st).value) == Done(Run(fields, before, st).value, []) by {
      NothingLeft(fields, Run(fields, before, st).value);
    }
  }

  lemma NothingLeft(fields: seq<Field>, st: State)
    requires TableOk(fields) && StateFits(fields, st)
    ensures DecodeLoop(fields, [], st) == Done(st, [])
  {
  }

  /** A submessage whose block goes on behind a zero tag: the block counts as read, and the rest of it as nothing. */
  lemma TerminatedBlock(f: Field, before: seq<byte>, junk: seq<byte>, tail: seq<byte>, was: Value)
    requires FieldOk(f) && f.ltype.Submessage? && ValueFits(f, was)
    requires |before| + 1 + |junk| < TWO_32
    requires var fields := f.ltype.fields;
      Run(fields, before, Start(if f.htype.Repeated? then SetDefaults(fields, was.slots, 0) else was.slots)).Some?
    ensures DecodeValue(f, Block(before + [0] + junk) + tail, was) == DecodeValue(f, Block(before) + tail, was)
  {
    hide Run, DecodeLoop, SetDefaults, ReadBlock;
    var fields := f.ltype.fields;
    var slots := if f.htype.Repeated? then SetDefaults(fields, was.slots, 0) else was.slots;
    TerminatorEnds(fields, before, junk, Start(slots));
    BlockRead(before + [0] + junk, tail);
    BlockRead(before, tail);
  }

  /** pb_decode reads back what pb_encode_nullterminated wrote, whatever follows it, and stops behind the zero byte. */
  lemma NullterminatedRoundTrip(fields: seq<Field>, b: seq<Slot>, memory: seq<Slot>, tail: seq<byte>)
    requires TableOk(fields) && Fits(fields, b) && Fits(fields, memory)
    requires Encode(fields, b).Some? && |Encode(fields, b).value| < TWO_32
    ensures Decode(fields, Encode(fields, b).value + [0] + tail, memory).Done? <==> Terminated(fields, b)
    ensures Terminated(fields, b) ==>
      var p := Decode(fields, Encode(fields, b).value + [0] + tail, memory);
      p.rest == tail && View(fields, p.value) == View(fields, b)
  {
    hide DecodeLoop, EncodeFrom, MergeFrom, SetDefaults, Terminated, View, TableOk, Fits, DecodeNoinit;
    var d := SetDefaults(fields, memory, 0);
    EncodeDecode(fields, b, memory);
    MessageStep(fields, d, b);
    MessageThenZero(fields, d, b, tail);
  }

  lemma MessageThenZero(fields: seq<Field>, d: seq<Slot>, b: seq<Slot>, tail: seq<byte>)
    requires TableOk(fields) && Fits(fields, d) && Fits(fields, b)
    requires EncodeFrom(fields, b, 0).Some? && |EncodeFrom(fields, b, 0).value| < TWO_32
    ensures DecodeNoinit(fields, EncodeFrom(fields, b, 0).value + [0] + tail, d)
         == Lift(MergeFrom(fields, d, b, 0), tail)
  {
    hide DecodeLoop, EncodeFrom, MergeFrom, TableOk, Fits;
    var bs := EncodeFrom(fields, b, 0).value;
    var st := RowsStep(fields, b, 0, [0] + tail, Start(d));
    ZeroEnds(fields, tail, st);
    assert bs + [0] + tail == bs + ([0] + tail);
  }
}
