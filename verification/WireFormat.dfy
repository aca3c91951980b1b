// The wire format of any message, read without a table, and what the encoder's bytes say in it.
module WireFormat {
  import opened Bits
  import opened Varints
  import opened Fields
  import opened Scalars
  import opened Encoding
  import opened Merging
  import opened Views

  /** A record's content behind its key. */
  datatype Payload =
    | VarintPayload(n: nat)
    | Fixed64Payload(n: nat)
    | BlockPayload(data: seq<byte>)
    | Fixed32Payload(n: nat)

  datatype Record = Record(number: nat, payload: Payload)

  // ---- a reader of records ----

  /** Groups of seven bits, least significant first; the last one has its top bit clear. */
  function ReadBase128(bs: seq<byte>): (p: Parse<nat>)
    ensures p.Done? ==> |p.rest| < |bs|
  {
    if bs == [] then Fail
    else if bs[0] < 128 then Done(bs[0], bs[1..])
    else
      match ReadBase128(bs[1..])
      case Done(v, rest) => Done(bs[0] - 128 + 128 * v, rest)
      case Fail => Fail
  }

  /** An unsigned number, least significant byte first. */
  function Unsigned(bs: seq<byte>): nat
  {
    if bs == [] then 0 else bs[0] as nat + 256 * Unsigned(bs[1..])
  }

  /** The payload of a wire type. */
  function ReadPayload(wireType: nat, bs: seq<byte>): (p: Parse<Payload>)
    ensures p.Done? ==> |p.rest| < |bs|
  {
    if wireType == 0 then
      match ReadBase128(bs)
      case Done(n, rest) => Done(VarintPayload(n), rest)
      case Fail => Fail
    else if wireType == 1 then
      if |bs| < 8 then Fail else Done(Fixed64Payload(Unsigned(bs[..8])), bs[8..])
    else if wireType == 2 then
      match ReadBase128(bs)
      case Done(n, rest) => if |rest| < n then Fail else Done(BlockPayload(rest[..n]), rest[n..])
      case Fail => Fail
    else if wireType == 5 then
      if |bs| < 4 then Fail else Done(Fixed32Payload(Unsigned(bs[..4])), bs[4..])
    else Fail
  }

  /** A record: the key is the field number and, in its low three bits, the wire type. */
  function ReadRecord(bs: seq<byte>): (p: Parse<Record>)
    ensures p.Done? ==> |p.rest| < |bs|
  {
    match ReadBase128(bs)
    case Fail => Fail
    case Done(key, rest) =>
      if key / 8 == 0 then Fail
      else
        match ReadPayload(key % 8, rest)
        case Done(payload, rest') => Done(Record(key / 8, payload), rest')
        case Fail => Fail
  }

  function ReadMessage(bs: seq<byte>): Option<seq<Record>>
    decreases |bs|
  {
    if bs == [] then Some([])
    else
      match ReadRecord(bs)
      case Fail => None
      case Done(first, rest) =>
        match ReadMessage(rest)
        case Some(others) => Some([first] + others)
        case None => None
  }

  // ---- what records say ----

  /** The wire type of a single element, by the kind of its field. */
  function KindOf(f: Field): nat
  {
    match f.ltype
    case Varint | Uvarint | Svarint => 0
    case Fixed64 => 1
    case Bytes | String | FixedLengthBytes | Submessage(_) => 2
    case Fixed32 => 5
  }

  /** An observable value that is zero: a message is when each of its rows is empty, or a proto3 value that is zero.
      A fixed-length byte field is zero only when its length is. */
  predicate ZeroObs(f: Field, o: Obs)
    decreases f, 0
  {
    match o
    case ONum(n) => n == 0
    case OBytes(data) => data == []
    case OMsg(rows) =>
      && f.ltype.Submessage? && |rows| == |f.ltype.fields|
      && forall i | 0 <= i < |rows| :: ZeroRowObs(f.ltype.fields[i], rows[i])
  }

  predicate ZeroRowObs(f: Field, row: seq<Obs>)
    decreases f, 1
  {
    row == [] || (f.Singular() && |row| == 1 && ZeroObs(f, row[0]))
  }

  /** The payload says the value. */
  ghost predicate Says(f: Field, p: Payload, o: Obs)
    decreases f, 0
  {
    match f.ltype
    case Varint | Uvarint =>
      o.ONum? && p.VarintPayload? && p.n == if o.n < 0 then 0x1_0000_0000_0000_0000 + o.n else o.n
    case Svarint => o.ONum? && p.VarintPayload? && p.n == if o.n < 0 then -2 * o.n - 1 else 2 * o.n
    case Fixed32 => o.ONum? && p.Fixed32Payload? && p.n == o.n
    case Fixed64 => o.ONum? && p.Fixed64Payload? && p.n == o.n
    case Bytes | String | FixedLengthBytes => o.OBytes? && p == BlockPayload(o.data)
    case Submessage(fields) => o.OMsg? && p.BlockPayload? && MessageSays(fields, p.data, o.rows)
  }

  /** The bytes are one record after the other that say the rows in table order. */
  ghost predicate MessageSays(fields: seq<Field>, bs: seq<byte>, rows: seq<seq<Obs>>)
    decreases fields, |fields| + 1
  {
    && |rows| == |fields|
    && ReadMessage(bs).Some?
    && RowsSay(fields, ReadMessage(bs).value, rows, 0)
  }

  ghost predicate RowsSay(fields: seq<Field>, records: seq<Record>, rows: seq<seq<Obs>>, i: nat)
    requires |rows| == |fields| && i <= |fields|
    decreases fields, |fields| - i
  {
    if i == |fields| then records == []
    else
      exists n | 0 <= n <= |records| ::
        RowSays(fields[i], records[..n], rows[i]) && RowsSay(fields, records[n..], rows, i + 1)
  }

  /** A row's records: a block for a scalar array, otherwise one for each value; a zero may be left out. */
  ghost predicate RowSays(f: Field, records: seq<Record>, row: seq<Obs>)
    decreases f, 2
  {
    && (forall k | 0 <= k < |records| :: records[k].number == f.tag)
    && if f.htype.Repeated? && f.ltype.Packable() then
         if row == [] then records == []
         else |records| == 1 && records[0].payload.BlockPayload? && PackedSays(f, records[0].payload.data, row)
       else if records == [] then ZeroRowObs(f, row)
       else |records| == |row| && forall k | 0 <= k < |row| :: Says(f, records[k].payload, row[k])
  }

  /** The block is one payload after the other. */
  ghost predicate PackedSays(f: Field, data: seq<byte>, row: seq<Obs>)
    decreases f, 1, |row|
  {
    if row == [] then data == []
    else
      var p := ReadPayload(KindOf(f), data);
      p.Done? && Says(f, p.value, row[0]) && PackedSays(f, p.rest, row[1..])
  }

  // ---- reading goes record by record ----

  lemma {:induction false} Base128Extend(bs: seq<byte>, tail: seq<byte>)
    requires ReadBase128(bs).Done?
    ensures ReadBase128(bs + tail) == Done(ReadBase128(bs).value, ReadBase128(bs).rest + tail)
  {
    assert (bs + tail)[1..] == bs[1..] + tail;
    if bs[0] >= 128 {
      Base128Extend(bs[1..], tail);
    }
  }

  lemma PayloadExtend(wireType: nat, bs: seq<byte>, tail: seq<byte>)
    requires ReadPayload(wireType, bs).Done?
    ensures ReadPayload(wireType, bs + tail)
         == Done(ReadPayload(wireType, bs).value, ReadPayload(wireType, bs).rest + tail)
  {
    hide ReadBase128, Unsigned;
    if wireType == 0 {
      Base128Extend(bs, tail);
    } else if wireType == 1 {
      Cut(bs, tail, 8);
    } else if wireType == 2 {
      Base128Extend(bs, tail);
      Cut(ReadBase128(bs).rest, tail, ReadBase128(bs).value);
    } else {
      Cut(bs, tail, 4);
    }
  }

  lemma Cut(bs: seq<byte>, tail: seq<byte>, n: nat)
    requires n <= |bs|
    ensures (bs + tail)[..n] == bs[..n] && (bs + tail)[n..] == bs[n..] + tail
  {
  }

  lemma RecordExtend(bs: seq<byte>, tail: seq<byte>)
    requires ReadRecord(bs).Done?
    ensures ReadRecord(bs + tail) == Done(ReadRecord(bs).value, ReadRecord(bs).rest + tail)
  {
    hide ReadPayload, ReadBase128;
    Base128Extend(bs, tail);
    PayloadExtend(ReadBase128(bs).value % 8, ReadBase128(bs).rest, tail);
  }

  lemma {:induction false} MessageAppend(a: seq<byte>, b: seq<byte>)
    requires ReadMessage(a).Some? && ReadMessage(b).Some?
    ensures ReadMessage(a + b) == Some(ReadMessage(a).value + ReadMessage(b).value)
    decreases |a|
  {
    hide ReadRecord;
    if a == [] {
      assert a + b == b;
      assert ReadMessage(a).value + ReadMessage(b).value == ReadMessage(b).value;
    } else {
      RecordExtend(a, b);
      var rest := ReadRecord(a).rest;
      MessageAppend(rest, b);
      var first := ReadRecord(a).value;
      assert [first] + ReadMessage(rest).value + ReadMessage(b).value
          == [first] + (ReadMessage(rest).value + ReadMessage(b).value);
    }
  }

  lemma {:induction false} Base128OfVarint(v: nat, tail: seq<byte>)
    ensures ReadBase128(Varints.Varint(v) + tail) == Done(v, tail)
  {
    var bs := Varints.Varint(v);
    if v >= 128 {
      Base128OfVarint(v / 128, tail);
      assert (bs + tail)[1..] == Varints.Varint(v / 128) + tail;
    } else {
      assert (bs + tail)[1..] == tail;
    }
  }

  lemma KeyRead(tag: nat, wireType: nat, payload: seq<byte>)
    requires tag > 0 && wireType < 8 && ReadPayload(wireType, payload).Done?
    requires ReadPayload(wireType, payload).rest == []
    ensures ReadMessage(TagBytes(tag, wireType) + payload) == Some([Record(tag, ReadPayload(wireType, payload).value)])
  {
    hide ReadPayload, ReadBase128;
    var bs := TagBytes(tag, wireType) + payload;
    Base128OfVarint(8 * tag + wireType, payload);
    var record := Record(tag, ReadPayload(wireType, payload).value);
    assert ReadRecord(bs) == Done(record, []);
    assert bs != [] && ReadMessage([]) == Some([]) && [record] + [] == [record];
  }

  lemma BlockPayloadRead(data: seq<byte>)
    ensures ReadPayload(2, Block(data)) == Done(BlockPayload(data), [])
  {
    Base128OfVarint(|data|, data);
    assert data[..|data|] == data && data[|data|..] == [];
  }

  // ---- what the encoder's bytes say ----

  lemma {:induction false} UnsignedOfBytes(bs: seq<byte>)
    ensures Unsigned(bs) == FromLittleEndian(bs)
  {
    if bs != [] {
      UnsignedOfBytes(bs[1..]);
    }
  }

  lemma WordRead(n: nat)
    requires n < TWO_32
    ensures ReadPayload(5, LittleEndian(n, 4)) == Done(Fixed32Payload(n), [])
  {
    var bs := LittleEndian(n, 4);
    Pow2Values();
    LittleEndianInverse(n, 4);
    UnsignedOfBytes(bs);
    assert bs[..4] == bs && bs[4..] == [];
  }

  lemma DoubleWordRead(n: nat)
    requires n < TWO_64
    ensures ReadPayload(1, LittleEndian(n, 8)) == Done(Fixed64Payload(n), [])
  {
    var bs := LittleEndian(n, 8);
    Pow2Values();
    LittleEndianInverse(n, 8);
    UnsignedOfBytes(bs);
    assert bs[..8] == bs && bs[8..] == [];
  }

  lemma UnsignedIs(n: int)
    requires -TWO_63 <= n < TWO_64
    ensures Unsigned64(n) == if n < 0 then 0x1_0000_0000_0000_0000 + n else n
  {
  }

  lemma IntegerRange(f: Field, v: Value)
    requires FieldOk(f) && ValueFits(f, v) && (f.ltype.Varint? || f.ltype.Uvarint? || f.ltype.Svarint?)
    ensures v.Num? && -TWO_63 <= v.n < TWO_64 && (f.ltype.Svarint? ==> v.n < TWO_63)
  {
  }

  lemma IntegerSays(f: Field, v: Value)
    requires FieldOk(f) && ValueFits(f, v) && (f.ltype.Varint? || f.ltype.Uvarint? || f.ltype.Svarint?)
    ensures EncodeValue(f, v).Some?
    ensures var p := ReadPayload(0, EncodeValue(f, v).value);
      p.Done? && p.rest == [] && Says(f, p.value, ViewValue(f, v))
  {
    IntegerRange(f, v);
    var u := if f.ltype.Svarint? then ZigZag(v.n) else Unsigned64(v.n);
    if f.ltype.Svarint? {
      ZigZagInverse(v.n, 0);
    } else {
      UnsignedIs(v.n);
    }
    assert EncodeValue(f, v) == Some(Varints.Varint(u));
    hide ReadBase128, ZigZag, Unsigned64, EncodeValue, ValueFits, FieldOk;
    Base128OfVarint(u, []);
    assert Varints.Varint(u) + [] == Varints.Varint(u);
  }

  lemma ScalarSays(f: Field, v: Value)
    requires FieldOk(f) && f.ltype.Packable() && ValueFits(f, v)
    ensures EncodeValue(f, v).Some?
    ensures var p := ReadPayload(KindOf(f), EncodeValue(f, v).value);
      p.Done? && p.rest == [] && Says(f, p.value, ViewValue(f, v))
  {
    match f.ltype
    case Fixed32 =>
      hide ReadPayload, LittleEndian;
      WordRead(v.n);
    case Fixed64 =>
      hide ReadPayload, LittleEndian;
      DoubleWordRead(v.n);
    case _ =>
      hide ReadPayload, Says, EncodeValue, ViewValue;
      IntegerSays(f, v);
  }

  lemma {:induction false} ValueSays(f: Field, v: Value)
    requires FieldOk(f) && ValueFits(f, v) && EncodeValue(f, v).Some?
    ensures var p := ReadPayload(KindOf(f), EncodeValue(f, v).value);
      p.Done? && p.rest == [] && Says(f, p.value, ViewValue(f, v))
    decreases f, 0
  {
    hide ReadPayload, ReadMessage, Block;
    match f.ltype
    case Bytes => BlockPayloadRead(v.data[..v.size]);
    case String => BlockPayloadRead(v.data[..StringLength(v.data)]);
    case FixedLengthBytes => BlockPayloadRead(v.data);
    case Submessage(fields) =>
      EncodingSays(fields, v.slots);
      BlockPayloadRead(EncodeFrom(fields, v.slots, 0).value);
    case _ => ScalarSays(f, v);
  }

  lemma {:induction false} PackedDataSays(f: Field, items: seq<Value>)
    requires FieldOk(f) && f.ltype.Packable()
    requires forall k | 0 <= k < |items| :: ValueFits(f, items[k])
    requires PackedData(f, items).Some?
    ensures PackedSays(f, PackedData(f, items).value, ViewItems(f, items))
    decreases |items|
  {
    hide ReadPayload, Says, EncodeValue, ViewValue, FieldOk, ValueFits;
    if items != [] {
      var first := EncodeValue(f, items[0]).value;
      var others := PackedData(f, items[1..]).value;
      ScalarSays(f, items[0]);
      PayloadExtend(KindOf(f), first, others);
      assert [] + others == others;
      PackedDataSays(f, items[1..]);
      assert ViewItems(f, items)[1..] == ViewItems(f, items[1..]);
    }
  }

  lemma {:induction false} TaggedSays(f: Field, items: seq<Value>) returns (records: seq<Record>)
    requires FieldOk(f) && forall k | 0 <= k < |items| :: ValueFits(f, items[k])
    requires Tagged(f, items).Some?
    ensures ReadMessage(Tagged(f, items).value) == Some(records) && |records| == |items|
    ensures forall k | 0 <= k < |items| ::
      records[k].number == f.tag && Says(f, records[k].payload, ViewItems(f, items)[k])
    decreases f, 1, |items|
  {
    hide ReadPayload, Says, EncodeValue, ViewValue, ValueFits, ReadMessage;
    if items == [] {
      records := [];
      NothingRead();
    } else {
      var value := EncodeValue(f, items[0]).value;
      ValueSays(f, items[0]);
      KeyRead(f.tag, KindOf(f), value);
      var others := TaggedSays(f, items[1..]);
      MessageAppend(FieldTag(f) + value, Tagged(f, items[1..]).value);
      records := [Record(f.tag, ReadPayload(KindOf(f), value).value)] + others;
    }
  }

  lemma NothingRead()
    ensures ReadMessage([]) == Some([])
  {
  }

  lemma ArraySays(f: Field, s: Slot) returns (records: seq<Record>)
    requires FieldOk(f) && f.htype.Repeated? && SlotFits(f, s) && EncodeField(f, s).Some?
    ensures ReadMessage(EncodeField(f, s).value) == Some(records) && RowSays(f, records, ViewRow(f, s))
    decreases f, 2
  {
    hide ReadPayload, Says, EncodeValue, ViewValue, ValueFits, ReadMessage, PackedSays, PackedData;
    ArrayEncodable(f, s);
    var items := s.items[..Count(f, s)];
    if items == [] {
      records := [];
      NothingRead();
    } else if f.ltype.Packable() {
      var data := PackedData(f, items).value;
      PackedDataSays(f, items);
      BlockPayloadRead(data);
      KeyRead(f.tag, 2, Block(data));
      records := [Record(f.tag, BlockPayload(data))];
    } else {
      records := TaggedSays(f, items);
    }
  }

  lemma FieldSays(f: Field, s: Slot) returns (records: seq<Record>)
    requires FieldOk(f) && SlotFits(f, s) && EncodeField(f, s).Some?
    ensures ReadMessage(EncodeField(f, s).value) == Some(records) && RowSays(f, records, ViewRow(f, s))
    decreases f, 3
  {
    if f.htype.Repeated? {
      records := ArraySays(f, s);
    } else if IsPresent(f, s) {
      hide ReadPayload, Says, EncodeValue, ViewValue, ReadMessage;
      var value := EncodeValue(f, s.items[0]).value;
      ValueSays(f, s.items[0]);
      KeyRead(f.tag, KindOf(f), value);
      records := [Record(f.tag, ReadPayload(KindOf(f), value).value)];
    } else {
      records := [];
      if f.Singular() {
        ZeroIsZero(f, s.items[0]);
      }
    }
  }

  /** A value that passes the zero check is observably zero. */
  lemma {:induction false} ZeroIsZero(f: Field, v: Value)
    requires FieldOk(f) && f.Singular() && ValueFits(f, v) && IsZero(f, v)
    ensures ZeroObs(f, ViewValue(f, v)) && NoStrayUnion(f, v)
    decreases f
  {
    match f.ltype
    case String => assert StringLength(v.data) == 0;
    case Submessage(fields) =>
      forall i | 0 <= i < |fields|
        ensures ZeroRowObs(fields[i], ViewRow(fields[i], SlotAt(fields, v.slots, i)))
        ensures RowNotStray(fields, v.slots, i)
      {
        ZeroRowIsZero(fields, v.slots, i);
      }
    case _ =>
  }

  lemma ZeroRowIsZero(fields: seq<Field>, slots: seq<Slot>, i: nat)
    requires TableOk(fields) && NoFixedCount(fields) && Fits(fields, slots) && i < |fields|
    requires IsDefault(fields[i], SlotAt(fields, slots, i))
    ensures ZeroRowObs(fields[i], ViewRow(fields[i], SlotAt(fields, slots, i))) && RowNotStray(fields, slots, i)
    decreases fields, 0
  {
    var f, s := fields[i], SlotAt(fields, slots, i);
    assert FieldOk(f) && !f.FixedCount();
    hide ViewValue, ZeroObs, NoStrayUnion, IsZero;
    if f.Singular() {
      ZeroIsZero(f, s.items[0]);
      assert ViewRow(f, s) == [ViewValue(f, s.items[0])];
    } else {
      assert ViewRow(f, s) == [];
    }
  }

  lemma {:induction false} EncodedRowsSay(fields: seq<Field>, b: seq<Slot>, i: nat) returns (records: seq<Record>)
    requires TableOk(fields) && Fits(fields, b) && i <= |fields| && EncodeFrom(fields, b, i).Some?
    ensures ReadMessage(EncodeFrom(fields, b, i).value) == Some(records)
    ensures RowsSay(fields, records, View(fields, b), i)
    decreases fields, |fields| - i
  {
    hide ReadMessage, RowSays, EncodeField, ViewRow, FieldOk, SlotFits;
    if i == |fields| {
      records := [];
      NothingRead();
    } else {
      assert FieldOk(fields[i]);
      var first := FieldSays(fields[i], SlotAt(fields, b, i));
      var others := EncodedRowsSay(fields, b, i + 1);
      MessageAppend(EncodeField(fields[i], SlotAt(fields, b, i)).value, EncodeFrom(fields, b, i + 1).value);
      records := first + others;
      assert records[..|first|] == first && records[|first|..] == others;
    }
  }

  /**
    * Whatever is encoded, a reader that knows only the wire format finds in it the records of the observable
    * values, in table order and with the wire types 0, 1, 2 and 5 of their kinds, at every depth.
    */
  lemma {:induction false} EncodingSays(fields: seq<Field>, b: seq<Slot>)
    requires TableOk(fields) && Fits(fields, b) && EncodeFrom(fields, b, 0).Some?
    ensures MessageSays(fields, EncodeFrom(fields, b, 0).value, View(fields, b))
    decreases fields, |fields| + 1
  {
    hide ReadMessage, RowsSay;
    var records := EncodedRowsSay(fields, b, 0);
  }

  // ---- a zero is left out ----

  /** A which-tag that the zero check looks at names a member of its union, or nothing. */
  ghost predicate NoStrayUnion(f: Field, v: Value)
    requires ValueFits(f, v)
    decreases f, 0
  {
    f.ltype.Submessage? ==> forall i | 0 <= i < |f.ltype.fields| :: RowNotStray(f.ltype.fields, v.slots, i)
  }

  ghost predicate RowNotStray(fields: seq<Field>, slots: seq<Slot>, i: nat)
    requires Fits(fields, slots) && i < |fields|
    decreases fields, 0
  {
    var s := SlotAt(fields, slots, i);
    && (fields[i].htype.Oneof? && s.size != 0 ==>
          exists j | 0 <= j < |fields| :: SlotOf(fields, j) == SlotOf(fields, i) && fields[j].tag == s.size)
    && (fields[i].Singular() ==> NoStrayUnion(fields[i], s.items[0]))
  }

  lemma {:induction false} ZeroPassesCheck(f: Field, v: Value)
    requires FieldOk(f) && f.Singular() && ValueFits(f, v) && EncodeValue(f, v).Some?
    requires ZeroObs(f, ViewValue(f, v)) && NoStrayUnion(f, v)
    ensures IsZero(f, v)
    decreases f
  {
    match f.ltype
    case Submessage(fields) =>
      forall i | 0 <= i < |fields| ensures IsDefault(fields[i], SlotAt(fields, v.slots, i)) {
        RowEncodable(fields, v.slots, 0, i);
        ZeroRowPassesCheck(fields, v.slots, i);
      }
    case _ =>
  }

  lemma ZeroRowPassesCheck(fields: seq<Field>, slots: seq<Slot>, i: nat)
    requires TableOk(fields) && NoFixedCount(fields) && Fits(fields, slots) && i < |fields|
    requires EncodeField(fields[i], SlotAt(fields, slots, i)).Some?
    requires forall j | 0 <= j < |fields| :: ZeroRowObs(fields[j], ViewRow(fields[j], SlotAt(fields, slots, j)))
    requires RowNotStray(fields, slots, i)
    ensures IsDefault(fields[i], SlotAt(fields, slots, i))
    decreases fields, 0
  {
    var f, s := fields[i], SlotAt(fields, slots, i);
    assert FieldOk(f) && ZeroRowObs(f, ViewRow(f, s));
    match f.htype
    case Required =>
      hide EncodeField, ViewValue, ZeroObs;
    case Repeated =>
      hide EncodeField, ViewValue, ZeroObs;
      ArrayEncodable(f, s);
    case Oneof =>
      hide EncodeField, ViewValue, ZeroObs, FieldOk;
      UnionUnset(fields, slots, i);
    case Optional =>
      hide EncodeValue, ViewValue, ZeroObs, NoStrayUnion, IsZero;
      if f.Singular() && IsPresent(f, s) {
        ZeroPassesCheck(f, s.items[0]);
      }
  }

  lemma UnionUnset(fields: seq<Field>, slots: seq<Slot>, i: nat)
    requires TableOk(fields) && Fits(fields, slots) && i < |fields| && fields[i].htype.Oneof?
    requires forall j | 0 <= j < |fields| :: ZeroRowObs(fields[j], ViewRow(fields[j], SlotAt(fields, slots, j)))
    requires RowNotStray(fields, slots, i)
    ensures SlotAt(fields, slots, i).size == 0
  {
    hide ViewRow, ZeroRowObs, FieldOk, SlotFits, NoStrayUnion, SlotOf, Continues, TableOk, Fits;
    var s := SlotAt(fields, slots, i);
    if s.size != 0 {
      var j :| 0 <= j < |fields| && SlotOf(fields, j) == SlotOf(fields, i) && fields[j].tag == s.size;
      OtherMember(fields, i, j);
      MemberShows(fields[j], SlotAt(fields, slots, j));
    }
  }

  lemma OtherMember(fields: seq<Field>, i: nat, j: nat)
    requires i < |fields| && j < |fields| && SlotOf(fields, j) == SlotOf(fields, i) && fields[i].htype.Oneof?
    ensures fields[j].htype.Oneof?
  {
    if i < j { SharedSlotIsUnion(fields, i, j); } else if j < i { SharedSlotIsUnion(fields, j, i); }
  }

  lemma MemberShows(f: Field, s: Slot)
    requires f.htype.Oneof? && SlotFits(f, s) && s.size == f.tag
    ensures !ZeroRowObs(f, ViewRow(f, s))
  {
    hide ViewValue;
  }

  /** A proto3 value is left out exactly when it is observably zero and no which-tag in it names a stranger. */
  lemma ZeroIsLeftOut(f: Field, s: Slot)
    requires FieldOk(f) && f.Singular() && SlotFits(f, s) && EncodeField(f, s).Some?
    ensures EncodeField(f, s) == Some([])
      <==> ZeroObs(f, ViewValue(f, s.items[0])) && NoStrayUnion(f, s.items[0])
  {
    hide EncodeValue, ZeroObs, NoStrayUnion, IsZero, ViewValue, FieldOk, ValueFits;
    if IsZero(f, s.items[0]) {
      ZeroIsZero(f, s.items[0]);
    } else if ZeroObs(f, ViewValue(f, s.items[0])) && NoStrayUnion(f, s.items[0]) {
      ZeroPassesCheck(f, s.items[0]);
    }
  }

  // ---- what can be sent ----

  /** No byte array in the value is longer than its buffer, and no array that is sent longer than its storage. */
  predicate ValueSendable(f: Field, v: Value)
    requires ValueFits(f, v)
    decreases f, 0
  {
    match f.ltype
    case Bytes => v.size <= |v.data|
    case Submessage(fields) => forall i | 0 <= i < |fields| :: RowSendable(fields[i], SlotAt(fields, v.slots, i))
    case _ => true
  }

  predicate RowSendable(f: Field, s: Slot)
    requires SlotFits(f, s)
    decreases f, 1
  {
    if f.htype.Repeated? then
      Count(f, s) <= |s.items| && forall k | 0 <= k < Count(f, s) :: ValueSendable(f, s.items[k])
    else IsPresent(f, s) ==> ValueSendable(f, s.items[0])
  }

  predicate Sendable(fields: seq<Field>, slots: seq<Slot>)
    requires Fits(fields, slots)
  {
    forall i | 0 <= i < |fields| :: RowSendable(fields[i], SlotAt(fields, slots, i))
  }

  lemma {:induction false} ValueEncodable(f: Field, v: Value)
    requires FieldOk(f) && ValueFits(f, v)
    ensures EncodeValue(f, v).Some? <==> ValueSendable(f, v)
    decreases f, 0
  {
    match f.ltype
    case Submessage(fields) => EncodableExactly(fields, v.slots);
    case _ =>
  }

  lemma {:induction false} PackedSome(f: Field, items: seq<Value>)
    requires FieldOk(f) && f.ltype.Packable() && forall k | 0 <= k < |items| :: ValueFits(f, items[k])
    ensures PackedData(f, items).Some?
  {
    hide FieldOk, ValueFits;
    if items != [] {
      ScalarSays(f, items[0]);
      PackedSome(f, items[1..]);
    }
  }

  lemma {:induction false} TaggedSome(f: Field, items: seq<Value>)
    requires FieldOk(f) && forall k | 0 <= k < |items| :: ValueFits(f, items[k])
    ensures Tagged(f, items).Some? <==> forall k | 0 <= k < |items| :: ValueSendable(f, items[k])
    decreases f, 1, |items|
  {
    hide EncodeValue, ValueSendable, FieldOk, ValueFits;
    if items != [] {
      ValueEncodable(f, items[0]);
      TaggedSome(f, items[1..]);
      assert items == [items[0]] + items[1..];
      forall k | 0 <= k < |items| - 1 ensures items[1..][k] == items[k + 1] {
      }
      if forall k | 0 <= k < |items[1..]| :: ValueSendable(f, items[1..][k]) {
        forall k | 0 < k < |items| ensures ValueSendable(f, items[k]) {
          assert items[k] == items[1..][k - 1];
        }
      }
    }
  }

  lemma ArraySome(f: Field, s: Slot)
    requires FieldOk(f) && f.htype.Repeated? && SlotFits(f, s)
    ensures EncodeField(f, s).Some? <==> RowSendable(f, s)
    decreases f, 2
  {
    hide EncodeValue, FieldOk, ValueFits, PackedData, Tagged;
    var n := Count(f, s);
    if n <= |s.items| {
      var items := s.items[..n];
      if f.ltype.Packable() {
        PackedSome(f, items);
      } else {
        hide ValueSendable;
        TaggedSome(f, items);
      }
    }
  }


  lemma RowEncodableExactly(f: Field, s: Slot)
    requires FieldOk(f) && SlotFits(f, s)
    ensures EncodeField(f, s).Some? <==> RowSendable(f, s)
    decreases f, 3
  {
    if f.htype.Repeated? {
      ArraySome(f, s);
    } else if IsPresent(f, s) {
      hide EncodeValue, ValueSendable, ValueFits;
      ValueEncodable(f, s.items[0]);
    }
  }

  lemma {:induction false} RowsEncodable(fields: seq<Field>, slots: seq<Slot>, n: nat)
    requires TableOk(fields) && Fits(fields, slots) && n <= |fields|
    ensures EncodeFrom(fields, slots, n).Some?
      <==> forall i | n <= i < |fields| :: RowSendable(fields[i], SlotAt(fields, slots, i))
    decreases fields, |fields| - n
  {
    hide EncodeField, RowSendable, FieldOk, SlotFits;
    if n < |fields| {
      assert FieldOk(fields[n]);
      RowEncodableExactly(fields[n], SlotAt(fields, slots, n));
      RowsEncodable(fields, slots, n + 1);
    }
  }

  /** A struct has an encoding exactly when no sent array or byte array in it exceeds its storage, at any depth. */
  lemma {:induction false} EncodableExactly(fields: seq<Field>, slots: seq<Slot>)
    requires TableOk(fields) && Fits(fields, slots)
    ensures EncodeFrom(fields, slots, 0).Some? <==> Sendable(fields, slots)
    decreases fields, |fields| + 1
  {
    hide RowSendable;
    RowsEncodable(fields, slots, 0);
  }

  const UNION_TABLE := [Field(2, Uvarint, Oneof, 8, -8, 4, 0, None)]
  const AROUND_UNION := Field(1, Submessage(UNION_TABLE), Optional, 0, 0, 12, 0, None)
  const STRAY_UNION := [Slot(7, [Num(0)])]

  lemma StrayUnionFits()
    ensures TableOk(UNION_TABLE) && FieldOk(AROUND_UNION) && AROUND_UNION.Singular()
    ensures SlotOf(UNION_TABLE, 0) == 0 && Fits(UNION_TABLE, STRAY_UNION)
    ensures ValueFits(AROUND_UNION, Msg(STRAY_UNION)) && SlotFits(AROUND_UNION, Slot(0, [Msg(STRAY_UNION)]))
  {
    assert FieldOk(UNION_TABLE[0]) && SlotFits(UNION_TABLE[0], STRAY_UNION[0]);
    assert SlotCount(UNION_TABLE) == 1 && RowFits(UNION_TABLE, STRAY_UNION, 0);
    assert Fits(UNION_TABLE, STRAY_UNION);
    assert ValueFits(AROUND_UNION, Msg(STRAY_UNION));
  }

  /** A union whose which-tag names no member: nothing of it can be observed, yet the submessage around it is sent. */
  lemma StrayUnionIsSent()
    ensures var f, s := AROUND_UNION, Slot(0, [Msg(STRAY_UNION)]);
      && FieldOk(f) && f.Singular() && SlotFits(f, s)
      && ZeroObs(f, ViewValue(f, s.items[0])) && EncodeField(f, s).Some? && EncodeField(f, s) != Some([])
  {
    var f, v := AROUND_UNION, Msg(STRAY_UNION);
    StrayUnionFits();
    var member, inner := UNION_TABLE[0], SlotAt(UNION_TABLE, STRAY_UNION, 0);
    assert inner == STRAY_UNION[0] && ViewRow(member, inner) == [];
    assert ZeroRowObs(member, ViewRow(member, inner)) && ZeroObs(f, ViewValue(f, v));
    assert RowSendable(member, inner);
    EncodableExactly(UNION_TABLE, STRAY_UNION);
    assert !RowNotStray(UNION_TABLE, STRAY_UNION, 0) && !NoStrayUnion(f, v);
    hide NoStrayUnion, ZeroObs, IsZero, ValueFits;
    assert EncodeValue(f, v).Some?;
    ZeroIsLeftOut(f, Slot(0, [v]));
  }
}
