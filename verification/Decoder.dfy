// The decoder as it runs: pb_decode and everything below it, reading from an input stream.
module Decoder {
  import opened Bits
  import opened Varints
  import opened Fields
  import opened Scalars
  import opened Decoding
  import opened FieldIterators
  import opened RequiredBitmap
  import opened InputStreams

  // ---- one value ----

  method DecVarint(s: IStream, f: Field) returns (ok: bool, dest: int)
    requires s.Valid() && f.ltype.Varint?
    modifies s
    ensures s.Valid() && s.End() == old(s.End())
    ensures ok <==> DecodeScalar(f, old(s.Rest())).Done?
    ensures ok ==> DecodeScalar(f, old(s.Rest())) == Done(dest, s.Rest())
  {
    hide ReadVarint;
    dest := 0;
    var value;
    ok, value := s.DecodeVarint();
    if !ok {
      return;
    }
    var svalue := if f.dataSize == 8 then Signed64(value) else Signed32(value);
    if !IntSize(f.dataSize) {
      ok := false;
      return;
    }
    dest := ClampSigned(f.dataSize, svalue);
    ok := dest == svalue;
  }

  method DecUvarint(s: IStream, f: Field) returns (ok: bool, dest: int)
    requires s.Valid() && f.ltype.Uvarint?
    modifies s
    ensures s.Valid() && s.End() == old(s.End())
    ensures ok <==> DecodeScalar(f, old(s.Rest())).Done?
    ensures ok ==> DecodeScalar(f, old(s.Rest())) == Done(dest, s.Rest())
  {
    hide ReadVarint;
    dest := 0;
    var value;
    ok, value := s.DecodeVarint();
    if !ok {
      return;
    }
    if !IntSize(f.dataSize) {
      ok := false;
      return;
    }
    dest := ClampUnsigned(f.dataSize, value);
    ok := dest == value;
  }

  method DecSvarint(s: IStream, f: Field) returns (ok: bool, dest: int)
    requires s.Valid() && f.ltype.Svarint?
    modifies s
    ensures s.Valid() && s.End() == old(s.End())
    ensures ok <==> DecodeScalar(f, old(s.Rest())).Done?
    ensures ok ==> DecodeScalar(f, old(s.Rest())) == Done(dest, s.Rest())
  {
    hide ReadVarint;
    dest := 0;
    var value;
    ok, value := s.DecodeSvarint();
    if !ok {
      return;
    }
    if !IntSize(f.dataSize) {
      ok := false;
      return;
    }
    dest := ClampSigned(f.dataSize, value);
    ok := dest == value;
  }

  /** The first five rows of PB_DECODERS. */
  method DecScalar(s: IStream, f: Field) returns (ok: bool, dest: int)
    requires s.Valid() && f.ltype.Packable()
    modifies s
    ensures s.Valid() && s.End() == old(s.End())
    ensures ok <==> DecodeScalar(f, old(s.Rest())).Done?
    ensures ok ==> DecodeScalar(f, old(s.Rest())) == Done(dest, s.Rest())
  {
    match f.ltype {
      case Varint => ok, dest := DecVarint(s, f);
      case Uvarint => ok, dest := DecUvarint(s, f);
      case Svarint => ok, dest := DecSvarint(s, f);
      case Fixed32 => ok, dest := s.DecodeFixed32();
      case Fixed64 => ok, dest := s.DecodeFixed64();
    }
  }

  method DecBytes(s: IStream, f: Field, was: Value) returns (ok: bool, dest: Value)
    requires s.Valid() && f.ltype.Bytes? && ValueFits(f, was)
    modifies s
    ensures s.Valid() && s.End() == old(s.End())
    ensures ok <==> ReadBytesField(f, old(s.Rest()), was).Done?
    ensures ok ==> ReadBytesField(f, old(s.Rest()), was) == Done(dest, s.Rest())
  {
    hide ReadVarint32;
    dest := was;
    var size;
    ok, size := s.DecodeVarint32();
    if !ok {
      return;
    }
    if size > PB_SIZE_MAX {
      return false, dest;
    }
    var allocSize := size + BYTES_OFFSET;
    if allocSize > f.dataSize {
      return false, dest;
    }
    var data;
    ok, data := s.Read(size);
    if ok {
      dest := Buf(size, data + was.data[size..]);
    }
  }

  method DecString(s: IStream, f: Field, was: Value) returns (ok: bool, dest: Value)
    requires s.Valid() && f.ltype.String? && ValueFits(f, was)
    modifies s
    ensures s.Valid() && s.End() == old(s.End())
    ensures ok <==> ReadStringField(f, old(s.Rest()), was).Done?
    ensures ok ==> ReadStringField(f, old(s.Rest()), was) == Done(dest, s.Rest())
  {
    hide ReadVarint32;
    dest := was;
    var size;
    ok, size := s.DecodeVarint32();
    if !ok {
      return;
    }
    var allocSize := (size + 1) % TWO_32;
    if allocSize < size {
      return false, dest;
    }
    if allocSize > f.dataSize {
      return false, dest;
    }
    var status, data := s.Read(size);
    if status {
      dest := Buf(was.size, data + [0] + was.data[size + 1..]);
    }
    ok := status;
  }

  method DecFixedLengthBytes(s: IStream, f: Field, was: Value) returns (ok: bool, dest: Value)
    requires s.Valid() && f.ltype.FixedLengthBytes? && ValueFits(f, was)
    modifies s
    ensures s.Valid() && s.End() == old(s.End())
    ensures ok <==> ReadFixedLengthField(f, old(s.Rest()), was).Done?
    ensures ok ==> ReadFixedLengthField(f, old(s.Rest()), was) == Done(dest, s.Rest())
  {
    hide ReadVarint32;
    dest := was;
    var size;
    ok, size := s.DecodeVarint32();
    if !ok {
      return;
    }
    if size > PB_SIZE_MAX {
      return false, dest;
    }
    if size == 0 {
      return true, Buf(was.size, Zeros(f.dataSize));
    }
    if size != f.dataSize {
      return false, dest;
    }
    var data;
    ok, data := s.Read(f.dataSize);
    if ok {
      dest := Buf(was.size, data);
    }
  }

  // ---- default values ----

  /** pb_field_set_to_default */
  method PbFieldSetToDefault(f: Field, s: Slot) returns (r: Slot)
    requires FieldOk(f) && SlotFits(f, s)
    ensures r == DefaultSlot(f, s)
    decreases f
  {
    r := s;
    var initData := true;
    if f.htype.Optional? && f.sizeOffset != 0 {
      r := r.(size := 0);
    } else if f.htype.Repeated? || f.htype.Oneof? {
      if f.FixedCount() {
        r := WithZeroCount(f, r);
      } else {
        r := r.(size := 0);
      }
      initData := false;
    }
    if initData {
      match f.ltype {
        case Submessage(fields) =>
          var slots := PbMessageSetToDefaults(fields, s.items[0].slots);
          r := r.(items := [Msg(slots)]);
        case _ =>
          r := r.(items := [if f.initial.Some? then f.initial.value else ZeroValue(f)]);
      }
    }
  }

  /** pb_message_set_to_defaults */
  method PbMessageSetToDefaults(fields: seq<Field>, slots: seq<Slot>) returns (dest: seq<Slot>)
    requires TableOk(fields) && Fits(fields, slots)
    ensures dest == SetDefaults(fields, slots, 0)
    decreases fields
  {
    TableRows(fields);
    NoDefaults(fields, slots);
    hide SetDefaults, DefaultSlot, FieldOk, TableOk, Fits, SlotFits, Put, DataAt, SizeAt, RequiredBefore;
    dest := slots;
    ghost var i := 0;
    var iter := new FieldIter();
    var more := iter.Begin(fields);
    while more
      invariant iter.Valid() && iter.fields == fields && Fits(fields, dest)
      invariant i == if more then iter.pos else |fields|
      invariant more ==> i < |fields|
      invariant SetDefaults(fields, slots, 0) == SetDefaults(fields, dest, i)
      decreases |fields| - i
    {
      NextDefault(fields, dest, i);
      var slot := PbFieldSetToDefault(fields[iter.pos], SlotAt(fields, dest, iter.pos));
      dest := Put(fields, dest, iter.pos, slot);
      i := i + 1;
      more := iter.Next();
    }
    NoDefaults(fields, dest);
  }

  lemma NoDefaults(fields: seq<Field>, slots: seq<Slot>)
    requires TableOk(fields) && Fits(fields, slots)
    ensures SetDefaults(fields, slots, |fields|) == slots
  {
  }

  lemma NextDefault(fields: seq<Field>, slots: seq<Slot>, i: nat)
    requires TableOk(fields) && Fits(fields, slots) && i < |fields|
    ensures FieldOk(fields[i])
    ensures var s := DefaultSlot(fields[i], SlotAt(fields, slots, i));
      && SlotFits(fields[i], s) && (fields[i].htype.Oneof? ==> s.size == 0)
      && Fits(fields, Put(fields, slots, i, s))
      && SetDefaults(fields, slots, i) == SetDefaults(fields, Put(fields, slots, i, s), i + 1)
  {
  }

  // ---- fields ----

  /** PB_DECODERS[ltype] */
  method DecValue(s: IStream, f: Field, was: Value) returns (ok: bool, dest: Value)
    requires s.Valid() && FieldOk(f) && ValueFits(f, was)
    modifies s
    ensures s.Valid() && s.End() <= old(s.End())
    ensures ok <==> DecodeValue(f, old(s.Rest()), was).Done?
    ensures ok ==> DecodeValue(f, old(s.Rest()), was) == Done(dest, s.Rest()) && s.End() == old(s.End())
    decreases s.bytesLeft, 1
  {
    hide DecodeScalar, DecodeNoinit, ReadBytesField, ReadStringField, ReadFixedLengthField, SetDefaults, ReadBlock,
         FieldOk;
    dest := was;
    match f.ltype {
      case Bytes => ok, dest := DecBytes(s, f, was);
      case String => ok, dest := DecString(s, f, was);
      case FixedLengthBytes => ok, dest := DecFixedLengthBytes(s, f, was);
      case Submessage(fields) => ok, dest := DecSubmessage(s, f, was);
      case _ =>
        var n;
        ok, n := DecScalar(s, f);
        dest := Num(n);
    }
  }

  /** pb_dec_submessage */
  method DecSubmessage(s: IStream, f: Field, was: Value) returns (ok: bool, dest: Value)
    requires s.Valid() && FieldOk(f) && f.ltype.Submessage? && ValueFits(f, was)
    modifies s
    ensures s.Valid() && s.End() <= old(s.End())
    ensures ok <==> DecodeValue(f, old(s.Rest()), was).Done?
    ensures ok ==> DecodeValue(f, old(s.Rest()), was) == Done(dest, s.Rest()) && s.End() == old(s.End())
    decreases s.bytesLeft, 0
  {
    hide DecodeNoinit, SetDefaults, ReadVarint32, ReadBytes;
    var fields := f.ltype.fields;
    dest := was;
    var substream;
    ok, substream := s.MakeStringSubstream();
    if !ok {
      return;
    }
    var slots := was.slots;
    var status;
    if f.htype.Repeated? {
      status, slots := PbDecode(substream, fields, slots);
    } else {
      status, slots := PbDecodeNoinit(substream, fields, slots);
    }
    var closed := s.CloseStringSubstream(substream);
    ok := status;
    dest := Msg(slots);
  }

  /** The packed case: elements until the block or the array is exhausted. */
  method DecPacked(s: IStream, f: Field, e: Elements) returns (ok: bool, r: Elements)
    requires s.Valid() && FieldOk(f) && f.ltype.Packable() && ElementsFit(f, e)
    modifies s
    ensures s.Valid() && s.End() <= old(s.End())
    ensures ok <==> DecodeElements(f, WT_STRING, old(s.Rest()), e).Done?
    ensures ok ==> DecodeElements(f, WT_STRING, old(s.Rest()), e) == Done(r, s.Rest()) && s.End() == old(s.End())
  {
    hide DecodeScalar, ReadVarint32, ReadBytes, ValueFits, FieldOk;
    r := e;
    var status := true;
    var substream;
    ok, substream := s.MakeStringSubstream();
    if !ok {
      return;
    }
    ghost var block := substream.Rest();
    ghost var end := substream.End();
    var size := e.count;
    while status && substream.bytesLeft > 0 && size < f.arraySize
      modifies substream
      invariant substream.Valid() && substream.End() == end && ElementsFit(f, r) && size == r.count
      invariant status ==> ReadPacked(f, block, e) == ReadPacked(f, substream.Rest(), r)
      invariant !status ==> ReadPacked(f, block, e).None?
      decreases status, substream.bytesLeft
    {
      var n;
      status, n := DecScalar(substream, f);
      if status {
        size := size + 1;
        r := Elements(r.items[r.count := Num(n)], size);
      }
    }
    if substream.bytesLeft != 0 {
      return false, r;
    }
    var closed := s.CloseStringSubstream(substream);
    ok := status;
  }

  /** The repeated case of decode_static_field. */
  method DecRepeated(s: IStream, f: Field, wireType: nat, e: Elements) returns (ok: bool, r: Elements)
    requires s.Valid() && FieldOk(f) && ElementsFit(f, e)
    modifies s
    ensures s.Valid() && s.End() <= old(s.End())
    ensures ok <==> DecodeElements(f, wireType, old(s.Rest()), e).Done?
    ensures ok ==> DecodeElements(f, wireType, old(s.Rest()), e) == Done(r, s.Rest()) && s.End() == old(s.End())
    decreases s.bytesLeft, 2
  {
    hide DecodeValue, ReadVarint32, ReadBlock, ReadPacked, ValueFits, FieldOk;
    r := e;
    if wireType == WT_STRING && f.ltype.Packable() {
      ok, r := DecPacked(s, f, e);
    } else {
      if e.count >= f.arraySize {
        return false, r;
      }
      var v;
      ok, v := DecValue(s, f, e.items[e.count]);
      if ok {
        r := Elements(e.items[e.count := v], e.count + 1);
      }
    }
  }

  /** Where the iterator stands while row i is decoded: pSize is the has-flag, count or which-tag to use. */
  ghost predicate AtRow(iter: FieldIter, fields: seq<Field>, i: nat, st: State)
    requires StateFits(fields, st)
    reads iter
  {
    && iter.Valid() && iter.fields == fields && i == iter.pos < |fields|
    && (fields[i].FixedCount() <==> iter.pSize == FixedCountSize)
    && (fields[i].FixedCount() ==> st.fixedRow == Some(i))
  }

  /** decode_static_field; a fixed-count array is counted in fixedCountSize. */
  method DecodeStaticField(s: IStream, wireType: nat, iter: FieldIter, dest: seq<Slot>, fixedCountSize: nat,
                           ghost st: State)
    returns (ok: bool, dest': seq<Slot>, fixedCountSize': nat)
    requires s.Valid() && TableOk(iter.fields) && StateFits(iter.fields, st)
    requires st.slots == dest && st.fixedSize == fixedCountSize && AtRow(iter, iter.fields, iter.pos, st)
    modifies s
    ensures s.Valid() && s.End() <= old(s.End())
    ensures ok <==> DecodeField(iter.fields, iter.pos, wireType, old(s.Rest()), st).Done?
    ensures ok ==>
      DecodeField(iter.fields, iter.pos, wireType, old(s.Rest()), st)
      == Done(State(dest', st.fixedRow, fixedCountSize', SeenWith(iter.fields, iter.pos, st.seen)), s.Rest())
    ensures ok ==> s.End() == old(s.End())
    decreases s.bytesLeft, 3
  {
    hide DecodeValue, DecodeElements, TableOk, Fits, ValueFits, DefaultValue, DataAt, SizeAt, IStream.Rest;
    var i := iter.pos;
    var f := iter.fields[i];
    var slot := SlotAt(iter.fields, dest, i);
    dest', fixedCountSize' := dest, fixedCountSize;
    assert FieldOk(f) by { TableRow(iter.fields, i); }
    match f.htype {
      case Required =>
        var v;
        ok, v := DecValue(s, f, slot.items[0]);
        if ok {
          dest' := Put(iter.fields, dest, i, Slot(slot.size, [v]));
        }
      case Optional =>
        SizeMember(iter);
        var size := slot.size;
        if iter.pSize != Member(iter.pData) {
          size := 1;
        }
        var v;
        ok, v := DecValue(s, f, slot.items[0]);
        if ok {
          dest' := Put(iter.fields, dest, i, Slot(size, [v]));
        }
      case Repeated =>
        var size := if iter.pSize == FixedCountSize then fixedCountSize else slot.size;
        var e;
        ok, e := DecRepeated(s, f, wireType, Elements(slot.items, size));
        if ok {
          if iter.pSize == FixedCountSize {
            fixedCountSize' := e.count;
            dest' := Put(iter.fields, dest, i, Slot(slot.size, e.items));
          } else {
            dest' := Put(iter.fields, dest, i, Slot(e.count, e.items));
          }
        }
      case Oneof =>
        var before := UnionStorage(f, slot);
        var v;
        ok, v := DecValue(s, f, before);
        if ok {
          dest' := Put(iter.fields, dest, i, Slot(f.tag, [v]));
        }
    }
  }

  /** The union's storage when a member arrives: a submessage is zeroed and set to its defaults. */
  method UnionStorage(f: Field, slot: Slot) returns (before: Value)
    requires FieldOk(f) && f.htype.Oneof? && SlotFits(f, slot)
    ensures before == UnionBefore(f, slot)
  {
    if f.ltype.Submessage? {
      before := ZeroValue(f);
      var slots := PbMessageSetToDefaults(f.ltype.fields, before.slots);
      before := Msg(slots);
    } else {
      before := if slot.size == f.tag then slot.items[0] else UNION_MEMORY(f, slot);
    }
  }

  /** fields_seen after a record for row i. */
  function SeenWith(fields: seq<Field>, i: nat, seen: set<nat>): set<nat>
    requires i < |fields|
  {
    if fields[i].htype.Required? && RequiredBefore(fields, i) < PB_MAX_REQUIRED_FIELDS
    then seen + {RequiredBefore(fields, i)} else seen
  }

  /** pSize == pData exactly for rows without a size member. */
  lemma SizeMember(iter: FieldIter)
    requires iter.Valid() && iter.pos < |iter.fields| && !iter.fields[iter.pos].htype.Oneof?
    ensures iter.pSize.Member? ==> (iter.pSize == Member(iter.pData) <==> iter.fields[iter.pos].sizeOffset == 0)
  {
  }

  /** The number of tracked required rows, found by running the iterator to the end of the table. */
  method CountRequired(iter: FieldIter) returns (count: nat)
    requires iter.Valid()
    modifies iter
    ensures count == Tracked(iter.fields) && iter.fields == old(iter.fields)
  {
    ghost var fields := iter.fields;
    var more := true;
    var last := LAST_FIELD;
    count := 0;
    while more
      invariant iter.Valid() && iter.fields == fields
      invariant !more && fields != [] ==>
        last == fields[|fields| - 1] && count == RequiredBefore(fields, |fields| - 1)
      invariant !more && fields == [] ==> count == 0
      invariant !more ==> iter.pos == 0
      decreases if more then |fields| - iter.pos + 1 else 0
    {
      count := iter.requiredFieldIndex;
      last := Entry(iter.fields, iter.pos);
      more := iter.Next();
    }
    if last.htype.Required? && Entry(iter.fields, iter.pos).tag != 0 {
      count := count + 1;
    }
    if count > PB_MAX_REQUIRED_FIELDS {
      count := PB_MAX_REQUIRED_FIELDS;
    }
  }

  /** fields_seen holds exactly the indices seen, all of them below the tracked number. */
  ghost predicate BitmapOf(words: seq<nat>, seen: set<nat>, tracked: nat)
  {
    && IsBitmap(words)
    && (forall r: nat | r < PB_MAX_REQUIRED_FIELDS :: Marked(words, r) <==> r in seen)
    && (forall r | r in seen :: r < tracked)
  }

  /** What the decoder's local variables say about its progress. */
  ghost predicate Locals(fields: seq<Field>, iter: FieldIter, st: State, words: seq<nat>)
    reads iter
  {
    && StateFits(fields, st)
    && iter.Valid() && iter.fields == fields
    && (iter.pSize == FixedCountSize ==> st.fixedRow == Some(iter.pos))
    && BitmapOf(words, st.seen, Tracked(fields))
  }

  /** Once a fixed-count array is entered, entering it again changes nothing. */
  lemma EnterOnce(fields: seq<Field>, i: nat, wireType: nat, bs: seq<byte>, st: State)
    requires TableOk(fields) && StateFits(fields, st) && i < |fields| && fields[i].FixedCount()
    ensures EnterFixed(fields, st, i).None? ==> DecodeField(fields, i, wireType, bs, st).Fail?
    ensures EnterFixed(fields, st, i).Some? ==>
      DecodeField(fields, i, wireType, bs, st) == DecodeField(fields, i, wireType, bs, EnterFixed(fields, st, i).value)
  {
    hide DecodeElements, TableOk, Fits, WithArray, ArrayAt;
  }

  /** The iterator's search is the table's. */
  lemma FoundRow(fields: seq<Field>, tag: nat, i: nat)
    requires TableOk(fields) && i < |fields| && fields[i].tag == tag
    ensures Find(fields, tag) == Some(i)
  {
    FindRow(fields, i);
  }

  /** The redirection of pSize for fixed-count arrays, before the field is decoded. */
  method SelectFixedCount(iter: FieldIter, fields: seq<Field>, fixedCountField: Option<nat>, fixedCountSize: nat,
                          ghost st: State)
    returns (ok: bool, field: Option<nat>, size: nat)
    requires TableOk(fields) && StateFits(fields, st) && iter.Valid() && iter.fields == fields && iter.pos < |fields|
    requires st.fixedRow == fixedCountField && st.fixedSize == fixedCountSize
    requires iter.pSize == FixedCountSize ==> st.fixedRow == Some(iter.pos)
    modifies iter
    ensures iter.fields == fields && iter.pos == old(iter.pos)
    ensures !ok ==> fields[iter.pos].FixedCount() && EnterFixed(fields, st, iter.pos).None?
    ensures ok ==>
      var entered := st.(fixedRow := field, fixedSize := size);
      && StateFits(fields, entered) && AtRow(iter, fields, iter.pos, entered)
      && (if fields[iter.pos].FixedCount() then EnterFixed(fields, st, iter.pos) == Some(entered) else entered == st)
  {
    hide TableOk, Fits, DataAt, SizeAt;
    field, size := fixedCountField, fixedCountSize;
    if !fields[iter.pos].htype.Oneof? {
      SizeMember(iter);
    }
    if fields[iter.pos].htype.Repeated? && iter.pSize == Member(iter.pData) {
      if fixedCountField != Some(iter.pos) {
        if fixedCountField.Some? && fixedCountSize != fields[fixedCountField.value].arraySize {
          return false, field, size;
        }
        field := Some(iter.pos);
        size := 0;
      }
      iter.pSize := FixedCountSize;
    }
    ok := true;
  }

  /** fields_seen is updated before the field is decoded. */
  method MarkSeen(fieldsSeen: array<nat>, iter: FieldIter, ghost seen: set<nat>)
    requires iter.Valid() && iter.pos < |iter.fields|
    requires BitmapOf(fieldsSeen[..], seen, Tracked(iter.fields))
    modifies fieldsSeen
    ensures BitmapOf(fieldsSeen[..], SeenWith(iter.fields, iter.pos, seen), Tracked(iter.fields))
  {
    hide Marked;
    if iter.fields[iter.pos].htype.Required? && iter.requiredFieldIndex < PB_MAX_REQUIRED_FIELDS {
      RequiredBeforeMonotone(iter.fields, iter.pos, |iter.fields|);
      Mark(fieldsSeen, iter.requiredFieldIndex);
    }
  }

  /** The loop body of pb_decode_noinit behind pb_decode_tag. */
  method DecodeOneRecord(s: IStream, fields: seq<Field>, iter: FieldIter, fieldsSeen: array<nat>,
                         tag: nat, wireType: nat, dest: seq<Slot>, fixedCountField: Option<nat>, fixedCountSize: nat,
                         ghost st: State)
    returns (ok: bool, dest': seq<Slot>, field': Option<nat>, size': nat, ghost st': State)
    requires s.Valid() && TableOk(fields) && Locals(fields, iter, st, fieldsSeen[..])
    requires st.slots == dest && st.fixedRow == fixedCountField && st.fixedSize == fixedCountSize
    modifies s, iter, fieldsSeen
    ensures s.Valid() && s.End() <= old(s.End())
    ensures ok <==> DecodeRecord(fields, tag, wireType, old(s.Rest()), st).Done?
    ensures ok ==> DecodeRecord(fields, tag, wireType, old(s.Rest()), st) == Done(st', s.Rest())
    ensures ok ==> s.End() == old(s.End()) && Locals(fields, iter, st', fieldsSeen[..])
    ensures ok ==> st'.slots == dest' && st'.fixedRow == field' && st'.fixedSize == size'
    decreases s.bytesLeft, 4
  {
    hide DecodeField, Skip, TableOk, Fits, Marked, DataAt, SizeAt, EnterFixed;
    dest', field', size', st' := dest, fixedCountField, fixedCountSize, st;
    ghost var bs := s.Rest();
    var found, steps := iter.Find(tag);
    if !found {
      assert Find(fields, tag).None? by { NotFound(fields, tag); }
      ok := s.SkipField(wireType);
      return;
    }
    if fields == [] {
      // the terminator itself was found: an integer of no size
      ok := DecodeTerminator(s);
      return;
    }
    FoundRow(fields, tag, iter.pos);
    ok, field', size' := SelectFixedCount(iter, fields, fixedCountField, fixedCountSize, st);
    if fields[iter.pos].FixedCount() {
      EnterOnce(fields, iter.pos, wireType, bs, st);
    }
    if !ok {
      return;
    }
    ghost var entered := st.(fixedRow := field', fixedSize := size');
    MarkSeen(fieldsSeen, iter, st.seen);
    ok, dest', size' := DecodeStaticField(s, wireType, iter, dest, size', entered);
    if ok {
      st' := State(dest', field', size', SeenWith(fields, iter.pos, st.seen));
    }
  }

  lemma NotFound(fields: seq<Field>, tag: nat)
    requires !exists i :: HasTag(fields, i, tag)
    ensures Find(fields, tag).None?
  {
    if Find(fields, tag).Some? {
      assert HasTag(fields, Find(fields, tag).value, tag);
    }
  }

  /** decode_field on PB_LAST_FIELD. */
  method DecodeTerminator(s: IStream) returns (ok: bool)
    requires s.Valid()
    modifies s
    ensures s.Valid() && s.End() == old(s.End()) && !ok
  {
    var value;
    ok, value := DecVarint(s, LAST_FIELD);
  }

  /** The main loop of pb_decode_noinit. */
  method DecodeRecords(s: IStream, fields: seq<Field>, iter: FieldIter, fieldsSeen: array<nat>, slots: seq<Slot>)
    returns (ok: bool, dest: seq<Slot>, fixedCountField: Option<nat>, fixedCountSize: nat, ghost st: State)
    requires s.Valid() && TableOk(fields) && Fits(fields, slots)
    requires Locals(fields, iter, Start(slots), fieldsSeen[..])
    modifies s, iter, fieldsSeen
    ensures s.Valid() && s.End() <= old(s.End())
    ensures ok <==> DecodeLoop(fields, old(s.Rest()), Start(slots)).Done?
    ensures ok ==> DecodeLoop(fields, old(s.Rest()), Start(slots)) == Done(st, s.Rest()) && s.End() == old(s.End())
    ensures ok ==> Locals(fields, iter, st, fieldsSeen[..])
    ensures ok ==> st.slots == dest && st.fixedRow == fixedCountField && st.fixedSize == fixedCountSize
    decreases s.bytesLeft, 5
  {
    hide DecodeLoop, DecodeRecord, ReadTag, TableOk, Fits, BitmapOf, FieldIter.Valid;
    dest, fixedCountField, fixedCountSize, st := slots, None, 0, Start(slots);
    ghost var bs := s.Rest();
    var running := true;
    while running && s.bytesLeft > 0
      invariant s.Valid() && s.End() == old(s.End()) && Locals(fields, iter, st, fieldsSeen[..])
      invariant st.slots == dest && st.fixedRow == fixedCountField && st.fixedSize == fixedCountSize
      invariant running ==> DecodeLoop(fields, bs, Start(slots)) == DecodeLoop(fields, s.Rest(), st)
      invariant !running ==> DecodeLoop(fields, bs, Start(slots)) == Done(st, s.Rest())
      decreases running, s.bytesLeft
    {
      LoopTurn(fields, s.Rest(), st);
      var got, wireType, tag, eof := s.DecodeTag();
      if !got {
        if eof {
          running := false;
        } else {
          ok := false;
          return;
        }
      } else {
        ok, dest, fixedCountField, fixedCountSize, st :=
          DecodeOneRecord(s, fields, iter, fieldsSeen, tag, wireType, dest, fixedCountField, fixedCountSize, st);
        if !ok {
          return;
        }
      }
    }
    LoopEnd(fields, st);
    ok := true;
  }

  /** pb_decode_noinit */
  method PbDecodeNoinit(s: IStream, fields: seq<Field>, slots: seq<Slot>) returns (ok: bool, dest: seq<Slot>)
    requires s.Valid() && TableOk(fields) && Fits(fields, slots)
    modifies s
    ensures s.Valid() && s.End() <= old(s.End())
    ensures ok <==> DecodeNoinit(fields, old(s.Rest()), slots).Done?
    ensures ok ==> DecodeNoinit(fields, old(s.Rest()), slots) == Done(dest, s.Rest()) && s.End() == old(s.End())
    decreases s.bytesLeft, 6
  {
    TableRows(fields);
    hide DecodeLoop, TableOk, Fits, DataAt, SizeAt, RequiredBefore, Complete, BitmapOf;
    var fieldsSeen := new nat[WORDS](_ => 0);
    var iter := new FieldIter();
    var begun := iter.Begin(fields);
    EmptyBitmap(fieldsSeen[..], Tracked(fields));
    var fixedCountField, fixedCountSize;
    ghost var st;
    ok, dest, fixedCountField, fixedCountSize, st := DecodeRecords(s, fields, iter, fieldsSeen, slots);
    if !ok {
      return;
    }
    ok := CheckComplete(fields, iter, fieldsSeen, fixedCountField, fixedCountSize, st);
  }

  /** One turn of the main loop. */
  lemma LoopTurn(fields: seq<Field>, bs: seq<byte>, st: State)
    requires TableOk(fields) && StateFits(fields, st) && bs != []
    ensures var t := ReadTag(bs);
      DecodeLoop(fields, bs, st)
      == if t.BadTag? then Fail
         else if t.EndOfMessage? then Done(st, t.rest)
         else
           var p := DecodeRecord(fields, t.tag, t.wireType, t.rest, st);
           if p.Fail? then Fail else DecodeLoop(fields, p.rest, p.value)
  {
    hide DecodeRecord, ReadTag, TableOk, Fits;
  }

  lemma LoopEnd(fields: seq<Field>, st: State)
    requires TableOk(fields) && StateFits(fields, st)
    ensures DecodeLoop(fields, [], st) == Done(st, [])
  {
  }

  /** The checks behind the loop: the last fixed-count array, and the required fields. */
  method CheckComplete(fields: seq<Field>, iter: FieldIter, fieldsSeen: array<nat>,
                       fixedCountField: Option<nat>, fixedCountSize: nat, ghost st: State)
    returns (ok: bool)
    requires Locals(fields, iter, st, fieldsSeen[..])
    requires st.fixedRow == fixedCountField && st.fixedSize == fixedCountSize
    modifies iter
    ensures ok <==> Complete(fields, st)
  {
    hide Fits, Marked, DataAt, SizeAt, RequiredBefore;
    if fixedCountField.Some? && fixedCountSize != fields[fixedCountField.value].arraySize {
      return false;
    }
    var reqFieldCount := CountRequired(iter);
    AllSeen(fieldsSeen[..], st.seen, reqFieldCount);
    ok := AllMarked(fieldsSeen, reqFieldCount);
  }

  lemma EmptyBitmap(words: seq<nat>, tracked: nat)
    requires |words| == WORDS && forall k | 0 <= k < WORDS :: words[k] == 0
    ensures BitmapOf(words, {}, tracked)
  {
    forall r: nat | r < PB_MAX_REQUIRED_FIELDS ensures !Marked(words, r) {
      BitOfZero(r % 32);
    }
  }

  lemma AllSeen(words: seq<nat>, seen: set<nat>, tracked: nat)
    requires BitmapOf(words, seen, tracked) && tracked <= PB_MAX_REQUIRED_FIELDS
    ensures forall k: nat | tracked <= k < PB_MAX_REQUIRED_FIELDS :: !Marked(words, k)
    ensures MarkedBelow(words, tracked) <==> forall r: nat | r < tracked :: r in seen
  {
    hide Marked;
  }

  /** pb_decode */
  method PbDecode(s: IStream, fields: seq<Field>, slots: seq<Slot>) returns (ok: bool, dest: seq<Slot>)
    requires s.Valid() && TableOk(fields) && Fits(fields, slots)
    modifies s
    ensures s.Valid() && s.End() <= old(s.End())
    ensures ok <==> Decode(fields, old(s.Rest()), slots).Done?
    ensures ok ==> Decode(fields, old(s.Rest()), slots) == Done(dest, s.Rest()) && s.End() == old(s.End())
    decreases s.bytesLeft, 7
  {
    hide DecodeNoinit, SetDefaults, TableOk, Fits;
    dest := PbMessageSetToDefaults(fields, slots);
    ok, dest := PbDecodeNoinit(s, fields, dest);
  }

  /** pb_decode_delimited */
  method PbDecodeDelimited(s: IStream, fields: seq<Field>, slots: seq<Slot>) returns (ok: bool, dest: seq<Slot>)
    requires s.Valid() && TableOk(fields) && Fits(fields, slots)
    modifies s
    ensures s.Valid() && s.End() <= old(s.End())
    ensures ok <==> DecodeDelimited(fields, old(s.Rest()), slots).Done?
    ensures ok ==> DecodeDelimited(fields, old(s.Rest()), slots) == Done(dest, s.Rest()) && s.End() == old(s.End())
  {
    hide Decode, TableOk, Fits, ReadVarint32, ReadBytes;
    dest := slots;
    var substream;
    ok, substream := s.MakeStringSubstream();
    if !ok {
      return;
    }
    var status;
    status, dest := PbDecode(substream, fields, slots);
    ok := s.CloseStringSubstream(substream);
    ok := ok && status;
  }
}
