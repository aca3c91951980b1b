// What the decoder makes of a byte sequence, as a function of the table, the bytes and
// the previous content of the struct (pb_decode.c).
module Decoding {
  import opened Bits
  import opened Varints
  import opened Fields
  import opened Scalars
  import opened Tidiness

  // ---- default values ----

  function Zeros(n: nat): (bs: seq<byte>)
    ensures |bs| == n && forall k | 0 <= k < n :: bs[k] == 0
  {
    seq(n, _ => 0)
  }

  /** memset(pData, 0, data_size) */
  function ZeroValue(f: Field): (v: Value)
    requires FieldOk(f)
    ensures ValueFits(f, v)
    decreases f, 0
  {
    match f.ltype
    case Bytes => Buf(0, Zeros(f.dataSize - BYTES_OFFSET))
    case String | FixedLengthBytes => Buf(0, Zeros(f.dataSize))
    case Submessage(fields) =>
      var slots := ZeroRows(fields, |fields|);
      RowsAreStruct(fields, slots);
      Msg(slots)
    case _ => Num(0)
  }

  lemma RowsAreStruct(fields: seq<Field>, slots: seq<Slot>)
    requires RowsFit(fields, |fields|, slots) && |slots| == SlotCount(fields)
    ensures Fits(fields, slots)
  {
    hide SlotFits;
  }

  function ZeroSlot(f: Field): (s: Slot)
    requires FieldOk(f)
    ensures s.size == 0 && SlotFits(f, s)
    decreases f, 1
  {
    var zero := ZeroValue(f);
    Slot(0, if f.htype.Repeated? then seq(f.arraySize, _ => zero) else [zero])
  }

  /** Zeroed storage of the first n rows; a union has one slot. */
  function ZeroRows(fields: seq<Field>, n: nat): (slots: seq<Slot>)
    requires TableOk(fields) && n <= |fields|
    ensures |slots| == if n == 0 then 0 else SlotOf(fields, n - 1) + 1
    ensures RowsFit(fields, n, slots)
    decreases fields, n
  {
    if n == 0 then []
    else
      var before := ZeroRows(fields, n - 1);
      if Continues(fields, n - 1) then
        UnionRowFits(fields, n, before);
        before
      else
        var zero := ZeroSlot(fields[n - 1]);
        NewRowFits(fields, n, before, zero);
        before + [zero]
  }

  /** All slots are unset, and they are right for the first n rows. */
  predicate RowsFit(fields: seq<Field>, n: nat, slots: seq<Slot>)
    requires n <= |fields|
  {
    && (forall i | 0 <= i < n :: RowFits(fields, slots, i))
    && forall g | 0 <= g < |slots| :: slots[g].size == 0
  }

  lemma NewRowFits(fields: seq<Field>, n: nat, before: seq<Slot>, zero: Slot)
    requires 0 < n <= |fields| && !Continues(fields, n - 1)
    requires |before| == (if n == 1 then 0 else SlotOf(fields, n - 2) + 1) && RowsFit(fields, n - 1, before)
    requires zero.size == 0 && SlotFits(fields[n - 1], zero)
    ensures RowsFit(fields, n, before + [zero])
  {
    hide SlotFits;
    var slots := before + [zero];
    forall i | 0 <= i < n ensures RowFits(fields, slots, i) {
      if i < n - 1 {
        assert RowFits(fields, before, i);
      }
    }
  }

  lemma UnionRowFits(fields: seq<Field>, n: nat, slots: seq<Slot>)
    requires TableOk(fields) && 0 < n <= |fields| && Continues(fields, n - 1)
    requires |slots| == SlotOf(fields, n - 2) + 1 && RowsFit(fields, n - 1, slots)
    ensures RowsFit(fields, n, slots)
  {
    hide SlotFits, FieldOk;
    assert RowFits(fields, slots, n - 2);
    UnsetUnionFits(fields, n - 1, slots);
  }

  lemma UnsetUnionFits(fields: seq<Field>, i: nat, slots: seq<Slot>)
    requires TableOk(fields) && 0 < i < |fields| && Continues(fields, i)
    requires RowFits(fields, slots, i - 1) && slots[SlotOf(fields, i - 1)].size == 0
    ensures RowFits(fields, slots, i)
  {
    hide SlotFits;
    assert FieldOk(fields[i]);
    OtherMemberFits(fields[i - 1], fields[i], slots[SlotOf(fields, i)]);
  }

  /**
    * A fixed-count array has no count member, and the zero count that is written for it lands on the
    * first bytes of its elements.
    */
  type ZeroCount = c: (Field, Slot) -> Slot
    | forall f, s | FieldOk(f) && f.FixedCount() && SlotFits(f, s) ::
        ZeroCountWritten(f, s, c(f, s)) && c(f, c(f, s)) == c(f, s)
    witness (f: Field, s: Slot) => s

  /** What becomes of the elements depends on their layout in memory and is left open. */
  const ZERO_COUNT: ZeroCount

  predicate ZeroCountWritten(f: Field, s: Slot, r: Slot)
    requires SlotFits(f, s)
  {
    SlotFits(f, r) && r.size == s.size && (SlotTidy(f, s) ==> SlotTidy(f, r))
  }

  function WithZeroCount(f: Field, s: Slot): (r: Slot)
    requires FieldOk(f) && f.FixedCount() && SlotFits(f, s)
    ensures ZeroCountWritten(f, s, r)
    ensures ZERO_COUNT(f, r) == r
  {
    ZERO_COUNT(f, s)
  }

  /** pb_field_set_to_default on one field's storage. */
  function DefaultSlot(f: Field, s: Slot): (r: Slot)
    requires FieldOk(f) && SlotFits(f, s)
    ensures SlotFits(f, r) && (f.htype.Oneof? ==> r.size == 0)
    decreases f, 1
  {
    match f.htype
    case Required => Slot(s.size, [DefaultValue(f, s.items[0])])
    case Optional => Slot(if f.sizeOffset != 0 then 0 else s.size, [DefaultValue(f, s.items[0])])
    case Repeated => if f.FixedCount() then WithZeroCount(f, s) else s.(size := 0)
    case Oneof => s.(size := 0)
  }

  function DefaultValue(f: Field, v: Value): (r: Value)
    requires FieldOk(f) && ValueFits(f, v)
    ensures ValueFits(f, r)
    decreases f, 0
  {
    if f.ltype.Submessage? then Msg(SetDefaults(f.ltype.fields, v.slots, 0))
    else if f.initial.Some? then f.initial.value
    else ZeroValue(f)
  }

  /** pb_message_set_to_defaults from row i on. */
  function SetDefaults(fields: seq<Field>, slots: seq<Slot>, i: nat): (r: seq<Slot>)
    requires TableOk(fields) && Fits(fields, slots) && i <= |fields|
    ensures Fits(fields, r)
    decreases fields, |fields| - i
  {
    if i == |fields| then slots
    else SetDefaults(fields, Put(fields, slots, i, DefaultSlot(fields[i], SlotAt(fields, slots, i))), i + 1)
  }

  // ---- records ----

  /** A length-delimited block: pb_make_string_substream. */
  function ReadBlock(bs: seq<byte>): (p: Parse<seq<byte>>)
    ensures p.Done? ==> |p.value| + |p.rest| < |bs|
  {
    match ReadVarint32(bs)
    case Done(n, rest) => ReadBytes(rest, n)
    case Fail => Fail
  }

  datatype TagResult =
    | Tag(tag: nat, wireType: nat, rest: seq<byte>)
    | EndOfMessage(rest: seq<byte>)
    | BadTag

  /** pb_decode_tag on a non-empty stream; a zero ends the message. */
  function ReadTag(bs: seq<byte>): (r: TagResult)
    ensures r.Tag? ==> |r.rest| < |bs| && r.wireType < 8 && r.tag < 0x2000_0000
  {
    match ReadVarint32(bs)
    case Done(n, rest) => if n == 0 then EndOfMessage(rest) else Tag(n / 8, n % 8, rest)
    case Fail => BadTag
  }

  function SkipVarint(bs: seq<byte>): (p: Parse<()>)
    ensures p.Done? ==> |p.rest| < |bs|
  {
    if bs == [] then Fail else if bs[0] < 128 then Done((), bs[1..]) else SkipVarint(bs[1..])
  }

  function SkipBytes(bs: seq<byte>, n: nat): (p: Parse<()>)
    ensures p.Done? ==> |p.rest| <= |bs|
  {
    if |bs| < n then Fail else Done((), bs[n..])
  }

  /** pb_skip_field */
  function Skip(bs: seq<byte>, wireType: nat): (p: Parse<()>)
    ensures p.Done? ==> |p.rest| <= |bs|
  {
    if wireType == WT_VARINT then SkipVarint(bs)
    else if wireType == WT_64BIT then SkipBytes(bs, 8)
    else if wireType == WT_STRING then
      match ReadVarint32(bs)
      case Done(n, rest) => SkipBytes(rest, n)
      case Fail => Fail
    else if wireType == WT_32BIT then SkipBytes(bs, 4)
    else Fail
  }

  /** pb_dec_bytes into a buffer whose previous content is was. */
  function ReadBytesField(f: Field, bs: seq<byte>, was: Value): (p: Parse<Value>)
    requires f.ltype.Bytes? && ValueFits(f, was)
    ensures p.Done? ==> |p.rest| < |bs| && ValueFits(f, p.value)
  {
    match ReadVarint32(bs)
    case Fail => Fail
    case Done(n, rest) =>
      if n > PB_SIZE_MAX || n + BYTES_OFFSET > f.dataSize then Fail
      else
        match ReadBytes(rest, n)
        case Done(data, rest') => Done(Buf(n, data + was.data[n..]), rest')
        case Fail => Fail
  }

  /** pb_dec_string; the room check is computed in 32 bits. */
  function ReadStringField(f: Field, bs: seq<byte>, was: Value): (p: Parse<Value>)
    requires f.ltype.String? && ValueFits(f, was)
    ensures p.Done? ==> |p.rest| < |bs| && ValueFits(f, p.value)
  {
    match ReadVarint32(bs)
    case Fail => Fail
    case Done(n, rest) =>
      var room := (n + 1) % TWO_32;
      if room < n || room > f.dataSize then Fail
      else
        match ReadBytes(rest, n)
        case Done(data, rest') => Done(Buf(was.size, data + [0] + was.data[n + 1..]), rest')
        case Fail => Fail
  }

  /** pb_dec_fixed_length_bytes; an empty block stands for all zeros. */
  function ReadFixedLengthField(f: Field, bs: seq<byte>, was: Value): (p: Parse<Value>)
    requires f.ltype.FixedLengthBytes? && ValueFits(f, was)
    ensures p.Done? ==> |p.rest| < |bs| && ValueFits(f, p.value)
  {
    match ReadVarint32(bs)
    case Fail => Fail
    case Done(n, rest) =>
      if n > PB_SIZE_MAX then Fail
      else if n == 0 then Done(Buf(was.size, Zeros(f.dataSize)), rest)
      else if n != f.dataSize then Fail
      else
        match ReadBytes(rest, n)
        case Done(data, rest') => Done(Buf(was.size, data), rest')
        case Fail => Fail
  }

  /** The decoder's progress through one message. */
  datatype State = State(
    slots: seq<Slot>,
    fixedRow: Option<nat>,   // row of the fixed-count array being received
    fixedSize: nat,          // elements of it received so far
    seen: set<nat>)          // indices of the required rows received, below the tracked maximum

  function Start(slots: seq<Slot>): State
  {
    State(slots, None, 0, {})
  }

  predicate StateFits(fields: seq<Field>, st: State)
  {
    && Fits(fields, st.slots)
    && (st.fixedRow.Some? ==> st.fixedRow.value < |fields| && fields[st.fixedRow.value].FixedCount())
  }

  /** All elements of the current fixed-count array, if there is one, have arrived. */
  predicate FixedComplete(fields: seq<Field>, st: State)
    requires StateFits(fields, st)
  {
    st.fixedRow.Some? ==> st.fixedSize == fields[st.fixedRow.value].arraySize
  }

  /** Switching to the fixed-count array of row i; None is "wrong size for fixed count field". */
  function EnterFixed(fields: seq<Field>, st: State, i: nat): (r: Option<State>)
    requires StateFits(fields, st) && i < |fields| && fields[i].FixedCount()
    ensures r.Some? ==> StateFits(fields, r.value) && r.value.fixedRow == Some(i) && r.value.slots == st.slots
  {
    if st.fixedRow == Some(i) then Some(st)
    else if FixedComplete(fields, st) then Some(st.(fixedRow := Some(i), fixedSize := 0))
    else None
  }

  /** Elements and count of an array. */
  datatype Elements = Elements(items: seq<Value>, count: nat)

  predicate ElementsFit(f: Field, e: Elements)
  {
    |e.items| == f.arraySize && forall k | 0 <= k < |e.items| :: ValueFits(f, e.items[k])
  }

  /** What happens before an element of array row i is decoded. */
  function Enter(fields: seq<Field>, st: State, i: nat): (r: Option<State>)
    requires StateFits(fields, st) && i < |fields| && fields[i].htype.Repeated?
    ensures r.Some? ==> StateFits(fields, r.value) && r.value.slots == st.slots
    ensures r.Some? && fields[i].FixedCount() ==> r.value.fixedRow == Some(i)
  {
    if fields[i].FixedCount() then EnterFixed(fields, st, i) else Some(st)
  }

  /** The array of row i; a fixed-count array is counted outside the struct. */
  function ArrayAt(fields: seq<Field>, st: State, i: nat): (e: Elements)
    requires StateFits(fields, st) && i < |fields| && fields[i].htype.Repeated?
    ensures ElementsFit(fields[i], e)
    ensures e.count <= PB_SIZE_MAX || fields[i].FixedCount()
  {
    var s := SlotAt(fields, st.slots, i);
    Elements(s.items, if fields[i].FixedCount() then st.fixedSize else s.size)
  }

  function WithArray(fields: seq<Field>, st: State, i: nat, e: Elements): (r: State)
    requires TableOk(fields) && StateFits(fields, st) && i < |fields| && fields[i].htype.Repeated?
    requires ElementsFit(fields[i], e) && (e.count <= PB_SIZE_MAX || fields[i].FixedCount())
    ensures StateFits(fields, r)
  {
    assert FieldOk(fields[i]);
    var s := SlotAt(fields, st.slots, i);
    if fields[i].FixedCount() then
      st.(slots := Put(fields, st.slots, i, Slot(s.size, e.items)), fixedSize := e.count)
    else
      st.(slots := Put(fields, st.slots, i, Slot(e.count, e.items)))
  }

  /** The loop over a packed block; None is a bad element or "array overflow". */
  function ReadPacked(f: Field, block: seq<byte>, e: Elements): (r: Option<Elements>)
    requires f.ltype.Packable() && ElementsFit(f, e)
    ensures r.Some? ==> ElementsFit(f, r.value) && (r.value.count == e.count || r.value.count <= f.arraySize)
    ensures r.Some? ==> e.count <= r.value.count
    decreases |block|
  {
    if block == [] then Some(e)
    else if e.count >= f.arraySize then None
    else
      match DecodeScalar(f, block)
      case Done(n, rest) => ReadPacked(f, rest, Elements(e.items[e.count := Num(n)], e.count + 1))
      case Fail => None
  }

  /** pb_dec_* : one element, into storage whose previous content is was. */
  function DecodeValue(f: Field, bs: seq<byte>, was: Value): (p: Parse<Value>)
    requires FieldOk(f) && ValueFits(f, was)
    ensures p.Done? ==> |p.rest| < |bs| && ValueFits(f, p.value)
    decreases |bs|, 0
  {
    match f.ltype
    case Bytes => ReadBytesField(f, bs, was)
    case String => ReadStringField(f, bs, was)
    case FixedLengthBytes => ReadFixedLengthField(f, bs, was)
    case Submessage(fields) =>
      (match ReadBlock(bs)
       case Fail => Fail
       case Done(block, rest) =>
         var before := if f.htype.Repeated? then SetDefaults(fields, was.slots, 0) else was.slots;
         match DecodeNoinit(fields, block, before)
         case Done(slots, _) => Done(Msg(slots), rest)
         case Fail => Fail)
    case _ =>
      (match DecodeScalar(f, bs)
       case Done(n, rest) => Done(Num(n), rest)
       case Fail => Fail)
  }

  /** The repeated-field case of decode_static_field. */
  function DecodeElements(f: Field, wireType: nat, bs: seq<byte>, e: Elements): (p: Parse<Elements>)
    requires FieldOk(f) && ElementsFit(f, e)
    ensures p.Done? ==> |p.rest| < |bs| && ElementsFit(f, p.value)
    ensures p.Done? ==> e.count <= p.value.count && (p.value.count == e.count || p.value.count <= f.arraySize)
    decreases |bs|, 1
  {
    if wireType == WT_STRING && f.ltype.Packable() then
      match ReadBlock(bs)
      case Fail => Fail
      case Done(block, rest) =>
        match ReadPacked(f, block, e)
        case Some(e') => Done(e', rest)
        case None => Fail
    else if e.count >= f.arraySize then Fail
    else
      match DecodeValue(f, bs, e.items[e.count])
      case Done(v, rest) => Done(Elements(e.items[e.count := v], e.count + 1), rest)
      case Fail => Fail
  }

  /** The bytes another union member left, read as a value of this one. */
  type UnionMemory = m: (Field, Slot) -> Value
    | forall f, s | FieldOk(f) :: ValueFits(f, m(f, s))
    witness (f: Field, s: Slot) => if FieldOk(f) then ZeroValue(f) else Num(0)

  /** They depend on the layout of the members and are left open. */
  const UNION_MEMORY: UnionMemory

  /** What a union member finds in its storage before it is decoded. */
  function UnionBefore(f: Field, s: Slot): (v: Value)
    requires FieldOk(f) && f.htype.Oneof? && SlotFits(f, s)
    ensures ValueFits(f, v)
  {
    if f.ltype.Submessage? then DefaultValue(f, ZeroValue(f))
    else if s.size == f.tag then s.items[0]
    else UNION_MEMORY(f, s)
  }

  /** decode_field for the row that was found, with the bookkeeping pb_decode_noinit does before it. */
  function DecodeField(fields: seq<Field>, i: nat, wireType: nat, bs: seq<byte>, st: State): (p: Parse<State>)
    requires TableOk(fields) && i < |fields| && StateFits(fields, st)
    ensures p.Done? ==> |p.rest| < |bs| && StateFits(fields, p.value)
    decreases |bs|, 2
  {
    var f := fields[i];
    var s := SlotAt(fields, st.slots, i);
    match f.htype
    case Required =>
      (match DecodeValue(f, bs, s.items[0])
       case Fail => Fail
       case Done(v, rest) =>
         var r := RequiredBefore(fields, i);
         var seen := if r < PB_MAX_REQUIRED_FIELDS then st.seen + {r} else st.seen;
         Done(st.(slots := Put(fields, st.slots, i, Slot(s.size, [v])), seen := seen), rest))
    case Optional =>
      (match DecodeValue(f, bs, s.items[0])
       case Fail => Fail
       case Done(v, rest) =>
         var size := if f.sizeOffset != 0 then 1 else s.size;
         Done(st.(slots := Put(fields, st.slots, i, Slot(size, [v]))), rest))
    case Repeated =>
      (match Enter(fields, st, i)
       case None => Fail
       case Some(st') =>
         match DecodeElements(f, wireType, bs, ArrayAt(fields, st', i))
         case Fail => Fail
         case Done(e, rest) => Done(WithArray(fields, st', i, e), rest))
    case Oneof =>
      (match DecodeValue(f, bs, UnionBefore(f, s))
       case Fail => Fail
       case Done(v, rest) => Done(st.(slots := Put(fields, st.slots, i, Slot(f.tag, [v]))), rest))
  }

  /** The main loop, up to the end of the stream or a zero tag. */
  function DecodeLoop(fields: seq<Field>, bs: seq<byte>, st: State): (p: Parse<State>)
    requires TableOk(fields) && StateFits(fields, st)
    ensures p.Done? ==> |p.rest| <= |bs| && StateFits(fields, p.value)
    decreases |bs|, 3
  {
    if bs == [] then Done(st, [])
    else
      match ReadTag(bs)
      case BadTag => Fail
      case EndOfMessage(rest) => Done(st, rest)
      case Tag(tag, wireType, rest) =>
        match DecodeRecord(fields, tag, wireType, rest, st)
        case Fail => Fail
        case Done(st', rest') => DecodeLoop(fields, rest', st')
  }

  /** One record after its tag; an empty table's terminator row matches tag 0 and then fails. */
  function DecodeRecord(fields: seq<Field>, tag: nat, wireType: nat, bs: seq<byte>, st: State): (p: Parse<State>)
    requires TableOk(fields) && StateFits(fields, st)
    ensures p.Done? ==> |p.rest| <= |bs| && StateFits(fields, p.value)
    decreases |bs|, 3
  {
    match Find(fields, tag)
    case Some(i) => DecodeField(fields, i, wireType, bs, st)
    case None =>
      if fields == [] && tag == 0 then Fail
      else
        match Skip(bs, wireType)
        case Done(_, rest) => Done(st, rest)
        case Fail => Fail
  }

  /** Number of required rows that are tracked. */
  function Tracked(fields: seq<Field>): nat
  {
    var n := RequiredBefore(fields, |fields|);
    if n > PB_MAX_REQUIRED_FIELDS then PB_MAX_REQUIRED_FIELDS else n
  }

  /** The checks after the loop. */
  predicate Complete(fields: seq<Field>, st: State)
    requires StateFits(fields, st)
  {
    FixedComplete(fields, st) && forall r: nat | r < Tracked(fields) :: r in st.seen
  }

  function DecodeNoinit(fields: seq<Field>, bs: seq<byte>, slots: seq<Slot>): (p: Parse<seq<Slot>>)
    requires TableOk(fields) && Fits(fields, slots)
    ensures p.Done? ==> |p.rest| <= |bs| && Fits(fields, p.value)
    decreases |bs|, 4
  {
    match DecodeLoop(fields, bs, Start(slots))
    case Fail => Fail
    case Done(st, rest) => if Complete(fields, st) then Done(st.slots, rest) else Fail
  }

  function Decode(fields: seq<Field>, bs: seq<byte>, slots: seq<Slot>): (p: Parse<seq<Slot>>)
    requires TableOk(fields) && Fits(fields, slots)
    ensures p.Done? ==> |p.rest| <= |bs| && Fits(fields, p.value)
  {
    DecodeNoinit(fields, bs, SetDefaults(fields, slots, 0))
  }

  /** pb_decode_delimited */
  function DecodeDelimited(fields: seq<Field>, bs: seq<byte>, slots: seq<Slot>): (p: Parse<seq<Slot>>)
    requires TableOk(fields) && Fits(fields, slots)
    ensures p.Done? ==> |p.rest| < |bs| && Fits(fields, p.value)
  {
    match ReadBlock(bs)
    case Fail => Fail
    case Done(block, rest) =>
      match Decode(fields, block, slots)
      case Done(slots', _) => Done(slots', rest)
      case Fail => Fail
  }
}
