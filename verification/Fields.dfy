// Message descriptors (pb.h) and the C struct they describe, as one slot per storage location.
module Fields {
  import opened Bits
  import opened Varints

  /** Largest value of pb_size_t: one of the three builds pb.h offers. */
  type SizeMax = n: nat | n == 0xFF || n == 0xFFFF || n == 0xFFFF_FFFF witness 0xFF
  const PB_SIZE_MAX: SizeMax

  /** offsetof(pb_bytes_array_t, bytes): the size member comes first. */
  const BYTES_OFFSET: nat := if PB_SIZE_MAX == 0xFF then 1 else if PB_SIZE_MAX == 0xFFFF then 2 else 4

  const PB_MAX_REQUIRED_FIELDS: nat := 64

  datatype LType =
    | Varint
    | Uvarint
    | Svarint
    | Fixed32
    | Fixed64
    | Bytes
    | String
    | Submessage(fields: seq<Field>)
    | FixedLengthBytes
  {
    /** PB_LTYPE(type) <= PB_LTYPE_LAST_PACKABLE */
    predicate Packable()
    {
      Varint? || Uvarint? || Svarint? || Fixed32? || Fixed64?
    }

    function WireType(): (w: nat)
      ensures w < 8
    {
      match this
      case Varint | Uvarint | Svarint => WT_VARINT
      case Fixed32 => WT_32BIT
      case Fixed64 => WT_64BIT
      case _ => WT_STRING
    }
  }

  const WT_VARINT: nat := 0
  const WT_64BIT: nat := 1
  const WT_STRING: nat := 2
  const WT_32BIT: nat := 5

  datatype HType = Required | Optional | Repeated | Oneof

  /** One row of a field table; initial is the default value, if any. */
  datatype Field = Field(
    tag: nat,
    ltype: LType,
    htype: HType,
    dataOffset: nat,
    sizeOffset: int,
    dataSize: nat,
    arraySize: nat,
    initial: Option<Value>)
  {
    /** An array without a count member: pSize == pData. */
    predicate FixedCount()
    {
      htype.Repeated? && sizeOffset == 0
    }

    /** A field with neither has-flag nor count: its value alone decides whether it is sent. */
    predicate Singular()
    {
      htype.Optional? && sizeOffset == 0
    }
  }

  /** A scalar, a character or byte buffer (size is used by bytes only), or a nested struct. */
  datatype Value =
    | Num(n: int)
    | Buf(size: nat, data: seq<byte>)
    | Msg(slots: seq<Slot>)

  /** The has-flag, count or which-tag beside a field, and the storage of its elements. */
  datatype Slot = Slot(size: nat, items: seq<Value>)

  // ---- which slot belongs to a row ----

  /** The row lies in the same union as the row before it. */
  predicate Continues(fields: seq<Field>, i: nat)
    requires i < |fields|
  {
    i > 0 && fields[i - 1].htype.Oneof? && fields[i].htype.Oneof? && fields[i].dataOffset == PB_SIZE_MAX
  }

  function SlotOf(fields: seq<Field>, i: nat): nat
    requires i < |fields|
  {
    if i == 0 then 0 else SlotOf(fields, i - 1) + if Continues(fields, i) then 0 else 1
  }

  function SlotCount(fields: seq<Field>): nat
  {
    if |fields| == 0 then 0 else SlotOf(fields, |fields| - 1) + 1
  }

  lemma {:induction false} SlotOfMonotone(fields: seq<Field>, i: nat, j: nat)
    requires i <= j < |fields|
    ensures SlotOf(fields, i) <= SlotOf(fields, j) < SlotCount(fields)
    decreases |fields| - i, j - i
  {
    if i < j {
      SlotOfMonotone(fields, i, j - 1);
      if j < |fields| - 1 {
        SlotOfMonotone(fields, j, |fields| - 1);
      }
    } else if j < |fields| - 1 {
      SlotOfMonotone(fields, j + 1, |fields| - 1);
      assert SlotOf(fields, j) <= SlotOf(fields, j + 1);
    }
  }

  /** Two rows share a slot only when both are members of one union. */
  lemma {:induction false} SharedSlotIsUnion(fields: seq<Field>, i: nat, j: nat)
    requires i < j < |fields| && SlotOf(fields, i) == SlotOf(fields, j)
    ensures fields[i].htype.Oneof? && fields[j].htype.Oneof?
    ensures forall k | i < k <= j :: Continues(fields, k)
  {
    SlotOfMonotone(fields, i, j - 1);
    if i < j - 1 {
      SharedSlotIsUnion(fields, i, j - 1);
    }
  }

  /** Number of required rows before row i. */
  function RequiredBefore(fields: seq<Field>, i: nat): nat
    requires i <= |fields|
  {
    if i == 0 then 0 else RequiredBefore(fields, i - 1) + if fields[i - 1].htype.Required? then 1 else 0
  }

  lemma {:induction false} RequiredBeforeMonotone(fields: seq<Field>, i: nat, j: nat)
    requires i <= j <= |fields|
    ensures RequiredBefore(fields, i) <= RequiredBefore(fields, j)
    ensures i < j && fields[i].htype.Required? ==> RequiredBefore(fields, i) < RequiredBefore(fields, j)
  {
    if i < j {
      RequiredBeforeMonotone(fields, i, j - 1);
    }
  }

  /** Every required index below the total is the index of exactly one row. */
  lemma {:induction false} RequiredRow(fields: seq<Field>, n: nat, r: nat) returns (i: nat)
    requires n <= |fields| && r < RequiredBefore(fields, n)
    ensures i < n && fields[i].htype.Required? && RequiredBefore(fields, i) == r
  {
    if RequiredBefore(fields, n - 1) == r {
      i := n - 1;
    } else {
      i := RequiredRow(fields, n - 1, r);
    }
  }

  /** The row with the given tag, if any. */
  function Find(fields: seq<Field>, tag: nat): (r: Option<nat>)
    ensures r.Some? ==> r.value < |fields| && fields[r.value].tag == tag
    ensures r.None? ==> forall i | 0 <= i < |fields| :: fields[i].tag != tag
  {
    FindFrom(fields, tag, 0)
  }

  function FindFrom(fields: seq<Field>, tag: nat, i: nat): (r: Option<nat>)
    requires i <= |fields|
    ensures r.Some? ==> i <= r.value < |fields| && fields[r.value].tag == tag
    ensures r.None? ==> forall k | i <= k < |fields| :: fields[k].tag != tag
    decreases |fields| - i
  {
    if i == |fields| then None
    else if fields[i].tag == tag then Some(i)
    else FindFrom(fields, tag, i + 1)
  }

  predicate DistinctTags(fields: seq<Field>)
  {
    forall i, j | 0 <= i < j < |fields| :: fields[i].tag != fields[j].tag
  }

  lemma FindRow(fields: seq<Field>, i: nat)
    requires DistinctTags(fields) && i < |fields|
    ensures Find(fields, fields[i].tag) == Some(i)
  {
    var r := Find(fields, fields[i].tag);
    if r.Some? && r.value != i {
      assert false;
    }
  }

  // ---- structs that fit a table ----

  predicate IntSize(n: nat)
  {
    n == 1 || n == 2 || n == 4 || n == 8
  }

  /** Number of values an unsigned integer of n bytes takes. */
  function Range(n: nat): (r: nat)
    ensures IntSize(n) ==> r > 0 && r % 2 == 0 && r <= TWO_64
  {
    match n
    case 1 => 0x100
    case 2 => 0x1_0000
    case 4 => TWO_32
    case 8 => TWO_64
    case _ => 0
  }

  predicate FitsUnsigned(n: nat, v: int)
  {
    0 <= v < Range(n)
  }

  predicate FitsSigned(n: nat, v: int)
  {
    -(Range(n) as int) <= 2 * v < Range(n)
  }

  /** The value could be the content of one element of the field. */
  predicate ValueFits(f: Field, v: Value)
    decreases f, 0
  {
    match f.ltype
    case Varint | Svarint => v.Num? && (IntSize(f.dataSize) ==> FitsSigned(f.dataSize, v.n))
    case Uvarint => v.Num? && (IntSize(f.dataSize) ==> FitsUnsigned(f.dataSize, v.n))
    case Fixed32 => v.Num? && FitsUnsigned(4, v.n)
    case Fixed64 => v.Num? && FitsUnsigned(8, v.n)
    case Bytes => v.Buf? && |v.data| + BYTES_OFFSET == f.dataSize && v.size <= PB_SIZE_MAX
    case String | FixedLengthBytes => v.Buf? && |v.data| == f.dataSize
    case Submessage(fields) => v.Msg? && Fits(fields, v.slots)
  }

  /** Storage for a field; in a union only the member named by the which-tag is meaningful. */
  predicate SlotFits(f: Field, s: Slot)
    decreases f, 1
  {
    && s.size <= PB_SIZE_MAX
    && match f.htype
       case Required | Optional => |s.items| == 1 && ValueFits(f, s.items[0])
       case Repeated => |s.items| == f.arraySize && forall k | 0 <= k < |s.items| :: ValueFits(f, s.items[k])
       case Oneof => |s.items| == 1 && (s.size == f.tag ==> ValueFits(f, s.items[0]))
  }

  /** Any content the memory of such a struct can have. */
  predicate Fits(fields: seq<Field>, slots: seq<Slot>)
    decreases fields, 1
  {
    |slots| == SlotCount(fields) && forall i | 0 <= i < |fields| :: RowFits(fields, slots, i)
  }

  predicate RowFits(fields: seq<Field>, slots: seq<Slot>, i: nat)
    requires i < |fields|
    decreases fields, 0
  {
    SlotOf(fields, i) < |slots| && SlotFits(fields[i], slots[SlotOf(fields, i)])
  }

  /** Characters before the terminating NUL, or all of them. */
  function StringLength(data: seq<byte>): (n: nat)
    ensures n <= |data|
    ensures forall k | 0 <= k < n :: data[k] != 0
    ensures n < |data| ==> data[n] == 0
  {
    if data == [] || data[0] == 0 then 0 else 1 + StringLength(data[1..])
  }

  /** How many elements of an array are sent. */
  function Count(f: Field, s: Slot): nat
  {
    if f.FixedCount() then f.arraySize else s.size
  }

  // ---- well-formed tables ----

  /** No array without a count, at any depth the proto3 zero check descends to. */
  predicate NoFixedCount(fields: seq<Field>)
  {
    forall i | 0 <= i < |fields| :: !fields[i].FixedCount()
  }

  predicate FieldOk(f: Field)
    decreases f, 0
  {
    && 0 < f.tag <= PB_SIZE_MAX && f.tag < 0x2000_0000
    && f.dataSize <= PB_SIZE_MAX
    && (f.ltype.Varint? || f.ltype.Uvarint? || f.ltype.Svarint? ==> IntSize(f.dataSize))
    && (f.ltype.Fixed32? ==> f.dataSize == 4) && (f.ltype.Fixed64? ==> f.dataSize == 8)
    && (f.ltype.Bytes? ==> BYTES_OFFSET <= f.dataSize)
    && (f.htype.Repeated? ==> 0 < f.arraySize <= PB_SIZE_MAX)
    && (f.htype.Oneof? ==> f.sizeOffset != 0)
    && (f.initial.Some? ==> ValueFits(f, f.initial.value))
    && (f.Singular() ==> f.initial.None?)
    && (f.ltype.Submessage? ==> TableOk(f.ltype.fields) && (f.Singular() ==> NoFixedCount(f.ltype.fields)))
  }

  /** A table as the generator emits it: distinct non-zero tags and consistent rows. */
  predicate TableOk(fields: seq<Field>)
    decreases fields
  {
    && DistinctTags(fields)
    && forall i | 0 <= i < |fields| :: FieldOk(fields[i])
  }

  lemma TableRow(fields: seq<Field>, i: nat)
    requires TableOk(fields) && i < |fields|
    ensures FieldOk(fields[i]) && fields[i].tag != 0
  {
  }

  lemma TableRows(fields: seq<Field>)
    requires TableOk(fields)
    ensures forall i | 0 <= i < |fields| :: fields[i].tag != 0 && FieldOk(fields[i])
  {
  }

  // ---- reading and writing one slot ----

  function SlotAt(fields: seq<Field>, slots: seq<Slot>, i: nat): (s: Slot)
    requires Fits(fields, slots) && i < |fields|
    ensures SlotOf(fields, i) < |slots| && s == slots[SlotOf(fields, i)]
    ensures SlotFits(fields[i], s)
  {
    assert RowFits(fields, slots, i);
    slots[SlotOf(fields, i)]
  }

  lemma OtherMemberFits(f: Field, other: Field, s: Slot)
    requires f.htype.Oneof? && other.htype.Oneof? && SlotFits(f, s)
    requires s.size != other.tag
    ensures SlotFits(other, s)
  {
  }

  lemma PutFits(fields: seq<Field>, slots: seq<Slot>, i: nat, s: Slot)
    requires TableOk(fields) && Fits(fields, slots) && i < |fields| && SlotFits(fields[i], s)
    requires fields[i].htype.Oneof? ==> s.size == fields[i].tag || s.size == 0
    ensures SlotOf(fields, i) < |slots| && Fits(fields, slots[SlotOf(fields, i) := s])
  {
    hide SlotFits;
    assert RowFits(fields, slots, i);
    var g := SlotOf(fields, i);
    var r := slots[g := s];
    forall j | 0 <= j < |fields| ensures RowFits(fields, r, j) {
      assert RowFits(fields, slots, j);
      if j != i && SlotOf(fields, j) == g {
        if j < i { SharedSlotIsUnion(fields, j, i); } else { SharedSlotIsUnion(fields, i, j); }
        assert FieldOk(fields[j]);
        OtherMemberFits(fields[i], fields[j], s);
      }
    }
  }

  /** The struct after row i's slot is replaced; a union slot names row i or nothing. */
  function Put(fields: seq<Field>, slots: seq<Slot>, i: nat, s: Slot): (r: seq<Slot>)
    requires TableOk(fields) && Fits(fields, slots) && i < |fields| && SlotFits(fields[i], s)
    requires fields[i].htype.Oneof? ==> s.size == fields[i].tag || s.size == 0
    ensures Fits(fields, r)
  {
    PutFits(fields, slots, i, s);
    slots[SlotOf(fields, i) := s]
  }

  /** Replacing row i's slot is seen by row i, and by no row that has a slot of its own. */
  lemma PutSeen(fields: seq<Field>, slots: seq<Slot>, i: nat, s: Slot, j: nat)
    requires TableOk(fields) && Fits(fields, slots) && i < |fields| && j < |fields| && SlotFits(fields[i], s)
    requires fields[i].htype.Oneof? ==> s.size == fields[i].tag || s.size == 0
    ensures SlotAt(fields, Put(fields, slots, i, s), j)
         == if SlotOf(fields, j) == SlotOf(fields, i) then s else SlotAt(fields, slots, j)
  {
  }
}
