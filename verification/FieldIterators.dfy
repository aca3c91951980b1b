// The cyclic iterator that walks a field table and its struct together (pb_common.c).
module FieldIterators {
  import opened Varints
  import opened Fields

  /** PB_LAST_FIELD, the all-zero row that ends every table. */
  const LAST_FIELD: Field := Field(0, LType.Varint, Required, 0, 0, 0, 0, None)

  /** Row i of the table in memory, the terminator included. */
  function Entry(fields: seq<Field>, i: nat): Field
    requires i <= |fields|
  {
    if i < |fields| then fields[i] else LAST_FIELD
  }

  /** Bytes the row's storage takes in the struct. */
  function StorageSize(f: Field): nat
  {
    if f.htype.Repeated? then f.dataSize * f.arraySize else f.dataSize
  }

  /** Absolute offset of row i's data, summed from the table. */
  function DataAt(fields: seq<Field>, i: nat): nat
    requires i <= |fields|
  {
    if i == 0 then Entry(fields, 0).dataOffset
    else if i < |fields| && Continues(fields, i) then DataAt(fields, i - 1)
    else DataAt(fields, i - 1) + StorageSize(fields[i - 1]) + Entry(fields, i).dataOffset
  }

  /** Absolute offset of row i's has-flag, count or which-tag. */
  function SizeAt(fields: seq<Field>, i: nat): int
    requires i <= |fields|
  {
    if i > 0 && i < |fields| && Continues(fields, i) then SizeAt(fields, i - 1)
    else DataAt(fields, i) + Entry(fields, i).sizeOffset
  }

  /** Where pSize points: into the struct, or at the decoder's fixed_count_size. */
  datatype SizeRef = Member(offset: int) | FixedCountSize

  /** Index of the next row in cyclic order. */
  function After(fields: seq<Field>, i: nat): nat
  {
    if i + 1 < |fields| then i + 1 else 0
  }

  class FieldIter {
    var fields: seq<Field>
    var pos: nat
    var requiredFieldIndex: nat
    var pData: int
    var pSize: SizeRef

    /** Position, data offset and required index agree; pSize may have been redirected for a fixed-count array. */
    ghost predicate Valid()
      reads this
    {
      && (forall i | 0 <= i < |fields| :: fields[i].tag != 0)
      && (pos < |fields| || (fields == [] && pos == 0))
      && requiredFieldIndex == RequiredBefore(fields, pos)
      && pData == DataAt(fields, pos)
      && (pSize == Member(SizeAt(fields, pos)) || (pSize == FixedCountSize && Entry(fields, pos).FixedCount()))
    }

    constructor ()
    {
      fields, pos, requiredFieldIndex, pData, pSize := [], 0, 0, 0, Member(0);
    }

    method Begin(table: seq<Field>) returns (ok: bool)
      requires forall i | 0 <= i < |table| :: table[i].tag != 0
      modifies this
      ensures Valid() && fields == table && pos == 0 && pSize == Member(SizeAt(fields, 0))
      ensures ok <==> table != []
    {
      fields, pos, requiredFieldIndex := table, 0, 0;
      pData := Entry(fields, 0).dataOffset;
      pSize := Member(pData + Entry(fields, 0).sizeOffset);
      ok := Entry(fields, 0).tag != 0;
    }

    method Next() returns (more: bool)
      requires Valid()
      modifies this
      ensures Valid() && fields == old(fields)
      ensures pos == After(fields, old(pos)) && (more <==> old(pos) + 1 < |fields|)
      ensures pSize == Member(SizeAt(fields, pos))
    {
      var prev := Entry(fields, pos);
      if prev.tag == 0 {
        return false;
      }
      pos := pos + 1;
      var here := Entry(fields, pos);
      if here.tag == 0 {
        var _ := Begin(fields);
        return false;
      }
      if prev.htype.Oneof? && here.htype.Oneof? && here.dataOffset == PB_SIZE_MAX {
        return true;
      }
      var prevSize := prev.dataSize;
      if prev.htype.Repeated? {
        prevSize := prevSize * prev.arraySize;
      }
      if prev.htype.Required? {
        requiredFieldIndex := requiredFieldIndex + 1;
      }
      pData := pData + prevSize + here.dataOffset;
      pSize := Member(pData + here.sizeOffset);
      return true;
    }

    /**
      * Finds the tag from any start exactly when some row has it (or, in an empty table, when it is
      * the terminator's 0), within one lap; otherwise ends where it began.
      */
    method Find(tag: nat) returns (found: bool, ghost steps: nat)
      requires Valid()
      modifies this
      ensures Valid() && fields == old(fields)
      ensures found <==> (exists i :: HasTag(fields, i, tag)) || (fields == [] && tag == 0)
      ensures found ==> Entry(fields, pos).tag == tag
      ensures !found ==> pos == old(pos)
      ensures steps <= |fields| || (fields == [] && steps == 1)
      ensures steps > 0 ==> pSize == Member(SizeAt(fields, pos))
      ensures steps == 0 ==> pos == old(pos) && pSize == old(pSize) && found
    {
      var start := pos;
      var searching := true;
      steps := 0;
      while searching
        invariant Valid() && fields == old(fields) && start == old(pos)
        invariant pos == Lap(fields, start, steps)
        invariant searching ==> steps == 0 || (steps < |fields| && pos != start)
        invariant !searching ==> pos == start && steps > 0 && (steps == |fields| || (fields == [] && steps == 1))
        invariant forall k | 0 <= k < steps :: Entry(fields, Lap(fields, start, k)).tag != tag
        invariant steps > 0 ==> pSize == Member(SizeAt(fields, pos))
        invariant steps == 0 ==> pSize == old(pSize)
        decreases |fields| - steps, searching
      {
        if Entry(fields, pos).tag == tag {
          if pos < |fields| { assert HasTag(fields, pos, tag); }
          return true, steps;
        }
        LapStep(fields, start, steps);
        var _ := Next();
        steps := steps + 1;
        searching := pos != start;
        LapBack(fields, start, steps);
      }
      if i :| HasTag(fields, i, tag) {
        LapReaches(fields, start, i);
        assert false;
      }
      found := false;
    }
  }

  predicate HasTag(fields: seq<Field>, i: int, tag: nat)
  {
    0 <= i < |fields| && fields[i].tag == tag
  }

  /** Row reached from start after k steps. */
  function Lap(fields: seq<Field>, start: nat, k: nat): (i: nat)
    requires start < |fields| || (fields == [] && start == 0)
    ensures i < |fields| || (fields == [] && i == 0)
  {
    if k == 0 then start else After(fields, Lap(fields, start, k - 1))
  }

  lemma LapStep(fields: seq<Field>, start: nat, k: nat)
    requires start < |fields| || (fields == [] && start == 0)
    ensures Lap(fields, start, k + 1) == After(fields, Lap(fields, start, k))
  {
  }

  lemma {:induction false} LapIndex(fields: seq<Field>, start: nat, k: nat)
    requires start < |fields| && k <= |fields|
    ensures Lap(fields, start, k) == if start + k < |fields| then start + k else start + k - |fields|
  {
    if k > 0 {
      LapIndex(fields, start, k - 1);
    }
  }

  /** The lap is back at its start after as many steps as there are rows, and not before. */
  lemma LapBack(fields: seq<Field>, start: nat, k: nat)
    requires start < |fields| || (fields == [] && start == 0)
    requires 0 < k <= |fields| || (fields == [] && k == 1)
    ensures Lap(fields, start, k) == start <==> k == |fields| || fields == []
  {
    if fields != [] {
      LapIndex(fields, start, k);
    }
  }

  lemma LapReaches(fields: seq<Field>, start: nat, i: nat)
    requires start < |fields| && i < |fields|
    ensures exists k | 0 <= k < |fields| :: Lap(fields, start, k) == i
  {
    var k := if start <= i then i - start else i + |fields| - start;
    LapIndex(fields, start, k);
  }

  // ---- offsets and slots ----

  /** Rows that share a slot share their storage, and their which-tag. */
  lemma {:induction false} SameSlotSameStorage(fields: seq<Field>, i: nat, j: nat)
    requires i <= j < |fields| && SlotOf(fields, i) == SlotOf(fields, j)
    ensures DataAt(fields, i) == DataAt(fields, j) && SizeAt(fields, i) == SizeAt(fields, j)
    decreases j
  {
    if i < j {
      SharedSlotIsUnion(fields, i, j);
      SlotOfMonotone(fields, i, j - 1);
      SlotOfMonotone(fields, j - 1, j);
      SameSlotSameStorage(fields, i, j - 1);
    }
  }

  /** The row after a union starts behind the union's largest member, as offsetof makes it. */
  predicate Spaced(fields: seq<Field>)
  {
    forall i, j | 0 <= i < j < |fields| :: RowSpaced(fields, i, j)
  }

  predicate RowSpaced(fields: seq<Field>, i: nat, j: nat)
    requires i < j < |fields|
  {
    !Continues(fields, j) && SlotOf(fields, i) == SlotOf(fields, j - 1) ==>
      StorageSize(fields[i]) <= StorageSize(fields[j - 1]) + fields[j].dataOffset
  }

  /** Rows with different slots have disjoint storage, in table order. */
  lemma {:induction false} SlotsAreDisjoint(fields: seq<Field>, i: nat, j: nat)
    requires Spaced(fields) && i < j < |fields| && SlotOf(fields, i) != SlotOf(fields, j)
    ensures DataAt(fields, i) + StorageSize(fields[i]) <= DataAt(fields, j)
    decreases j
  {
    hide StorageSize;
    assert RowSpaced(fields, i, j);
    if Continues(fields, j) {
      assert i < j - 1;
      SlotsAreDisjoint(fields, i, j - 1);
    } else if SlotOf(fields, i) == SlotOf(fields, j - 1) {
      SameSlotSameStorage(fields, i, j - 1);
    } else {
      SlotsAreDisjoint(fields, i, j - 1);
    }
  }

  // ---- offsets and the struct ----

  /** A member of the struct: where it lies, its sizeof, and where its has-flag, count or which-tag lies. */
  datatype Place = Place(data: nat, width: nat, size: int)

  /** Row i as the generator's macros write it for the places: offsetof for the first row, the marker for another
      member of the same union, and otherwise the gap behind the row before. */
  predicate RowPlaced(fields: seq<Field>, places: seq<Place>, i: nat)
    requires |places| == |fields| && i < |fields|
  {
    var f, here := fields[i], places[i];
    && here.width == f.dataSize * (if f.htype.Repeated? then f.arraySize else 1)
    && (if i == 0 then f.dataOffset == here.data
        else if fields[i - 1].htype.Oneof? && f.htype.Oneof? && f.dataOffset == PB_SIZE_MAX then
          here.data == places[i - 1].data && here.size == places[i - 1].size
        else f.dataOffset == here.data - places[i - 1].data - places[i - 1].width)
    && f.sizeOffset == here.size - here.data
  }

  /** The iterator's sums give back the offsets the table was made from. */
  lemma {:induction false} OffsetsGivenBack(fields: seq<Field>, places: seq<Place>, i: nat)
    requires |places| == |fields| && i < |fields|
    requires forall k | 0 <= k < |fields| :: RowPlaced(fields, places, k)
    ensures DataAt(fields, i) == places[i].data && SizeAt(fields, i) == places[i].size
  {
    assert RowPlaced(fields, places, i);
    if i > 0 {
      assert RowPlaced(fields, places, i - 1);
      OffsetsGivenBack(fields, places, i - 1);
      assert StorageSize(fields[i - 1]) == places[i - 1].width;
    }
  }
}
