// What a successful decode says about the records that were in the input.
module Traces {
  import opened Bits
  import opened Varints
  import opened Fields
  import opened Scalars
  import opened Decoding

  // ---- required rows ----

  /** The rows whose records the loop decodes, in input order. */
  function RowsReceived(fields: seq<Field>, bs: seq<byte>, st: State): (r: seq<nat>)
    requires TableOk(fields) && StateFits(fields, st)
    ensures forall k | 0 <= k < |r| :: r[k] < |fields|
    decreases |bs|
  {
    if bs == [] then []
    else
      match ReadTag(bs)
      case Tag(tag, wireType, rest) =>
        (match DecodeRecord(fields, tag, wireType, rest, st)
         case Done(st', rest') =>
           var row := Find(fields, tag);
           (if row.Some? then [row.value] else []) + RowsReceived(fields, rest', st')
         case Fail => [])
      case _ => []
  }

  /** The required index r was received: its row is among the rows. */
  predicate Received(fields: seq<Field>, rows: seq<nat>, r: nat)
  {
    exists k | 0 <= k < |rows| ::
      rows[k] < |fields| && fields[rows[k]].htype.Required? && RequiredBefore(fields, rows[k]) == r
  }

  lemma RecordSeen(fields: seq<Field>, tag: nat, wireType: nat, bs: seq<byte>, st: State)
    requires TableOk(fields) && StateFits(fields, st) && DecodeRecord(fields, tag, wireType, bs, st).Done?
    ensures var seen := DecodeRecord(fields, tag, wireType, bs, st).value.seen;
      match Find(fields, tag)
      case None => seen == st.seen
      case Some(i) =>
        seen == if fields[i].htype.Required? && RequiredBefore(fields, i) < PB_MAX_REQUIRED_FIELDS
                then st.seen + {RequiredBefore(fields, i)} else st.seen
  {
    hide DecodeValue, DecodeElements, TableOk, Put, Skip, Find, ArrayAt;
  }

  /** The seen set is exactly the tracked required indices received, besides those seen before. */
  lemma {:induction false} SeenIsReceived(fields: seq<Field>, bs: seq<byte>, st: State, r: nat)
    requires TableOk(fields) && StateFits(fields, st) && DecodeLoop(fields, bs, st).Done?
    requires r < PB_MAX_REQUIRED_FIELDS
    ensures r in DecodeLoop(fields, bs, st).value.seen
      <==> r in st.seen || Received(fields, RowsReceived(fields, bs, st), r)
    decreases |bs|
  {
    hide DecodeRecord, ReadTag, TableOk, Received, Find;
    if bs != [] && ReadTag(bs).Tag? {
      var t := ReadTag(bs);
      var p := DecodeRecord(fields, t.tag, t.wireType, t.rest, st);
      RecordSeen(fields, t.tag, t.wireType, t.rest, st);
      SeenIsReceived(fields, p.rest, p.value, r);
      var row := Find(fields, t.tag);
      var later := RowsReceived(fields, p.rest, p.value);
      ReceivedCons(fields, if row.Some? then [row.value] else [], later, r);
      ReceivedRow(fields, row, r);
    } else {
      ReceivedRow(fields, None, r);
    }
  }

  lemma ReceivedRow(fields: seq<Field>, row: Option<nat>, r: nat)
    requires row.Some? ==> row.value < |fields|
    ensures Received(fields, if row.Some? then [row.value] else [], r)
      <==> row.Some? && fields[row.value].htype.Required? && RequiredBefore(fields, row.value) == r
  {
    if row.Some? && fields[row.value].htype.Required? && RequiredBefore(fields, row.value) == r {
      assert [row.value][0] == row.value;
    }
  }

  lemma ReceivedCons(fields: seq<Field>, first: seq<nat>, later: seq<nat>, r: nat)
    requires |first| <= 1
    ensures Received(fields, first + later, r) <==> Received(fields, first, r) || Received(fields, later, r)
  {
    var all := first + later;
    if Received(fields, first, r) {
      assert all[0] == first[0];
    }
    if Received(fields, later, r) {
      var k :| 0 <= k < |later| &&
        later[k] < |fields| && fields[later[k]].htype.Required? && RequiredBefore(fields, later[k]) == r;
      assert all[|first| + k] == later[k];
    }
    if Received(fields, all, r) {
      var k :| 0 <= k < |all| &&
        all[k] < |fields| && fields[all[k]].htype.Required? && RequiredBefore(fields, all[k]) == r;
      if k >= |first| { assert later[k - |first|] == all[k]; } else { assert first[k] == all[k]; }
    }
  }

  /**
    * Once the loop ends with its fixed-count arrays complete, decoding succeeds exactly when each of
    * the first 64 required rows occurred in the input, however many required rows there are.
    */
  lemma RequiredRowsReceived(fields: seq<Field>, bs: seq<byte>, slots: seq<Slot>)
    requires TableOk(fields) && Fits(fields, slots) && DecodeLoop(fields, bs, Start(slots)).Done?
    requires FixedComplete(fields, DecodeLoop(fields, bs, Start(slots)).value)
    ensures DecodeNoinit(fields, bs, slots).Done? <==>
      forall i: nat :: !MissingRow(fields, RowsReceived(fields, bs, Start(slots)), i)
  {
    hide DecodeLoop, RowsReceived, TableOk;
    var st := DecodeLoop(fields, bs, Start(slots)).value;
    var rows := RowsReceived(fields, bs, Start(slots));
    forall i: nat | i < |fields| && fields[i].htype.Required? && RequiredBefore(fields, i) < PB_MAX_REQUIRED_FIELDS
      ensures MissingRow(fields, rows, i) <==> RequiredBefore(fields, i) !in st.seen
      ensures RequiredBefore(fields, i) < Tracked(fields)
    {
      SeenIsReceived(fields, bs, Start(slots), RequiredBefore(fields, i));
      RequiredBeforeMonotone(fields, i, |fields|);
      ReceivedIsMember(fields, rows, i);
    }
    if !Complete(fields, st) {
      var r: nat :| r < Tracked(fields) && r !in st.seen;
      var i := RequiredRow(fields, |fields|, r);
      assert MissingRow(fields, rows, i);
    }
  }

  /** Row i is a tracked required row that no record in the input was for. */
  predicate MissingRow(fields: seq<Field>, rows: seq<nat>, i: nat)
  {
    i < |fields| && fields[i].htype.Required? && RequiredBefore(fields, i) < 64 && i !in rows
  }

  lemma ReceivedIsMember(fields: seq<Field>, rows: seq<nat>, i: nat)
    requires i < |fields| && fields[i].htype.Required?
    ensures Received(fields, rows, RequiredBefore(fields, i)) <==> i in rows
  {
    if Received(fields, rows, RequiredBefore(fields, i)) {
      var k :| 0 <= k < |rows| && rows[k] < |fields| && fields[rows[k]].htype.Required?
        && RequiredBefore(fields, rows[k]) == RequiredBefore(fields, i);
      if rows[k] < i { RequiredBeforeMonotone(fields, rows[k], i); }
      if i < rows[k] { RequiredBeforeMonotone(fields, i, rows[k]); }
    }
  }

  // ---- fixed-count arrays ----

  /** How many elements a record holds: the scalars of a packed block, or one. */
  function ElementCount(f: Field, wireType: nat, bs: seq<byte>): nat
  {
    if wireType == WT_STRING && f.ltype.Packable() then
      match ReadBlock(bs)
      case Done(block, _) => ScalarCount(f, block)
      case Fail => 0
    else 1
  }

  function ScalarCount(f: Field, block: seq<byte>): nat
    requires f.ltype.Packable()
    decreases |block|
  {
    if block == [] then 0
    else
      match DecodeScalar(f, block)
      case Done(_, rest) => 1 + ScalarCount(f, rest)
      case Fail => 0
  }

  /** One entry per fixed-count element in the input: the row it belongs to. */
  function FixedReceived(fields: seq<Field>, bs: seq<byte>, st: State): (r: seq<nat>)
    requires TableOk(fields) && StateFits(fields, st)
    decreases |bs|
  {
    if bs == [] then []
    else
      match ReadTag(bs)
      case Tag(tag, wireType, rest) =>
        (match DecodeRecord(fields, tag, wireType, rest, st)
         case Done(st', rest') => FixedAdded(fields, tag, wireType, rest) + FixedReceived(fields, rest', st')
         case Fail => [])
      case _ => []
  }

  /** The fixed-count elements of one record. */
  function FixedAdded(fields: seq<Field>, tag: nat, wireType: nat, bs: seq<byte>): (r: seq<nat>)
  {
    match Find(fields, tag)
    case Some(i) => if fields[i].FixedCount() then Repeat(i, ElementCount(fields[i], wireType, bs)) else []
    case None => []
  }

  lemma {:induction false} PackedCount(f: Field, block: seq<byte>, e: Elements)
    requires f.ltype.Packable() && ElementsFit(f, e) && ReadPacked(f, block, e).Some?
    ensures ReadPacked(f, block, e).value.count == e.count + ScalarCount(f, block)
    decreases |block|
  {
    if block != [] {
      var p := DecodeScalar(f, block);
      PackedCount(f, p.rest, Elements(e.items[e.count := Num(p.value)], e.count + 1));
    }
  }

  /** The decoder counts exactly the elements of the record. */
  lemma ElementsCounted(f: Field, wireType: nat, bs: seq<byte>, e: Elements)
    requires FieldOk(f) && ElementsFit(f, e) && DecodeElements(f, wireType, bs, e).Done?
    ensures DecodeElements(f, wireType, bs, e).value.count == e.count + ElementCount(f, wireType, bs)
  {
    hide DecodeValue, ReadPacked, ScalarCount, ReadBlock;
    if wireType == WT_STRING && f.ltype.Packable() {
      PackedCount(f, ReadBlock(bs).value, e);
    }
  }

  function Repeat(x: nat, n: nat): (s: seq<nat>)
    ensures |s| == n && forall k | 0 <= k < n :: s[k] == x
  {
    seq(n, _ => x)
  }

  /** s[lo..hi] is a longest stretch of one row. */
  predicate MaximalRun(s: seq<nat>, lo: nat, hi: nat)
  {
    && lo < hi <= |s|
    && (forall k | lo <= k < hi :: s[k] == s[lo])
    && (lo > 0 ==> s[lo - 1] != s[lo])
    && (hi < |s| ==> s[hi] != s[lo])
  }

  /** Every longest stretch of one row has exactly that array's length. */
  ghost predicate FullRuns(fields: seq<Field>, s: seq<nat>)
  {
    forall lo: nat, hi: nat | MaximalRun(s, lo, hi) :: s[lo] < |fields| && hi - lo == fields[s[lo]].arraySize
  }

  /** All runs but the last are full, and the last one is what the state counts. */
  ghost predicate Tracks(fields: seq<Field>, s: seq<nat>, st: State)
    requires StateFits(fields, st)
  {
    match st.fixedRow
    case None => s == []
    case Some(row) =>
      && st.fixedSize <= |s|
      && (forall k | |s| - st.fixedSize <= k < |s| :: s[k] == row)
      && (st.fixedSize < |s| ==> s[|s| - st.fixedSize - 1] != row)
      && FullRuns(fields, s[..|s| - st.fixedSize])
  }

  lemma LastRunFull(fields: seq<Field>, s: seq<nat>, n: nat, row: nat)
    requires 0 < n <= |s| && row < |fields| && n == fields[row].arraySize
    requires forall k | |s| - n <= k < |s| :: s[k] == row
    requires n < |s| ==> s[|s| - n - 1] != row
    requires FullRuns(fields, s[..|s| - n])
    ensures FullRuns(fields, s)
  {
    var m := |s| - n;
    var p := s[..m];
    assert m == 0 || s[m] != s[m - 1];
    forall lo: nat, hi: nat | MaximalRun(s, lo, hi) ensures s[lo] < |fields| && hi - lo == fields[s[lo]].arraySize {
      if lo < m {
        assert MaximalRun(p, lo, hi);
      }
    }
  }

  lemma EnterTracks(fields: seq<Field>, s: seq<nat>, st: State, i: nat)
    requires TableOk(fields) && StateFits(fields, st) && Tracks(fields, s, st) && i < |fields|
    requires fields[i].FixedCount() && Enter(fields, st, i).Some?
    ensures Tracks(fields, s, Enter(fields, st, i).value)
  {
    if st.fixedRow != Some(i) {
      assert s[..|s|] == s;
      if st.fixedRow.Some? {
        var row := st.fixedRow.value;
        assert FieldOk(fields[row]);
        LastRunFull(fields, s, st.fixedSize, row);
      }
    }
  }

  lemma RecordFixed(fields: seq<Field>, tag: nat, wireType: nat, bs: seq<byte>, st: State)
    requires TableOk(fields) && StateFits(fields, st) && DecodeRecord(fields, tag, wireType, bs, st).Done?
    ensures var st' := DecodeRecord(fields, tag, wireType, bs, st).value;
      match Find(fields, tag)
      case None => st' == st
      case Some(i) =>
        if fields[i].FixedCount() then
          && Enter(fields, st, i).Some? && st'.fixedRow == Some(i)
          && st'.fixedSize == Enter(fields, st, i).value.fixedSize + ElementCount(fields[i], wireType, bs)
        else st'.fixedRow == st.fixedRow && st'.fixedSize == st.fixedSize
  {
    hide DecodeValue, DecodeElements, TableOk, Put, Skip, Find, ElementCount;
    if Find(fields, tag).Some? {
      var i := Find(fields, tag).value;
      TableRow(fields, i);
      if fields[i].FixedCount() {
        ElementsCounted(fields[i], wireType, bs, ArrayAt(fields, Enter(fields, st, i).value, i));
      }
    }
  }

  lemma RecordTracks(fields: seq<Field>, s: seq<nat>, tag: nat, wireType: nat, bs: seq<byte>, st: State)
    requires TableOk(fields) && StateFits(fields, st) && Tracks(fields, s, st)
    requires DecodeRecord(fields, tag, wireType, bs, st).Done?
    ensures var st' := DecodeRecord(fields, tag, wireType, bs, st).value;
      Tracks(fields, s + FixedAdded(fields, tag, wireType, bs), st')
  {
    hide DecodeRecord, Enter, FullRuns, ElementCount;
    RecordFixed(fields, tag, wireType, bs, st);
    var st' := DecodeRecord(fields, tag, wireType, bs, st).value;
    var row := Find(fields, tag);
    if row.Some? && fields[row.value].FixedCount() {
      EnterTracks(fields, s, st, row.value);
      var entered := Enter(fields, st, row.value).value;
      var t := s + FixedAdded(fields, tag, wireType, bs);
      assert t[..|t| - st'.fixedSize] == s[..|s| - entered.fixedSize];
    } else {
      assert s + [] == s;
    }
  }

  lemma {:induction false} LoopTracks(fields: seq<Field>, s: seq<nat>, bs: seq<byte>, st: State)
    requires TableOk(fields) && StateFits(fields, st) && Tracks(fields, s, st) && DecodeLoop(fields, bs, st).Done?
    ensures Tracks(fields, s + FixedReceived(fields, bs, st), DecodeLoop(fields, bs, st).value)
    decreases |bs|
  {
    hide DecodeRecord, ReadTag, Tracks, FixedAdded;
    if bs == [] || !ReadTag(bs).Tag? {
      assert s + [] == s;
    } else {
      var t := ReadTag(bs);
      var p := DecodeRecord(fields, t.tag, t.wireType, t.rest, st);
      var added := FixedAdded(fields, t.tag, t.wireType, t.rest);
      RecordTracks(fields, s, t.tag, t.wireType, t.rest, st);
      LoopTracks(fields, s + added, p.rest, p.value);
      assert s + added + FixedReceived(fields, p.rest, p.value) == s + (added + FixedReceived(fields, p.rest, p.value));
    }
  }

  /**
    * If decoding succeeds, then in the sequence of fixed-count elements in the input every maximal run
    * of one field has exactly array_size elements.
    */
  lemma FixedCountRuns(fields: seq<Field>, bs: seq<byte>, slots: seq<Slot>)
    requires TableOk(fields) && Fits(fields, slots) && DecodeNoinit(fields, bs, slots).Done?
    ensures FullRuns(fields, FixedReceived(fields, bs, Start(slots)))
  {
    hide DecodeLoop, FixedReceived;
    LoopTracks(fields, [], bs, Start(slots));
    var s := FixedReceived(fields, bs, Start(slots));
    var st := DecodeLoop(fields, bs, Start(slots)).value;
    assert [] + s == s;
    if st.fixedRow.Some? {
      assert FieldOk(fields[st.fixedRow.value]);
      LastRunFull(fields, s, st.fixedSize, st.fixedRow.value);
    }
  }
}
