// fields_seen of pb_decode_noinit: one bit per tracked required field, in 32-bit words.
module RequiredBitmap {
  import opened Bits
  import opened Varints
  import opened Fields

  /** (PB_MAX_REQUIRED_FIELDS + 31) / 32 */
  const WORDS: nat := 2
  const ALL_BITS: nat := 0xFFFF_FFFF

  predicate IsBitmap(words: seq<nat>)
  {
    |words| == WORDS && forall k | 0 <= k < WORDS :: words[k] < TWO_32
  }

  predicate Marked(words: seq<nat>, r: nat)
    requires IsBitmap(words) && r < PB_MAX_REQUIRED_FIELDS
  {
    Bit(words[r / 32], r % 32)
  }

  /** Every index below count is marked. */
  predicate MarkedBelow(words: seq<nat>, count: nat)
    requires IsBitmap(words) && count <= PB_MAX_REQUIRED_FIELDS
  {
    forall r: nat | r < count :: Marked(words, r)
  }

  /** fields_seen[r >> 5] |= 1 << (r & 31) adds r and nothing else. */
  method Mark(seen: array<nat>, r: nat)
    requires IsBitmap(seen[..]) && r < PB_MAX_REQUIRED_FIELDS
    modifies seen
    ensures IsBitmap(seen[..])
    ensures forall k: nat | k < PB_MAX_REQUIRED_FIELDS ::
      Marked(seen[..], k) <==> k == r || Marked(old(seen[..]), k)
  {
    MarkAdds(seen[..], r);
    ghost var was := seen[..];
    seen[r / 32] := BitOr(seen[r / 32], Pow2(r % 32));
    assert seen[..] == WithMark(was, r);
  }

  function WithMark(words: seq<nat>, r: nat): seq<nat>
    requires IsBitmap(words) && r < PB_MAX_REQUIRED_FIELDS
  {
    words[r / 32 := BitOr(words[r / 32], Pow2(r % 32))]
  }

  lemma MarkAdds(words: seq<nat>, r: nat)
    requires IsBitmap(words) && r < PB_MAX_REQUIRED_FIELDS
    ensures IsBitmap(WithMark(words, r))
    ensures forall k: nat | k < PB_MAX_REQUIRED_FIELDS ::
      Marked(WithMark(words, r), k) <==> k == r || Marked(words, k)
  {
    Pow2Values();
    Pow2Monotone(r % 32 + 1, 32);
    BitOrWidth(words[r / 32], Pow2(r % 32), 32);
    forall k: nat | k < PB_MAX_REQUIRED_FIELDS
      ensures Marked(WithMark(words, r), k) <==> k == r || Marked(words, k)
    {
      BitOfOr(words[r / 32], Pow2(r % 32), k % 32);
      BitOfPow2(r % 32, k % 32);
    }
  }

  predicate LowBitsSet(w: nat, n: nat)
  {
    forall k: nat | k < n :: Bit(w, k)
  }

  /** A word equals the mask of its n low bits exactly when those bits are set, if no other bit is. */
  lemma WordFull(w: nat, n: nat)
    requires 0 < n <= 32 && w < TWO_32
    requires forall k: nat | n <= k < 32 :: !Bit(w, k)
    ensures w == ShiftRight(ALL_BITS, 32 - n) <==> LowBitsSet(w, n)
  {
    Pow2Values();
    ShiftedMask(32, 32 - n);
    assert w == ShiftRight(ALL_BITS, 32 - n) <==> w == Pow2(n) - 1;
    LowMask(w, n, 32);
  }

  /** The whole-word and remaining-bits checks together ask for set inclusion, for every count. */
  method AllMarked(seen: array<nat>, count: nat) returns (ok: bool)
    requires IsBitmap(seen[..]) && count <= PB_MAX_REQUIRED_FIELDS
    requires forall k: nat | count <= k < PB_MAX_REQUIRED_FIELDS :: !Marked(seen[..], k)
    ensures ok <==> MarkedBelow(seen[..], count)
  {
    if count > 0 {
      var i := 0;
      while i < count / 32
        invariant 0 <= i <= count / 32
        invariant forall k: nat | k < 32 * i :: Marked(seen[..], k)
      {
        WordMarks(seen[..], i, 32);
        if seen[i] != ALL_BITS {
          return false;
        }
        i := i + 1;
      }
      if count % 32 != 0 {
        WordMarks(seen[..], count / 32, count % 32);
        if seen[count / 32] != ShiftRight(ALL_BITS, 32 - count % 32) {
          return false;
        }
      }
    }
    return true;
  }

  lemma FullWord()
    ensures ShiftRight(ALL_BITS, 0) == ALL_BITS
  {
  }

  /** The n low bits of word i are the marks 32 * i to 32 * i + n - 1. */
  lemma WordMarks(words: seq<nat>, i: nat, n: nat)
    requires IsBitmap(words) && i < WORDS && 0 < n <= 32
    requires forall k: nat | 32 * i + n <= k < 32 * (i + 1) :: !Marked(words, k)
    ensures words[i] == ShiftRight(ALL_BITS, 32 - n) <==> forall k: nat | 32 * i <= k < 32 * i + n :: Marked(words, k)
    ensures n == 32 ==> ShiftRight(ALL_BITS, 32 - n) == ALL_BITS
  {
    hide Bit, ShiftRight;
    assert ShiftRight(ALL_BITS, 0) == ALL_BITS by { FullWord(); }
    var w := words[i];
    forall k: nat | n <= k < 32 ensures !Bit(w, k) {
      assert !Marked(words, 32 * i + k);
    }
    WordFull(w, n);
    if LowBitsSet(w, n) {
      forall k: nat | 32 * i <= k < 32 * i + n ensures Marked(words, k) {
        assert Bit(w, k - 32 * i);
      }
    } else {
      var k: nat :| k < n && !Bit(w, k);
      assert !Marked(words, 32 * i + k);
    }
  }
}
