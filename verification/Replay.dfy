/** The sliding-window replay filter (pkg/crypto/replay.go). */
module Replay {
  import opened Bits

  const WINDOW_SIZE_BITS: nat := 1024
  const WINDOW_WORDS: nat := 16

  /** Go's uint64: a word of the bitmap, and a sequence counter. */
  type Word = w: nat | w < 0x1_0000_0000_0000_0000
  type Counter = c: nat | c < 0x1_0000_0000_0000_0000

  // ---- what the filter is for: the set of counters accepted so far -------------------

  ghost predicate IsHighest(accepted: set<Counter>, m: Counter) {
    m in accepted && forall c :: c in accepted ==> c <= m
  }

  ghost function Highest(accepted: set<Counter>): (m: Counter)
    requires accepted != {}
    ensures IsHighest(accepted, m)
  {
    var x :| x in accepted;
    if accepted == {x} then x
    else
      var m := Highest(accepted - {x});
      assert forall c :: c in accepted ==> c == x || c in accepted - {x};
      if m < x then x else m
  }

  /** The filter's promise: new, and not 1024 or more behind the highest accepted counter. */
  ghost predicate Admits(accepted: set<Counter>, counter: Counter) {
    || accepted == {}
    || counter > Highest(accepted)
    || (counter !in accepted && Highest(accepted) - counter < WINDOW_SIZE_BITS)
  }

  /** That is: new, and with no accepted counter 1024 or more above it. */
  lemma AdmitsExactly(accepted: set<Counter>, counter: Counter)
    ensures Admits(accepted, counter) <==> counter !in accepted && forall c :: c in accepted ==> c - counter < 1024
  {
    if accepted != {} {
      assert IsHighest(accepted, Highest(accepted));
    }
  }

  // ---- the sixteen-word bitmap ---------------------------------------------------------

  /** Bit d of the bitmap: d / 64 selects the word, d % 64 the bit in it. */
  predicate BitmapBit(words: seq<Word>, d: nat)
    requires |words| == WINDOW_WORDS && d < WINDOW_SIZE_BITS
  {
    Bit(words[d / 64], d % 64)
  }

  /** The representation: bit d stands for the counter maxSeq - d. */
  ghost predicate Represents(maxSeq: Counter, words: seq<Word>, accepted: set<Counter>) {
    && |words| == WINDOW_WORDS
    && (accepted == {} ==> maxSeq == 0 && forall k :: 0 <= k < WINDOW_WORDS ==> words[k] == 0)
    && (accepted != {} ==> IsHighest(accepted, maxSeq))
    && (forall d :: 0 <= d < WINDOW_SIZE_BITS ==>
          (BitmapBit(words, d) <==> d <= maxSeq && maxSeq - d in accepted))
  }

  /** The test for "no packet yet" reads one word; it is exact. */
  lemma FreshTestIsExact(maxSeq: Counter, words: seq<Word>, accepted: set<Counter>)
    requires Represents(maxSeq, words, accepted)
    ensures maxSeq == 0 && words[0] == 0 <==> accepted == {}
  {
    if accepted != {} && words[0] == 0 {
      assert BitmapBit(words, 0);
      BitOfZero(0);
    }
  }

  lemma HighestIs(maxSeq: Counter, words: seq<Word>, accepted: set<Counter>)
    requires Represents(maxSeq, words, accepted) && accepted != {}
    ensures Highest(accepted) == maxSeq
  {}

  // ---- shifting the bitmap ----------------------------------------------------------------

  predicate MovedUp(before: seq<Word>, after: seq<Word>, n: nat)
    requires |before| == WINDOW_WORDS && |after| == WINDOW_WORDS
  {
    forall d :: 0 <= d < WINDOW_SIZE_BITS ==>
      (BitmapBit(after, d) <==> n <= d && BitmapBit(before, d - n))
  }

  /** Word k after the carry loop: its own bits shifted, and the top bits of the word below. */
  function Carried(words: seq<Word>, k: nat, s: nat): (w: Word)
    requires k < |words| && 0 < s < 64
  {
    var below := if k == 0 then 0 else ShiftRight(words[k - 1], 64 - s);
    CarriedInRange(words[k], if k == 0 then 0 else words[k - 1], s);
    Or(ShiftLeft(words[k], s, 64), below)
  }

  lemma CarriedInRange(w: Word, below: Word, s: nat)
    requires 0 < s < 64
    ensures Or(ShiftLeft(w, s, 64), ShiftRight(below, 64 - s)) < 0x1_0000_0000_0000_0000
    ensures ShiftRight(below, 64 - s) < 0x1_0000_0000_0000_0000
    ensures ShiftLeft(w, s, 64) < 0x1_0000_0000_0000_0000
    ensures Or(ShiftLeft(w, s, 64), 0) < 0x1_0000_0000_0000_0000
  {
    Pow2Values();
    ShiftRightInRange(below, 64 - s, 64);
    OrInRange(ShiftLeft(w, s, 64), ShiftRight(below, 64 - s), 64);
    OrInRange(ShiftLeft(w, s, 64), 0, 64);
  }

  lemma CarriedBit(words: seq<Word>, k: nat, s: nat, i: nat)
    requires |words| == WINDOW_WORDS && k < WINDOW_WORDS && 0 < s < 64 && i < 64
    ensures Bit(Carried(words, k, s), i)
       <==> s <= 64 * k + i && BitmapBit(words, 64 * k + i - s)
  {
    var below := if k == 0 then 0 else ShiftRight(words[k - 1], 64 - s);
    BitOfOr(ShiftLeft(words[k], s, 64), below, i);
    BitOfShiftLeft(words[k], s, 64, i);
    if s <= i {
      BitmapBitAt(words, k, i - s);
      NothingCarriedAbove(if k == 0 then 0 else words[k - 1], s, i);
    } else if k == 0 {
      BitOfZero(i);
    } else {
      BitmapBitAt(words, k - 1, 64 - s + i);
      BitOfShiftRight(words[k - 1], 64 - s, i);
    }
  }

  lemma BitmapBitAt(words: seq<Word>, k: nat, i: nat)
    requires |words| == WINDOW_WORDS && k < WINDOW_WORDS && i < 64
    ensures BitmapBit(words, 64 * k + i) == Bit(words[k], i)
  {
    assert (64 * k + i) / 64 == k && (64 * k + i) % 64 == i;
  }

  /** Only the lowest s bits of a word can hold bits carried from the word below. */
  lemma NothingCarriedAbove(below: Word, s: nat, i: nat)
    requires 0 < s <= i
    ensures s < 64 ==> !Bit(ShiftRight(below, 64 - s), i)
    ensures !Bit(0, i)
  {
    BitOfZero(i);
    if s < 64 {
      BitOfShiftRight(below, 64 - s, i);
      Pow2Values();
      NoHighBit(below, 64, 64 - s + i);
    }
  }

  /** The carry loop moves every bit of the bitmap up by s, across word boundaries. */
  lemma CarryLoopMovesUp(before: seq<Word>, after: seq<Word>, s: nat)
    requires |before| == WINDOW_WORDS && |after| == WINDOW_WORDS && 0 < s < 64
    requires forall k :: 0 <= k < WINDOW_WORDS ==> after[k] == Carried(before, k, s)
    ensures MovedUp(before, after, s)
  {
    forall d | 0 <= d < WINDOW_SIZE_BITS
      ensures BitmapBit(after, d) <==> s <= d && BitmapBit(before, d - s)
    {
      CarriedBit(before, d / 64, s, d % 64);
    }
  }

  /** The word loops move every bit up by 64 bits a word. */
  lemma WordLoopsMoveUp(before: seq<Word>, after: seq<Word>, k: nat)
    requires |before| == WINDOW_WORDS && |after| == WINDOW_WORDS && k < WINDOW_WORDS
    requires forall j :: 0 <= j < WINDOW_WORDS ==> after[j] == if j < k then 0 else before[j - k]
    ensures MovedUp(before, after, 64 * k)
  {
    forall d | 0 <= d < WINDOW_SIZE_BITS
      ensures BitmapBit(after, d) <==> 64 * k <= d && BitmapBit(before, d - 64 * k)
    {
      BitOfZero(d % 64);
      if 64 * k <= d {
        assert (d - 64 * k) / 64 == d / 64 - k && (d - 64 * k) % 64 == d % 64;
      }
    }
  }

  lemma MovesAdd(a: seq<Word>, b: seq<Word>, c: seq<Word>, m: nat, n: nat, total: nat)
    requires |a| == WINDOW_WORDS && |b| == WINDOW_WORDS && |c| == WINDOW_WORDS
    requires MovedUp(a, b, m) && MovedUp(b, c, n) && total == m + n
    ensures MovedUp(a, c, total)
  {
    forall d | 0 <= d < WINDOW_SIZE_BITS
      ensures BitmapBit(c, d) <==> total <= d && BitmapBit(a, d - total)
    {
      if n <= d {
        assert BitmapBit(b, d - n) <==> m <= d - n && BitmapBit(a, d - n - m);
      }
    }
  }

  // ---- each update of the bitmap keeps the representation -------------------------------------

  lemma AllZeroHasNoBit(words: seq<Word>, d: nat)
    requires |words| == WINDOW_WORDS && d < WINDOW_SIZE_BITS
    requires forall k :: 0 <= k < WINDOW_WORDS ==> words[k] == 0
    ensures !BitmapBit(words, d)
  {
    BitOfZero(d % 64);
  }

  lemma ClearingMovesUp(before: seq<Word>, after: seq<Word>, n: nat)
    requires |before| == WINDOW_WORDS && |after| == WINDOW_WORDS && n >= WINDOW_SIZE_BITS
    requires forall k :: 0 <= k < WINDOW_WORDS ==> after[k] == 0
    ensures MovedUp(before, after, n)
  {
    forall d | 0 <= d < WINDOW_SIZE_BITS
      ensures !BitmapBit(after, d)
    {
      AllZeroHasNoBit(after, d);
    }
  }

  predicate SetsBit(before: seq<Word>, after: seq<Word>, b: nat)
    requires |before| == WINDOW_WORDS && |after| == WINDOW_WORDS && b < WINDOW_SIZE_BITS
  {
    forall d :: 0 <= d < WINDOW_SIZE_BITS ==> (BitmapBit(after, d) <==> d == b || BitmapBit(before, d))
  }

  lemma OrMaskSetsBit(before: seq<Word>, b: nat)
    requires |before| == WINDOW_WORDS && b < WINDOW_SIZE_BITS
    ensures Or(before[b / 64], Pow2(b % 64)) < 0x1_0000_0000_0000_0000
    ensures SetsBit(before, before[b / 64 := Or(before[b / 64], Pow2(b % 64))], b)
  {
    var w, m := before[b / 64], Pow2(b % 64);
    Pow2Values();
    Pow2Grows(b % 64, 64);
    OrInRange(w, m, 64);
    var after := before[b / 64 := Or(w, m)];
    forall d | 0 <= d < WINDOW_SIZE_BITS
      ensures BitmapBit(after, d) <==> d == b || BitmapBit(before, d)
    {
      BitOfOr(w, m, d % 64);
      BitOfPow2(b % 64, d % 64);
    }
  }

  lemma {:induction false} Pow2Grows(i: nat, n: nat)
    requires i < n
    ensures Pow2(i) < Pow2(n)
  {
    if i < n - 1 {
      Pow2Grows(i, n - 1);
    }
  }

  /** A newer counter: the bitmap moved up by the distance, bit 0 set. */
  lemma NewerIsRepresented(maxSeq: Counter, words: seq<Word>, moved: seq<Word>, after: seq<Word>,
                           accepted: set<Counter>, counter: Counter)
    requires Represents(maxSeq, words, accepted) && accepted != {} && counter > maxSeq
    requires |moved| == WINDOW_WORDS && |after| == WINDOW_WORDS
    requires MovedUp(words, moved, counter - maxSeq) && SetsBit(moved, after, 0)
    ensures Represents(counter, after, accepted + {counter})
  {
    forall d | 0 <= d < WINDOW_SIZE_BITS
      ensures BitmapBit(after, d) <==> d <= counter && counter - d in accepted + {counter}
    {
      if d >= counter - maxSeq {
        assert BitmapBit(words, d - (counter - maxSeq))
          <==> d - (counter - maxSeq) <= maxSeq && maxSeq - (d - (counter - maxSeq)) in accepted;
      }
    }
  }

  /** A late counter inside the window: one bit set. */
  lemma LateIsRepresented(maxSeq: Counter, words: seq<Word>, after: seq<Word>,
                          accepted: set<Counter>, counter: Counter)
    requires Represents(maxSeq, words, accepted) && accepted != {}
    requires counter <= maxSeq && maxSeq - counter < WINDOW_SIZE_BITS
    requires |after| == WINDOW_WORDS && SetsBit(words, after, maxSeq - counter)
    ensures Represents(maxSeq, after, accepted + {counter})
  {
    forall d | 0 <= d < WINDOW_SIZE_BITS
      ensures BitmapBit(after, d) <==> d <= maxSeq && maxSeq - d in accepted + {counter}
    {
      assert BitmapBit(words, d) <==> d <= maxSeq && maxSeq - d in accepted;
    }
  }

  /** The first counter of a window: only bit 0 set. */
  lemma FirstIsRepresented(words: seq<Word>, after: seq<Word>, counter: Counter)
    requires |words| == WINDOW_WORDS && |after| == WINDOW_WORDS
    requires forall k :: 0 <= k < WINDOW_WORDS ==> words[k] == 0
    requires SetsBit(words, after, 0)
    ensures Represents(counter, after, {counter})
  {
    forall d | 0 <= d < WINDOW_SIZE_BITS
      ensures BitmapBit(after, d) <==> d <= counter && counter - d in {counter}
    {
      AllZeroHasNoBit(words, d);
    }
  }

  class AntiReplayWindow {
    var maxSeq: Counter
    const bitmap: array<Word>
    /** The counters accepted since creation or the last Reset. */
    ghost var accepted: set<Counter>

    ghost predicate Valid()
      reads this, bitmap
    {
      bitmap.Length == WINDOW_WORDS && Represents(maxSeq, bitmap[..], accepted)
    }

    constructor ()
      ensures Valid() && fresh(bitmap) && accepted == {}
    {
      maxSeq := 0;
      bitmap := new Word[WINDOW_WORDS](_ => 0);
      accepted := {};
      new;
      forall d | 0 <= d < WINDOW_SIZE_BITS
        ensures !BitmapBit(bitmap[..], d)
      {
        AllZeroHasNoBit(bitmap[..], d);
      }
    }

    method Check(counter: Counter) returns (ok: bool)
      requires Valid()
      ensures ok <==> Admits(accepted, counter)
      ensures ok <==> counter !in accepted && forall c :: c in accepted ==> c - counter < 1024
    {
      AdmitsExactly(accepted, counter);
      FreshTestIsExact(maxSeq, bitmap[..], accepted);
      if maxSeq == 0 && bitmap[0] == 0 {
        return true;
      }
      HighestIs(maxSeq, bitmap[..], accepted);
      if counter > maxSeq {
        return true;
      }
      var diff := maxSeq - counter;
      if diff >= WINDOW_SIZE_BITS {
        return false;
      }
      var wordIdx, bitIdx := diff / 64, diff % 64;
      AndMask(bitmap[wordIdx], bitIdx);
      assert BitmapBit(bitmap[..], diff) <==> maxSeq - diff in accepted;
      ok := And(bitmap[wordIdx], Pow2(bitIdx)) == 0;
    }

    method CheckAndAdd(counter: Counter) returns (ok: bool)
      requires Valid()
      modifies this, bitmap
      ensures Valid()
      ensures ok <==> Admits(old(accepted), counter)
      ensures ok <==> counter !in old(accepted) && forall c :: c in old(accepted) ==> c - counter < 1024
      ensures accepted == if ok then old(accepted) + {counter} else old(accepted)
    {
      ghost var words := bitmap[..];
      AdmitsExactly(accepted, counter);
      FreshTestIsExact(maxSeq, words, accepted);
      if maxSeq == 0 && bitmap[0] == 0 {
        OrMaskSetsBit(words, 0);
        maxSeq := counter;
        bitmap[0] := Or(bitmap[0], 1);
        accepted := {counter};
        assert bitmap[..] == words[0 := Or(words[0], Pow2(0))];
        FirstIsRepresented(words, bitmap[..], counter);
        return true;
      }
      HighestIs(maxSeq, words, accepted);
      if counter > maxSeq {
        var diff := counter - maxSeq;
        if diff >= WINDOW_SIZE_BITS {
          ClearBitmap();
          ClearingMovesUp(words, bitmap[..], diff);
        } else {
          ShiftUp(diff);
        }
        ghost var moved := bitmap[..];
        assert MovedUp(words, moved, diff);
        OrMaskSetsBit(moved, 0);
        maxSeq := counter;
        bitmap[0] := Or(bitmap[0], 1);
        accepted := accepted + {counter};
        assert bitmap[..] == moved[0 := Or(moved[0], Pow2(0))];
        NewerIsRepresented(old(maxSeq), words, moved, bitmap[..], old(accepted), counter);
        return true;
      }
      var diff := maxSeq - counter;
      if diff >= WINDOW_SIZE_BITS {
        return false;
      }
      var wordIdx, bitIdx := diff / 64, diff % 64;
      AndMask(bitmap[wordIdx], bitIdx);
      assert BitmapBit(words, diff) <==> maxSeq - diff in accepted;
      if And(bitmap[wordIdx], Pow2(bitIdx)) != 0 {
        return false;
      }
      OrMaskSetsBit(words, diff);
      bitmap[wordIdx] := Or(bitmap[wordIdx], Pow2(bitIdx));
      accepted := accepted + {counter};
      assert bitmap[..] == words[wordIdx := Or(words[wordIdx], Pow2(bitIdx))];
      LateIsRepresented(maxSeq, words, bitmap[..], old(accepted), counter);
      return true;
    }

    /** shiftRight of the source: older counters move to higher bits. */
    method ShiftUp(n: nat)
      requires bitmap.Length == WINDOW_WORDS
      modifies bitmap
      ensures MovedUp(old(bitmap[..]), bitmap[..], n)
    {
      ghost var words := bitmap[..];
      var wordShift, bitShift := n / 64, n % 64;
      if wordShift >= WINDOW_WORDS {
        ClearBitmap();
        ClearingMovesUp(words, bitmap[..], n);
        return;
      }
      ShiftWords(wordShift);
      ghost var mid := bitmap[..];
      ShiftBits(bitShift);
      MovesAdd(words, mid, bitmap[..], 64 * wordShift, bitShift, n);
    }

    /** The carry loop of shiftRight. */
    method ShiftBits(bitShift: nat)
      requires bitmap.Length == WINDOW_WORDS && bitShift < 64
      modifies bitmap
      ensures MovedUp(old(bitmap[..]), bitmap[..], bitShift)
    {
      if bitShift == 0 {
        return;
      }
      ghost var words := bitmap[..];
      var carry: Word := 0;
      for i := 0 to WINDOW_WORDS
        invariant carry == if i == 0 then 0 else ShiftRight(words[i - 1], 64 - bitShift)
        invariant forall k :: 0 <= k < i ==> bitmap[k] == Carried(words, k, bitShift)
        invariant forall k :: i <= k < WINDOW_WORDS ==> bitmap[k] == words[k]
      {
        CarriedInRange(words[i], words[i], bitShift);
        var newCarry := ShiftRight(bitmap[i], 64 - bitShift);
        var shifted := Or(ShiftLeft(bitmap[i], bitShift, 64), carry);
        assert shifted == Carried(words, i, bitShift);
        bitmap[i] := shifted;
        carry := newCarry;
      }
      CarryLoopMovesUp(words, bitmap[..], bitShift);
    }

    /** The two word loops of shiftRight. */
    method ShiftWords(wordShift: nat)
      requires bitmap.Length == WINDOW_WORDS && wordShift < WINDOW_WORDS
      modifies bitmap
      ensures MovedUp(old(bitmap[..]), bitmap[..], 64 * wordShift)
    {
      if wordShift == 0 {
        return;
      }
      var i := WINDOW_WORDS - 1;
      while i >= wordShift
        invariant wordShift - 1 <= i < WINDOW_WORDS
        invariant forall j :: 0 <= j <= i ==> bitmap[j] == old(bitmap[j])
        invariant forall j :: i < j < WINDOW_WORDS ==> bitmap[j] == old(bitmap[j - wordShift])
      {
        bitmap[i] := bitmap[i - wordShift];
        i := i - 1;
      }
      for k := 0 to wordShift
        invariant forall j :: 0 <= j < k ==> bitmap[j] == 0
        invariant forall j :: wordShift <= j < WINDOW_WORDS ==> bitmap[j] == old(bitmap[j - wordShift])
      {
        bitmap[k] := 0;
      }
      WordLoopsMoveUp(old(bitmap[..]), bitmap[..], wordShift);
    }

    method ClearBitmap()
      requires bitmap.Length == WINDOW_WORDS
      modifies bitmap
      ensures forall k :: 0 <= k < WINDOW_WORDS ==> bitmap[k] == 0
    {
      for i := 0 to WINDOW_WORDS
        invariant forall k :: 0 <= k < i ==> bitmap[k] == 0
      {
        bitmap[i] := 0;
      }
    }

    method Reset()
      requires Valid()
      modifies this, bitmap
      ensures Valid() && accepted == {}
    {
      maxSeq := 0;
      ClearBitmap();
      accepted := {};
      forall d | 0 <= d < WINDOW_SIZE_BITS
        ensures !BitmapBit(bitmap[..], d)
      {
        AllZeroHasNoBit(bitmap[..], d);
      }
    }
  }
}
