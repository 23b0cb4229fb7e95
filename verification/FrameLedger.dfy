/**
 Sequence accounting in the main loop of src/giga_spi_8adc/motor_controller.c:
 a 32-bit frame counter compared through a signed 32-bit difference, and a baseline that
 a reopened bus drops.
 */
module FrameLedger {

  const WRAP: nat := 0x1_0000_0000
  const HALF: nat := 0x8000_0000

  datatype Ledger = Ledger(haveLast: bool, lastSeq: nat, framesOk: nat, seqDrops: nat, duplicates: nat, resets: nat)

  const EMPTY: Ledger := Ledger(false, 0, 0, 0, 0, 0)

  /** `(int32_t)(a - b)` of two uint32_t values. */
  function Difference(a: nat, b: nat): int {
    var d := (a - b) % WRAP;
    if d < HALF then d else d - WRAP
  }

  predicate Publishes(l: Ledger, seqNo: nat) {
    l.haveLast ==> Difference(seqNo, l.lastSeq) != 0
  }

  /** The ledger after one validated frame. */
  function Next(l: Ledger, seqNo: nat): Ledger {
    if !l.haveLast then l.(haveLast := true, lastSeq := seqNo, framesOk := l.framesOk + 1)
    else
      var diff := Difference(seqNo, l.lastSeq);
      if diff == 0 then l.(duplicates := l.duplicates + 1)
      else if diff == 1 then l.(lastSeq := seqNo, framesOk := l.framesOk + 1)
      else if diff > 1 then l.(seqDrops := l.seqDrops + (diff - 1), lastSeq := seqNo, framesOk := l.framesOk + 1)
      else l.(resets := l.resets + 1, lastSeq := seqNo, framesOk := l.framesOk + 1)
  }

  /** A reopened bus: the next frame only sets the baseline anew. */
  function Reopened(l: Ledger): Ledger {
    l.(haveLast := false)
  }

  /** The controller's variables, updated in place. */
  class Accounts {
    var haveLast: bool
    var lastSeq: nat
    var framesOk: nat
    var seqDrops: nat
    var duplicates: nat
    var resets: nat

    ghost function Value(): Ledger
      reads this
    {
      Ledger(haveLast, lastSeq, framesOk, seqDrops, duplicates, resets)
    }

    constructor ()
      ensures Value() == EMPTY
    {
      haveLast, lastSeq, framesOk, seqDrops, duplicates, resets := false, 0, 0, 0, 0, 0;
    }

    /** What a reload does to the accounting when the bus is reopened. */
    method Reopen()
      modifies this
      ensures Value() == Reopened(old(Value()))
    {
      haveLast := false;
    }

    /** What the loop does with one validated frame; `publish` says whether it goes to the ring. */
    method Account(seqNo: nat) returns (publish: bool)
      modifies this
      ensures Value() == Next(old(Value()), seqNo)
      ensures publish == Publishes(old(Value()), seqNo)
    {
      publish := true;
      if !haveLast {
        haveLast := true;
        lastSeq := seqNo;
      } else {
        var diff := Difference(seqNo, lastSeq);
        if diff == 0 {
          duplicates := duplicates + 1;
          publish := false;
        } else if diff == 1 {
          lastSeq := seqNo;
        } else if diff > 1 {
          seqDrops := seqDrops + (diff - 1);
          lastSeq := seqNo;
        } else {
          resets := resets + 1;
          lastSeq := seqNo;
        }
      }
      if publish {
        framesOk := framesOk + 1;
      }
    }
  }

  // ---- between two reopenings ---------------------------------------------------------

  /** The ledger l after frames whose true, unbounded counters are `counters`. */
  function Received(l: Ledger, counters: seq<nat>): Ledger
    decreases |counters|
  {
    if counters == [] then l
    else Next(Received(l, counters[..|counters| - 1]), counters[|counters| - 1] % WRAP)
  }

  predicate NeverDecreases(counters: seq<nat>) {
    forall i :: 0 < i < |counters| ==> counters[i - 1] <= counters[i]
  }

  predicate GapsBelowHalf(counters: seq<nat>) {
    forall i :: 0 < i < |counters| ==> counters[i] - counters[i - 1] < HALF
  }

  function Repeats(counters: seq<nat>): nat
    decreases |counters|
  {
    if |counters| <= 1 then 0
    else
      var n := |counters|;
      Repeats(counters[..n - 1]) + (if counters[n - 1] == counters[n - 2] then 1 else 0)
  }

  lemma ResidueDifference(a: nat, b: nat)
    ensures (a % WRAP - b % WRAP) % WRAP == (a - b) % WRAP
  {
    var qa, qb := a / WRAP, b / WRAP;
    assert a - b == (a % WRAP - b % WRAP) + (qa - qb) * WRAP;
    AddMultiple(a % WRAP - b % WRAP, qa - qb);
  }

  lemma AddMultiple(x: int, q: int)
    ensures (x + q * WRAP) % WRAP == x % WRAP
  {
  }

  /** The difference is the true gap exactly when the gap is below half the counter's range. */
  lemma DifferenceOfGap(a: nat, b: nat)
    requires b <= a
    ensures var d := Difference(a % WRAP, b % WRAP);
            && (a - b < HALF <==> d == a - b)
            && d <= a - b
  {
    ResidueDifference(a, b);
    var g := a - b;
    assert g == WRAP * (g / WRAP) + g % WRAP;
  }

  /** One frame moves the ledger by its gap, or by less if the gap is too wide. */
  lemma LedgerStep(l: Ledger, prev: nat, next: nat)
    requires l.haveLast && l.lastSeq == prev % WRAP && prev <= next
    ensures var l' := Next(l, next % WRAP);
            && l'.haveLast && l'.lastSeq == next % WRAP
            && l'.framesOk + l'.seqDrops <= l.framesOk + l.seqDrops + (next - prev)
            && (next - prev < HALF <==> l'.framesOk + l'.seqDrops == l.framesOk + l.seqDrops + (next - prev))
            && (next - prev < HALF ==> l'.resets == l.resets)
            && (next - prev < HALF ==> l'.duplicates == l.duplicates + (if next == prev then 1 else 0))
  {
    DifferenceOfGap(next, prev);
  }

  lemma GapsSnoc(counters: seq<nat>)
    requires |counters| > 1
    ensures var n := |counters|;
            GapsBelowHalf(counters)
            <==> GapsBelowHalf(counters[..n - 1]) && counters[n - 1] - counters[n - 2] < HALF
  {
  }

  /** First to last, both counted. */
  function Span(counters: seq<nat>): int {
    if counters == [] then 0 else counters[|counters| - 1] as int - counters[0] + 1
  }

  /** What a segment has added to a ledger without a baseline. */
  ghost predicate Accounted(l: Ledger, l': Ledger, counters: seq<nat>) {
    var got := l'.framesOk + l'.seqDrops - (l.framesOk + l.seqDrops);
    && got <= Span(counters)
    && (GapsBelowHalf(counters) <==> got == Span(counters))
    && l'.resets >= l.resets
    && (GapsBelowHalf(counters) ==> l'.resets == l.resets && l'.duplicates == l.duplicates + Repeats(counters))
  }

  lemma {:induction false} SegmentAccounted(l: Ledger, counters: seq<nat>)
    requires !l.haveLast && NeverDecreases(counters)
    ensures Accounted(l, Received(l, counters), counters)
    ensures counters != [] ==> Received(l, counters).haveLast
    ensures counters != [] ==> Received(l, counters).lastSeq == counters[|counters| - 1] % WRAP
    decreases |counters|
  {
    var n := |counters|;
    if n > 1 {
      var before := counters[..n - 1];
      SegmentAccounted(l, before);
      assert before[n - 2] == counters[n - 2] && before[0] == counters[0];
      LedgerStep(Received(l, before), counters[n - 2], counters[n - 1]);
      GapsSnoc(counters);
    } else if n == 1 {
      assert counters[..0] == [];
    }
  }

  // ---- a whole run --------------------------------------------------------------------

  /** The ledger after segments of frames with the bus reopened between them. */
  function ReceivedAll(l: Ledger, segments: seq<seq<nat>>): Ledger
    decreases |segments|
  {
    if segments == [] then l
    else
      var n := |segments| - 1;
      Received(Reopened(ReceivedAll(l, segments[..n])), segments[n])
  }

  /** The gap from one frame's counter to the next as 32 bits show it: the one number from -2^31
      up to 2^31, not included, that differs from it by a multiple of 2^32. */
  function Gap(prev: nat, next: nat): int {
    (next - prev + 0x8000_0000) % 0x1_0000_0000 - 0x8000_0000
  }

  /** What the neighbours in a segment amount to, each weighed by its gap. */
  function Tally(counters: seq<nat>, weight: int -> nat): nat
    decreases |counters|
  {
    if |counters| <= 1 then 0
    else
      var n := |counters| - 1;
      Tally(counters[..n], weight) + weight(Gap(counters[n - 1], counters[n]))
  }

  /** The same over all segments, and `first` for each frame that comes first in one. */
  function TallyAll(segments: seq<seq<nat>>, first: nat, weight: int -> nat): nat
    decreases |segments|
  {
    if segments == [] then 0
    else
      var n := |segments| - 1;
      TallyAll(segments[..n], first, weight) + (if segments[n] == [] then 0 else first) + Tally(segments[n], weight)
  }

  const PUBLISHED: int -> nat := gap => if gap == 0 then 0 else 1
  const MISSING: int -> nat := gap => if gap > 1 then gap - 1 else 0
  const REPEATED: int -> nat := gap => if gap == 0 then 1 else 0
  const BACKWARDS: int -> nat := gap => if gap < 0 then 1 else 0

  lemma GapIsDifference(prev: nat, next: nat)
    ensures Difference(next % WRAP, prev % WRAP) == Gap(prev, next)
  {
    ResidueDifference(next, prev);
    var d := (next - prev) % WRAP;
    var q := (next - prev) / WRAP;
    assert next - prev == d + q * WRAP;
    AddMultiple(d + HALF, q);
    assert next - prev + HALF == (d + HALF) + q * WRAP;
  }

  lemma {:induction false} SegmentCounted(l: Ledger, counters: seq<nat>)
    requires !l.haveLast && counters != []
    ensures var l' := Received(l, counters);
            && l'.framesOk == l.framesOk + 1 + Tally(counters, PUBLISHED)
            && l'.seqDrops == l.seqDrops + Tally(counters, MISSING)
            && l'.duplicates == l.duplicates + Tally(counters, REPEATED)
            && l'.resets == l.resets + Tally(counters, BACKWARDS)
    decreases |counters|
  {
    var n := |counters| - 1;
    if n > 0 {
      SegmentCounted(l, counters[..n]);
      LastSeqKept(l, counters[..n]);
      GapIsDifference(counters[n - 1], counters[n]);
    } else {
      assert counters[..0] == [];
    }
  }

  /** Over a whole run, for any counters, decreasing ones included: every counter of the ledger is
      the number of what it is named after. */
  lemma {:induction false} EveryFrameIsCounted(segments: seq<seq<nat>>)
    ensures var l := ReceivedAll(EMPTY, segments);
            && l.framesOk == TallyAll(segments, 1, PUBLISHED)
            && l.seqDrops == TallyAll(segments, 0, MISSING)
            && l.duplicates == TallyAll(segments, 0, REPEATED)
            && l.resets == TallyAll(segments, 0, BACKWARDS)
    decreases |segments|
  {
    if segments != [] {
      var n := |segments| - 1;
      EveryFrameIsCounted(segments[..n]);
      if segments[n] != [] {
        SegmentCounted(Reopened(ReceivedAll(EMPTY, segments[..n])), segments[n]);
      }
    }
  }

  lemma LastSegment(segments: seq<seq<nat>>)
    requires segments != []
    ensures var n := |segments| - 1;
            (forall k :: 0 <= k < |segments| ==> GapsBelowHalf(segments[k]))
            <==> (forall k :: 0 <= k < n ==> GapsBelowHalf(segments[..n][k])) && GapsBelowHalf(segments[n])
  {
    hide GapsBelowHalf;
    var n := |segments| - 1;
    assert forall k :: 0 <= k < n ==> segments[..n][k] == segments[k];
  }

  function TotalSpan(segments: seq<seq<nat>>): int {
    if segments == [] then 0
    else TotalSpan(segments[..|segments| - 1]) + Span(segments[|segments| - 1])
  }

  function TotalRepeats(segments: seq<seq<nat>>): nat {
    if segments == [] then 0
    else TotalRepeats(segments[..|segments| - 1]) + Repeats(segments[|segments| - 1])
  }

  /** For counters that never decrease between two reopenings of the bus, across any number of
      32-bit wraps and any jump at a reopening: frames published plus frames counted as dropped
      span the counters of every segment if and only if every gap inside one is below 2^31; then
      no reset is counted and duplicates are exactly the repeats. */
  lemma {:induction false} AccountingIsExact(segments: seq<seq<nat>>)
    requires forall k :: 0 <= k < |segments| ==> NeverDecreases(segments[k])
    ensures var l := ReceivedAll(EMPTY, segments);
            var exact := forall k :: 0 <= k < |segments| ==> GapsBelowHalf(segments[k]);
            && l.framesOk + l.seqDrops <= TotalSpan(segments)
            && (l.framesOk + l.seqDrops == TotalSpan(segments) <==> exact)
            && (exact ==> l.resets == 0 && l.duplicates == TotalRepeats(segments))
    decreases |segments|
  {
    hide NeverDecreases;
    hide GapsBelowHalf;
    hide Received;
    hide Span;
    hide Repeats;
    var n := |segments| - 1;
    if n >= 0 {
      var before := segments[..n];
      assert forall k :: 0 <= k < n ==> before[k] == segments[k];
      AccountingIsExact(before);
      LastSegment(segments);
      SegmentAccounted(Reopened(ReceivedAll(EMPTY, before)), segments[n]);
    }
  }

  lemma {:induction false} LastSeqKept(l: Ledger, counters: seq<nat>)
    requires counters != [] && !l.haveLast
    ensures Received(l, counters).haveLast
    ensures Received(l, counters).lastSeq == counters[|counters| - 1] % WRAP
    decreases |counters|
  {
    var before := counters[..|counters| - 1];
    if before != [] {
      LastSeqKept(l, before);
      SameResidue(counters[|counters| - 1], before[|before| - 1]);
    }
  }

  /** The difference is 0 exactly when the counters agree modulo 2^32. */
  lemma SameResidue(a: nat, b: nat)
    ensures Difference(a % WRAP, b % WRAP) == 0 <==> (a - b) % WRAP == 0
    ensures Difference(a % WRAP, b % WRAP) == 0 ==> a % WRAP == b % WRAP
  {
    ResidueDifference(a, b);
  }

  /** Whatever the counters: a frame is withheld exactly when it is not the first since the bus
      was opened and its counter and the one before agree modulo 2^32, which for neighbours less
      than 2^32 apart means that they are equal. */
  lemma OnlyRepeatsAreWithheld(l: Ledger, counters: seq<nat>, i: nat)
    requires !l.haveLast && i < |counters|
    ensures !Publishes(Received(l, counters[..i]), counters[i] % WRAP)
            <==> i > 0 && (counters[i] - counters[i - 1]) % WRAP == 0
    ensures i > 0 && -(WRAP as int) < counters[i] - counters[i - 1] < WRAP ==>
              ((counters[i] - counters[i - 1]) % WRAP == 0 <==> counters[i] == counters[i - 1])
  {
    if i > 0 {
      LastSeqKept(l, counters[..i]);
      SameResidue(counters[i], counters[i - 1]);
    }
  }
}
