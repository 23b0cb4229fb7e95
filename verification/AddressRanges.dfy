/**
 The list of address ranges that as_add_containing splits up
 (qnx_guests/src/hardware/startup/lib/as_add_containing.c): one piece after the other is
 laid over the range that holds its start.  When that gives a partition is settled
 exactly, for any pieces in any order.
 */
module AddressRanges {
  import opened Common

  const WRAP: nat := 0x1_0000_0000_0000_0000   // paddr_t is 64 bits wide

  /** A stretch of addresses, ends included, and the table entry that owns it.  One whose
      start is past its end is a leftover that holds nothing. */
  datatype Range = Range(start: nat, end: nat, owner: nat)

  function Max(a: nat, b: nat): nat { if a > b then a else b }

  predicate Holds(r: Range, a: int) {
    r.start <= a <= r.end
  }

  // ---- the splitting list -----------------------------------------------------------------

  /** The first range that holds address a, or the length. */
  function FirstHolding(list: seq<Range>, a: int): (k: nat)
    ensures k <= |list|
    ensures k < |list| ==> Holds(list[k], a)
    ensures forall i :: 0 <= i < k ==> !Holds(list[i], a)
  {
    if list == [] then 0
    else if Holds(list[0], a) then 0
    else 1 + FirstHolding(list[1..], a)
  }

  /** What becomes of the range that holds the start of a new piece. */
  function SplitAt(curr: Range, piece: Range): seq<Range>
    requires Holds(curr, piece.start)
  {
    if curr.start == piece.start && curr.end == piece.end then
      [curr.(owner := piece.owner)]
    else if curr.start == piece.start then
      [piece, curr.(start := (piece.end + 1) % WRAP)]
    else if curr.end != piece.end then
      [curr.(end := piece.start - 1), piece, Range((piece.end + 1) % WRAP, curr.end, curr.owner)]
    else
      [curr.(end := piece.start - 1), piece]
  }

  function Insert(list: seq<Range>, piece: Range): seq<Range> {
    var k := FirstHolding(list, piece.start);
    if k == |list| then list + [piece]
    else list[..k] + SplitAt(list[k], piece) + list[k + 1..]
  }

  function InsertAll(list: seq<Range>, pieces: seq<Range>): seq<Range>
    decreases |pieces|
  {
    if pieces == [] then list else InsertAll(Insert(list, pieces[0]), pieces[1..])
  }

  /** The ranges that hold something. */
  function Live(list: seq<Range>): seq<Range> {
    if list == [] then []
    else (if list[0].start <= list[0].end then [list[0]] else []) + Live(list[1..])
  }

  // ---- what makes a list good -------------------------------------------------------------

  predicate Disjoint(a: Range, b: Range) {
    a.end < b.start || b.end < a.start
  }

  predicate Inside(a: Range, b: Range) {
    b.start <= a.start && a.end <= b.end
  }

  ghost predicate Real(list: seq<Range>) {
    forall i :: 0 <= i < |list| ==> list[i].start <= list[i].end < WRAP
  }

  ghost predicate PairwiseDisjoint(list: seq<Range>) {
    forall i, j :: 0 <= i < j < |list| ==> Disjoint(list[i], list[j])
  }

  /** Two ranges hold the address. */
  predicate Shared(list: seq<Range>, i: nat, j: nat, a: int) {
    i < j < |list| && Holds(list[i], a) && Holds(list[j], a)
  }

  /** No address is held twice. */
  ghost predicate Apart(list: seq<Range>) {
    forall i: nat, j: nat, a :: !Shared(list, i, j, a)
  }

  ghost predicate Bounded(list: seq<Range>) {
    forall i :: 0 <= i < |list| ==> list[i].end < WRAP
  }

  /** The owner named by the last piece that holds a. */
  function LastHolder(pieces: seq<Range>, a: int): Option<nat>
    decreases |pieces|
  {
    if pieces == [] then None
    else
      var n := |pieces| - 1;
      if Holds(pieces[n], a) then Some(pieces[n].owner) else LastHolder(pieces[..n], a)
  }

  /** Each range belongs, all along, to the last piece that holds its addresses. */
  ghost predicate OwnedByLast(list: seq<Range>, pieces: seq<Range>) {
    forall i, a :: 0 <= i < |list| && Holds(list[i], a) ==> LastHolder(pieces, a) == Some(list[i].owner)
  }

  ghost predicate Covers(list: seq<Range>, pieces: seq<Range>) {
    forall a :: LastHolder(pieces, a).Some? ==> FirstHolding(list, a) < |list|
  }

  /** The list is a partition of what the pieces hold, each address going to the last piece. */
  ghost predicate Partitions(list: seq<Range>, pieces: seq<Range>) {
    Apart(list) && Bounded(list) && OwnedByLast(list, pieces) && Covers(list, pieces)
  }

  // ---- the exact condition ----------------------------------------------------------------

  /** The range and the piece have no address in common. */
  predicate Clear(r: Range, piece: Range) {
    r.start > r.end || r.end < piece.start || piece.end < r.start
  }

  /** What an insertion needs: no range but the one that holds the piece's start reaches into
      the piece, and a piece that ends past that range does not end at the last address. */
  ghost predicate StepOk(list: seq<Range>, piece: Range) {
    var k := FirstHolding(list, piece.start);
    && (forall i :: 0 <= i < |list| && i != k ==> Clear(list[i], piece))
    && (k < |list| && list[k].end < piece.end ==> piece.end + 1 < WRAP)
  }

  ghost predicate StepsOk(list: seq<Range>, pieces: seq<Range>)
    decreases |pieces|
  {
    pieces == [] || (StepOk(list, pieces[0]) && StepsOk(Insert(list, pieces[0]), pieces[1..]))
  }

  // ---- one insertion ----------------------------------------------------------------------

  lemma HolderSnoc(pieces: seq<Range>, piece: Range, a: int)
    ensures LastHolder(pieces + [piece], a)
            == if Holds(piece, a) then Some(piece.owner) else LastHolder(pieces, a)
  {
    assert (pieces + [piece])[..|pieces|] == pieces;
  }

  lemma FoundIf(list: seq<Range>, i: nat, a: int)
    requires i < |list| && Holds(list[i], a)
    ensures FirstHolding(list, a) < |list|
  {
  }

  /** The parts hold everything the range and the piece held. */
  lemma PartsCover(curr: Range, piece: Range, a: int) returns (i: nat)
    requires curr.start <= piece.start <= curr.end < WRAP && piece.start <= piece.end < WRAP
    requires Holds(curr, a) || Holds(piece, a)
    ensures i < |SplitAt(curr, piece)| && Holds(SplitAt(curr, piece)[i], a)
  {
    var parts := SplitAt(curr, piece);
    if Holds(piece, a) {
      i := if Holds(parts[0], a) then 0 else 1;
    } else if a < piece.start {
      i := 0;
    } else {
      i := |parts| - 1;
    }
  }

  /** Unless the piece wraps, they hold nothing else, nothing twice, each under the right owner. */
  lemma PartsFit(curr: Range, piece: Range)
    requires curr.start <= piece.start <= curr.end < WRAP && piece.start <= piece.end < WRAP
    requires curr.end < piece.end ==> piece.end + 1 < WRAP
    ensures var parts := SplitAt(curr, piece);
            && Apart(parts)
            && Bounded(parts)
            && forall i, a :: 0 <= i < |parts| && Holds(parts[i], a) ==>
                 && (Holds(curr, a) || Holds(piece, a))
                 && parts[i].owner == (if Holds(piece, a) then piece.owner else curr.owner)
  {
  }

  /** A piece that ends at the last address, past the range it starts in, leaves a range from 0. */
  lemma WrappedParts(curr: Range, piece: Range)
    requires curr.start <= piece.start <= curr.end < piece.end && piece.end + 1 == WRAP
    ensures var parts := SplitAt(curr, piece);
            Shared(parts, |parts| - 2, |parts| - 1, curr.end) && parts[|parts| - 1] == Range(0, curr.end, curr.owner)
  {
  }

  /** Where each range of a spliced list comes from. */
  lemma SpliceIndex(list: seq<Range>, k: nat, parts: seq<Range>, i: nat)
    requires k < |list| && i < |list| - 1 + |parts|
    ensures var spliced := list[..k] + parts + list[k + 1..];
            && |spliced| == |list| - 1 + |parts|
            && spliced[i] == (if i < k then list[i]
                              else if i < k + |parts| then parts[i - k]
                              else list[i - |parts| + 1])
  {
  }

  /** A place in a spliced list: in front, in the parts, or behind. */
  function Place(k: nat, n: nat, i: nat): nat
    requires i != k && n >= 1
  {
    if i < k then i else i + n - 1
  }

  lemma PlaceOf(list: seq<Range>, k: nat, parts: seq<Range>, i: nat)
    requires k < |list| && i < |list| && i != k && |parts| >= 1
    ensures var spliced := list[..k] + parts + list[k + 1..];
            Place(k, |parts|, i) < |spliced| && spliced[Place(k, |parts|, i)] == list[i]
  {
    SpliceIndex(list, k, parts, Place(k, |parts|, i));
  }

  lemma PlaceOfPart(list: seq<Range>, k: nat, parts: seq<Range>, i: nat)
    requires k < |list| && i < |parts|
    ensures var spliced := list[..k] + parts + list[k + 1..];
            k + i < |spliced| && spliced[k + i] == parts[i]
  {
    SpliceIndex(list, k, parts, k + i);
  }

  /** An address held twice, whichever of the two places comes first. */
  lemma SharedEither(list: seq<Range>, i: nat, j: nat, a: int)
    requires i < |list| && j < |list| && i != j && Holds(list[i], a) && Holds(list[j], a)
    ensures !Apart(list)
  {
    assert Shared(list, Min(i, j), Max(i, j), a);
  }

  /** An address of the piece is held after the insertion, at a place that is new. */
  lemma PieceHeld(list: seq<Range>, piece: Range, a: int) returns (p: nat)
    requires Bounded(list) && piece.start <= piece.end < WRAP
    requires var k := FirstHolding(list, piece.start); Holds(piece, a) || (k < |list| && Holds(list[k], a))
    ensures var k, list' := FirstHolding(list, piece.start), Insert(list, piece);
            && p < |list'| && Holds(list'[p], a)
            && (if k == |list| then p == |list| else k <= p < k + |SplitAt(list[k], piece)|)
  {
    var k := FirstHolding(list, piece.start);
    if k == |list| {
      p := |list|;
    } else {
      var i := PartsCover(list[k], piece, a);
      PlaceOfPart(list, k, SplitAt(list[k], piece), i);
      p := k + i;
    }
  }

  /** A range that was not split is still there, at a place of its own. */
  lemma OtherKept(list: seq<Range>, piece: Range, i: nat) returns (p: nat)
    requires i < |list| && i != FirstHolding(list, piece.start)
    ensures var k, list' := FirstHolding(list, piece.start), Insert(list, piece);
            && p < |list'| && list'[p] == list[i]
            && (if k == |list| then p == i else p == Place(k, |SplitAt(list[k], piece)|, i))
  {
    var k := FirstHolding(list, piece.start);
    if k == |list| {
      p := i;
    } else {
      PlaceOf(list, k, SplitAt(list[k], piece), i);
      p := Place(k, |SplitAt(list[k], piece)|, i);
    }
  }

  /** Once an address is held twice it stays so. */
  lemma StaysShared(list: seq<Range>, piece: Range)
    requires Bounded(list) && piece.start <= piece.end < WRAP && !Apart(list)
    ensures !Apart(Insert(list, piece))
  {
    var i: nat, j: nat, a :| Shared(list, i, j, a);
    var k := FirstHolding(list, piece.start);
    var p := PlaceAfter(list, piece, i, a);
    var q := PlaceAfter(list, piece, j, a);
    SharedEither(Insert(list, piece), p, q, a);
  }

  /** Where an address held at i is held after the insertion; different places stay different. */
  lemma PlaceAfter(list: seq<Range>, piece: Range, i: nat, a: int) returns (p: nat)
    requires Bounded(list) && piece.start <= piece.end < WRAP
    requires i < |list| && Holds(list[i], a)
    ensures var k, list' := FirstHolding(list, piece.start), Insert(list, piece);
            && p < |list'| && Holds(list'[p], a)
            && (if k == |list| then p == i
                else if i == k then k <= p < k + |SplitAt(list[k], piece)|
                else p == Place(k, |SplitAt(list[k], piece)|, i))
  {
    if i == FirstHolding(list, piece.start) {
      p := PieceHeld(list, piece, a);
    } else {
      p := OtherKept(list, piece, i);
    }
  }

  /** An insertion that is not ok makes some address held twice. */
  lemma BadStepShares(list: seq<Range>, piece: Range)
    requires Bounded(list) && piece.start <= piece.end < WRAP && !StepOk(list, piece)
    ensures !Apart(Insert(list, piece))
  {
    var k := FirstHolding(list, piece.start);
    if i :| 0 <= i < |list| && i != k && !Clear(list[i], piece) {
      var a := Max(list[i].start, piece.start);
      var p := OtherKept(list, piece, i);
      var q := PieceHeld(list, piece, a);
      SharedEither(Insert(list, piece), p, q, a);
    } else {
      var parts := SplitAt(list[k], piece);
      WrappedParts(list[k], piece);
      PlaceOfPart(list, k, parts, |parts| - 2);
      PlaceOfPart(list, k, parts, |parts| - 1);
      SharedEither(Insert(list, piece), k + |parts| - 2, k + |parts| - 1, list[k].end);
    }
  }

  lemma InsertBounded(list: seq<Range>, piece: Range)
    requires Bounded(list) && piece.start <= piece.end < WRAP
    ensures Bounded(Insert(list, piece))
  {
    var k := FirstHolding(list, piece.start);
    if k < |list| {
      var parts := SplitAt(list[k], piece);
      forall i | 0 <= i < |list| - 1 + |parts| ensures Insert(list, piece)[i].end < WRAP {
        SpliceIndex(list, k, parts, i);
      }
    }
  }

  /** An address of a range that is not split is in neither the piece nor the range that is. */
  lemma OthersAreClear(list: seq<Range>, piece: Range, i: nat, a: int)
    requires Apart(list) && StepOk(list, piece) && i < |list| && Holds(list[i], a)
    requires i != FirstHolding(list, piece.start)
    ensures !Holds(piece, a)
    ensures var k := FirstHolding(list, piece.start); k < |list| ==> !Holds(list[k], a)
  {
    var k := FirstHolding(list, piece.start);
    assert Clear(list[i], piece);
    hide FirstHolding;
    if k < |list| && Holds(list[k], a) {
      SharedEither(list, i, k, a);
    }
  }

  lemma PlacePart(list: seq<Range>, piece: Range, p: nat, a: int)
    requires Bounded(list) && piece.start <= piece.end < WRAP && StepOk(list, piece)
    requires p < |Insert(list, piece)| && Holds(Insert(list, piece)[p], a)
    requires var k := FirstHolding(list, piece.start);
             k <= p < k + (if k < |list| then |SplitAt(list[k], piece)| else 1)
    ensures var k, r := FirstHolding(list, piece.start), Insert(list, piece)[p];
            && (Holds(piece, a) || (k < |list| && Holds(list[k], a)))
            && r.owner == (if Holds(piece, a) then piece.owner else if k < |list| then list[k].owner else 0)
  {
    var k := FirstHolding(list, piece.start);
    if k < |list| {
      SpliceIndex(list, k, SplitAt(list[k], piece), p);
      PartsFit(list[k], piece);
      hide SplitAt;
    }
  }

  lemma OtherPlace(list: seq<Range>, piece: Range, p: nat)
    requires p < |Insert(list, piece)|
    ensures var k := FirstHolding(list, piece.start);
            var n := if k < |list| then |SplitAt(list[k], piece)| else 1;
            && (p < k ==> p < |list| && Insert(list, piece)[p] == list[p])
            && (p >= k + n ==> 0 <= p - n + 1 < |list| && p - n + 1 != k && Insert(list, piece)[p] == list[p - n + 1])
  {
    hide SplitAt;
    var k := FirstHolding(list, piece.start);
    if k < |list| {
      SpliceIndex(list, k, SplitAt(list[k], piece), p);
    }
  }

  /** What a place of the new list holds: nothing new, and under which owner. */
  lemma PlaceFrom(list: seq<Range>, piece: Range, p: nat, a: int)
    requires Apart(list) && Bounded(list) && piece.start <= piece.end < WRAP && StepOk(list, piece)
    requires p < |Insert(list, piece)| && Holds(Insert(list, piece)[p], a)
    ensures var k := FirstHolding(list, piece.start);
            var n := if k < |list| then |SplitAt(list[k], piece)| else 1;
            if k <= p < k + n then
              && (Holds(piece, a) || (k < |list| && Holds(list[k], a)))
              && Insert(list, piece)[p].owner == (if Holds(piece, a) then piece.owner else if k < |list| then list[k].owner else 0)
            else
              && p - (if p < k then 0 else n - 1) < |list|
              && Insert(list, piece)[p] == list[p - (if p < k then 0 else n - 1)]
              && !Holds(piece, a)
              && (k < |list| ==> !Holds(list[k], a))
  {
    var k := FirstHolding(list, piece.start);
    var n := if k < |list| then |SplitAt(list[k], piece)| else 1;
    hide Apart;
    hide Bounded;
    hide StepOk;
    hide SplitAt;
    hide Insert;
    hide Holds;
    if k <= p < k + n {
      PlacePart(list, piece, p, a);
    } else {
      OtherPlace(list, piece, p);
      OthersAreClear(list, piece, if p < k then p else p - n + 1, a);
    }
  }

  /** One that is ok keeps the ranges apart. */
  lemma GoodStepApart(list: seq<Range>, piece: Range)
    requires Apart(list) && Bounded(list) && piece.start <= piece.end < WRAP && StepOk(list, piece)
    ensures Apart(Insert(list, piece))
  {
    var k, list' := FirstHolding(list, piece.start), Insert(list, piece);
    var n := if k < |list| then |SplitAt(list[k], piece)| else 1;
    forall i: nat, j: nat, a ensures !Shared(list', i, j, a) {
      if Shared(list', i, j, a) {
        PlaceFrom(list, piece, i, a);
        PlaceFrom(list, piece, j, a);
        if k <= i < k + n && k <= j < k + n {
          SameSplit(list, piece, i, j, a);
        } else if !(k <= i < k + n) && !(k <= j < k + n) {
          SharedEither(list, i - (if i < k then 0 else n - 1), j - (if j < k then 0 else n - 1), a);
        }
      }
    }
  }

  lemma SameSplit(list: seq<Range>, piece: Range, i: nat, j: nat, a: int)
    requires Bounded(list) && piece.start <= piece.end < WRAP && StepOk(list, piece)
    requires var k := FirstHolding(list, piece.start);
             k <= i < j && j < k + (if k < |list| then |SplitAt(list[k], piece)| else 1)
    ensures !Shared(Insert(list, piece), i, j, a)
  {
    var k := FirstHolding(list, piece.start);
    if k < |list| {
      var parts := SplitAt(list[k], piece);
      PartsFit(list[k], piece);
      PlaceOfPart(list, k, parts, i - k);
      PlaceOfPart(list, k, parts, j - k);
      assert !Shared(parts, i - k, j - k, a);
    }
  }

  lemma GoodStepOwned(list: seq<Range>, pieces: seq<Range>, piece: Range)
    requires Partitions(list, pieces) && piece.start <= piece.end < WRAP && StepOk(list, piece)
    ensures OwnedByLast(Insert(list, piece), pieces + [piece])
  {
    var list' := Insert(list, piece);
    forall i, a | 0 <= i < |list'| && Holds(list'[i], a)
      ensures LastHolder(pieces + [piece], a) == Some(list'[i].owner)
    {
      HolderSnoc(pieces, piece, a);
      PlaceFrom(list, piece, i, a);
    }
  }

  lemma StepCovers(list: seq<Range>, pieces: seq<Range>, piece: Range)
    requires Covers(list, pieces) && Bounded(list) && piece.start <= piece.end < WRAP
    ensures Covers(Insert(list, piece), pieces + [piece])
  {
    forall a | LastHolder(pieces + [piece], a).Some? ensures FirstHolding(Insert(list, piece), a) < |Insert(list, piece)| {
      HolderSnoc(pieces, piece, a);
      if Holds(piece, a) {
        var p := PieceHeld(list, piece, a);
      } else {
        var p := PlaceAfter(list, piece, FirstHolding(list, a), a);
      }
    }
  }

  lemma GoodStep(list: seq<Range>, pieces: seq<Range>, piece: Range)
    requires Partitions(list, pieces) && piece.start <= piece.end < WRAP && StepOk(list, piece)
    ensures Partitions(Insert(list, piece), pieces + [piece])
  {
    GoodStepApart(list, piece);
    InsertBounded(list, piece);
    GoodStepOwned(list, pieces, piece);
    StepCovers(list, pieces, piece);
  }

  // ---- all insertions ---------------------------------------------------------------------

  lemma {:induction false} InsertAllStaysShared(list: seq<Range>, pieces: seq<Range>)
    requires Bounded(list) && Real(pieces) && !Apart(list)
    ensures !Apart(InsertAll(list, pieces))
    decreases |pieces|
  {
    if pieces != [] {
      StaysShared(list, pieces[0]);
      InsertBounded(list, pieces[0]);
      InsertAllStaysShared(Insert(list, pieces[0]), pieces[1..]);
    }
  }

  /** For any pieces: the list ends up a partition if every insertion is ok, and with an
      address held twice if one is not. */
  lemma {:induction false} InsertAllExactly(list: seq<Range>, before: seq<Range>, pieces: seq<Range>)
    requires Partitions(list, before) && Real(pieces)
    ensures StepsOk(list, pieces) ==> Partitions(InsertAll(list, pieces), before + pieces)
    ensures !StepsOk(list, pieces) ==> !Apart(InsertAll(list, pieces))
    decreases |pieces|
  {
    hide StepOk;
    hide Apart;
    hide Covers;
    hide OwnedByLast;
    hide Insert;
    if pieces == [] {
      assert before + pieces == before;
    } else {
      var piece, rest := pieces[0], pieces[1..];
      if StepOk(list, piece) {
        GoodStep(list, before, piece);
        InsertAllExactly(Insert(list, piece), before + [piece], rest);
        assert before + [piece] + rest == before + pieces;
      } else {
        BadStepShares(list, piece);
        InsertBounded(list, piece);
        InsertAllStaysShared(Insert(list, piece), rest);
      }
    }
  }

  /** The list of all pieces is a partition if and only if every insertion is ok. */
  lemma PartitionExactly(pieces: seq<Range>)
    requires Real(pieces)
    ensures Partitions(InsertAll([], pieces), pieces) <==> StepsOk([], pieces)
    ensures Apart(InsertAll([], pieces)) <==> StepsOk([], pieces)
  {
    assert [] + pieces == pieces;
    InsertAllExactly([], [], pieces);
  }

  // ---- the live ranges --------------------------------------------------------------------

  predicate Alive(r: Range) {
    r.start <= r.end
  }

  lemma {:induction false} LiveIsReal(list: seq<Range>)
    requires Bounded(list)
    ensures Real(Live(list))
    decreases |list|
  {
    if list != [] {
      LiveIsReal(list[1..]);
    }
  }

  /** A live range stands somewhere in the list. */
  lemma {:induction false} LiveFrom(list: seq<Range>, p: nat) returns (i: nat)
    requires p < |Live(list)|
    ensures i < |list| && list[i] == Live(list)[p] && Alive(list[i])
    decreases |list|
  {
    if Alive(list[0]) && p == 0 {
      i := 0;
    } else {
      var j := LiveFrom(list[1..], if Alive(list[0]) then p - 1 else p);
      i := j + 1;
    }
  }

  /** A range that holds an address is live. */
  lemma {:induction false} LiveAt(list: seq<Range>, i: nat) returns (p: nat)
    requires i < |list| && Alive(list[i])
    ensures p < |Live(list)| && Live(list)[p] == list[i]
    decreases |list|
  {
    if i == 0 {
      p := 0;
    } else {
      var q := LiveAt(list[1..], i - 1);
      p := if Alive(list[0]) then q + 1 else q;
    }
  }

  /** Two places that share an address are two live ranges that do, and the other way round. */
  lemma {:induction false} LiveShared(list: seq<Range>)
    ensures Apart(list) <==> PairwiseDisjoint(Live(list))
    decreases |list|
  {
    if list != [] {
      LiveShared(list[1..]);
      if Alive(list[0]) {
        LiveFirst(list);
      } else {
        DeadFirst(list);
        assert Live(list) == Live(list[1..]);
      }
    }
  }

  lemma DeadFirst(list: seq<Range>)
    requires list != [] && !Alive(list[0])
    ensures Apart(list) <==> Apart(list[1..])
  {
    var rest := list[1..];
    if !Apart(rest) {
      var i: nat, j: nat, a :| Shared(rest, i, j, a);
      assert Shared(list, i + 1, j + 1, a);
    }
    if !Apart(list) {
      var i: nat, j: nat, a :| Shared(list, i, j, a);
      assert Shared(rest, i - 1, j - 1, a);
    }
  }

  /** Sharing an address with the first, live range. */
  lemma FirstOverlaps(list: seq<Range>, j: nat, a: int)
    requires 0 < j < |list| && Holds(list[0], a) && Holds(list[j], a)
    ensures !PairwiseDisjoint(Live(list))
  {
    var p := LiveAt(list[1..], j - 1);
    assert Live(list)[0] == list[0] && Live(list)[p + 1] == list[j];
    assert !Disjoint(Live(list)[0], Live(list)[p + 1]);
  }

  lemma LiveFirst(list: seq<Range>)
    requires list != [] && Alive(list[0])
    requires Apart(list[1..]) <==> PairwiseDisjoint(Live(list[1..]))
    ensures Apart(list) <==> PairwiseDisjoint(Live(list))
  {
    var live := Live(list[1..]);
    assert Live(list) == [list[0]] + live;
    assert forall i :: 0 <= i < |live| ==> live[i] == Live(list)[i + 1];
    if PairwiseDisjoint(Live(list)) {
      ApartFirst(list);
    }
    if Apart(list) {
      DisjointFirst(list);
    }
  }

  lemma ApartFirst(list: seq<Range>)
    requires list != [] && Alive(list[0])
    requires Apart(list[1..]) && PairwiseDisjoint(Live(list))
    ensures Apart(list)
  {
    forall i: nat, j: nat, a ensures !Shared(list, i, j, a) {
      if Shared(list, i, j, a) {
        if i == 0 {
          FirstOverlaps(list, j, a);
        } else {
          assert Shared(list[1..], i - 1, j - 1, a);
        }
      }
    }
  }

  lemma DisjointFirst(list: seq<Range>)
    requires list != [] && Alive(list[0]) && Apart(list)
    ensures Apart(list[1..])
    ensures var live := Live(list[1..]); forall p :: 0 <= p < |live| ==> Disjoint(list[0], live[p])
  {
    var rest := list[1..];
    var live := Live(rest);
    forall i: nat, j: nat, a ensures !Shared(rest, i, j, a) {
      assert !Shared(list, i + 1, j + 1, a);
    }
    forall p | 0 <= p < |live| ensures Disjoint(list[0], live[p]) {
      var j := LiveFrom(rest, p);
      assert !Shared(list, 0, j + 1, Max(list[0].start, live[p].start));
    }
  }

  /** What holds of the list's owners and cover holds of its live ranges. */
  lemma LiveOwnsAndCovers(list: seq<Range>, pieces: seq<Range>)
    requires OwnedByLast(list, pieces) && Covers(list, pieces)
    ensures OwnedByLast(Live(list), pieces) && Covers(Live(list), pieces)
  {
    var live := Live(list);
    forall p, a | 0 <= p < |live| && Holds(live[p], a) ensures LastHolder(pieces, a) == Some(live[p].owner) {
      var i := LiveFrom(list, p);
    }
    forall a | LastHolder(pieces, a).Some? ensures FirstHolding(live, a) < |live| {
      var p := LiveAt(list, FirstHolding(list, a));
      FoundIf(live, p, a);
    }
  }

  /** The ranges that are left for filing. */
  ghost predicate LivePartition(live: seq<Range>, pieces: seq<Range>) {
    Real(live) && PairwiseDisjoint(live) && OwnedByLast(live, pieces) && Covers(live, pieces)
  }

  lemma {:induction false} InsertAllBounded(list: seq<Range>, pieces: seq<Range>)
    requires Bounded(list) && Real(pieces)
    ensures Bounded(InsertAll(list, pieces))
    decreases |pieces|
  {
    if pieces != [] {
      InsertBounded(list, pieces[0]);
      InsertAllBounded(Insert(list, pieces[0]), pieces[1..]);
    }
  }

  /** The live ranges are a partition, and indeed no address is in two of them, if and only if
      every insertion is ok. */
  lemma LivePartitionExactly(pieces: seq<Range>)
    requires Real(pieces)
    ensures var live := Live(InsertAll([], pieces));
            && (LivePartition(live, pieces) <==> StepsOk([], pieces))
            && (PairwiseDisjoint(live) <==> StepsOk([], pieces))
            && Real(live)
  {
    var list := InsertAll([], pieces);
    PartitionExactly(pieces);
    InsertAllBounded([], pieces);
    LiveIsReal(list);
    LiveShared(list);
    if StepsOk([], pieces) {
      LiveOwnsAndCovers(list, pieces);
    }
  }

  // ---- laminar pieces ---------------------------------------------------------------------

  /** Each later piece is disjoint from or contained in each earlier one. */
  ghost predicate Laminar(pieces: seq<Range>) {
    forall i, j :: 0 <= i < j < |pieces| ==> Disjoint(pieces[j], pieces[i]) || Inside(pieces[j], pieces[i])
  }

  /** A range ends where some piece ends, or just before some piece starts. */
  ghost predicate EndsAtBoundary(r: Range, pieces: seq<Range>) {
    exists i :: 0 <= i < |pieces| && (pieces[i].end == r.end || pieces[i].start == r.end + 1)
  }

  /** No leftovers, and no range ends but where a piece says. */
  ghost predicate Tidy(list: seq<Range>, pieces: seq<Range>) {
    Real(list) && forall i :: 0 <= i < |list| ==> EndsAtBoundary(list[i], pieces)
  }

  lemma {:induction false} HolderIsPiece(pieces: seq<Range>, a: int) returns (i: nat)
    requires LastHolder(pieces, a).Some?
    ensures i < |pieces| && Holds(pieces[i], a)
    decreases |pieces|
  {
    var n := |pieces| - 1;
    if Holds(pieces[n], a) {
      i := n;
    } else {
      i := HolderIsPiece(pieces[..n], a);
    }
  }

  lemma {:induction false} PieceHasHolder(pieces: seq<Range>, i: nat, a: int)
    requires i < |pieces| && Holds(pieces[i], a)
    ensures LastHolder(pieces, a).Some?
    decreases |pieces|
  {
    var n := |pieces| - 1;
    if !Holds(pieces[n], a) {
      PieceHasHolder(pieces[..n], i, a);
    }
  }

  lemma InsideOrApart(pieces: seq<Range>, piece: Range, i: nat)
    requires Laminar(pieces + [piece]) && i < |pieces|
    ensures Disjoint(piece, pieces[i]) || Inside(piece, pieces[i])
  {
    var all := pieces + [piece];
    assert all[i] == pieces[i] && all[|pieces|] == piece;
  }

  /** A laminar piece never runs past the end of the range that holds its start. */
  lemma PieceFits(list: seq<Range>, pieces: seq<Range>, piece: Range, k: nat)
    requires Tidy(list, pieces) && Real(pieces) && Laminar(pieces + [piece]) && piece.start <= piece.end
    requires k < |list| && Holds(list[k], piece.start)
    ensures piece.end <= list[k].end
  {
    var i :| 0 <= i < |pieces| && (pieces[i].end == list[k].end || pieces[i].start == list[k].end + 1);
    InsideOrApart(pieces, piece, i);
  }

  /** A piece whose start no range holds is apart from every earlier piece. */
  lemma PieceApart(list: seq<Range>, pieces: seq<Range>, piece: Range, i: nat)
    requires Covers(list, pieces) && Laminar(pieces + [piece]) && piece.start <= piece.end
    requires FirstHolding(list, piece.start) == |list| && i < |pieces|
    ensures Disjoint(piece, pieces[i])
  {
    InsideOrApart(pieces, piece, i);
    if Holds(pieces[i], piece.start) {
      PieceHasHolder(pieces, i, piece.start);
    }
  }

  lemma LaminarStepOk(list: seq<Range>, pieces: seq<Range>, piece: Range)
    requires Partitions(list, pieces) && Tidy(list, pieces)
    requires Real(pieces) && Laminar(pieces + [piece]) && piece.start <= piece.end < WRAP
    ensures StepOk(list, piece)
  {
    var k := FirstHolding(list, piece.start);
    if k < |list| {
      PieceFits(list, pieces, piece, k);
    }
    forall i | 0 <= i < |list| && i != k ensures Clear(list[i], piece) {
      if !Clear(list[i], piece) {
        var a := Max(list[i].start, piece.start);
        if k < |list| {
          SharedEither(list, i, k, a);
        } else {
          var j := HolderIsPiece(pieces, a);
          PieceApart(list, pieces, piece, j);
        }
      }
    }
  }

  lemma BoundaryStays(r: Range, pieces: seq<Range>, piece: Range)
    requires EndsAtBoundary(r, pieces)
    ensures EndsAtBoundary(r, pieces + [piece])
  {
    var i :| 0 <= i < |pieces| && (pieces[i].end == r.end || pieces[i].start == r.end + 1);
    assert (pieces + [piece])[i] == pieces[i];
  }

  lemma NewBoundary(r: Range, pieces: seq<Range>, piece: Range)
    requires piece.end == r.end || piece.start == r.end + 1
    ensures EndsAtBoundary(r, pieces + [piece])
  {
    assert (pieces + [piece])[|pieces|] == piece;
  }

  lemma LaminarTidy(list: seq<Range>, pieces: seq<Range>, piece: Range)
    requires Tidy(list, pieces) && Real(pieces) && Laminar(pieces + [piece]) && piece.start <= piece.end < WRAP
    ensures Tidy(Insert(list, piece), pieces + [piece])
  {
    hide EndsAtBoundary;
    var k, list' := FirstHolding(list, piece.start), Insert(list, piece);
    if k == |list| {
      NewBoundary(piece, pieces, piece);
      forall i | 0 <= i < |list| ensures EndsAtBoundary(list'[i], pieces + [piece]) {
        BoundaryStays(list[i], pieces, piece);
      }
    } else {
      PieceFits(list, pieces, piece, k);
      var parts := SplitAt(list[k], piece);
      forall i | 0 <= i < |list'| ensures Alive(list'[i]) && list'[i].end < WRAP && EndsAtBoundary(list'[i], pieces + [piece]) {
        SpliceIndex(list, k, parts, i);
        if k <= i < k + |parts| {
          PartBoundary(list[k], pieces, piece, i - k);
        } else {
          BoundaryStays(list'[i], pieces, piece);
        }
      }
    }
  }

  lemma PartBoundary(curr: Range, pieces: seq<Range>, piece: Range, i: nat)
    requires curr.start <= piece.start <= piece.end <= curr.end < WRAP && EndsAtBoundary(curr, pieces)
    requires i < |SplitAt(curr, piece)|
    ensures var part := SplitAt(curr, piece)[i];
            Alive(part) && part.end < WRAP && EndsAtBoundary(part, pieces + [piece])
  {
    var part := SplitAt(curr, piece)[i];
    if part.end == curr.end {
      BoundaryStays(curr, pieces, piece);
      var n :| 0 <= n < |pieces + [piece]| && ((pieces + [piece])[n].end == curr.end || (pieces + [piece])[n].start == curr.end + 1);
    } else {
      NewBoundary(part, pieces, piece);
    }
  }

  /** Laminar pieces are ok at every insertion. */
  lemma {:induction false} LaminarStepsOk(list: seq<Range>, before: seq<Range>, pieces: seq<Range>)
    requires Partitions(list, before) && Tidy(list, before) && Real(before + pieces) && Laminar(before + pieces)
    ensures StepsOk(list, pieces)
    decreases |pieces|
  {
    if pieces != [] {
      var all, piece, rest := before + pieces, pieces[0], pieces[1..];
      var more := before + [piece];
      assert more + rest == all;
      assert Real(before) && Laminar(more) && piece.start <= piece.end < WRAP by {
        assert forall i :: 0 <= i < |more| ==> more[i] == all[i];
        assert forall i :: 0 <= i < |before| ==> before[i] == all[i];
        assert all[|before|] == piece;
      }
      LaminarStepOk(list, before, piece);
      GoodStep(list, before, piece);
      LaminarTidy(list, before, piece);
      LaminarStepsOk(Insert(list, piece), more, rest);
    }
  }

  /** Pieces that share nothing stay as they are, in the order they came. */
  lemma {:induction false} DisjointStayInOrder(list: seq<Range>, pieces: seq<Range>)
    requires Real(list + pieces) && PairwiseDisjoint(list + pieces)
    ensures InsertAll(list, pieces) == list + pieces
    decreases |pieces|
  {
    if pieces == [] {
      assert list + pieces == list;
    } else {
      var all, piece := list + pieces, pieces[0];
      assert all[|list|] == piece && piece.start <= piece.end;
      forall i | 0 <= i < |list| ensures !Holds(list[i], piece.start) {
        assert all[i] == list[i] && Disjoint(all[i], all[|list|]);
      }
      assert (list + [piece]) + pieces[1..] == all;
      DisjointStayInOrder(list + [piece], pieces[1..]);
    }
  }

  lemma InsertTwo(first: Range, second: Range)
    requires Holds(first, second.start)
    ensures InsertAll([], [first, second]) == SplitAt(first, second)
  {
    var pieces := [first, second];
    assert pieces[1..] == [second] && [second][1..] == [];
    assert Insert([], first) == [first];
    assert FirstHolding([first], second.start) == 0;
    assert Insert([first], second) == [] + SplitAt(first, second) + [] == SplitAt(first, second);
    assert InsertAll([], pieces) == InsertAll([first], [second]) == InsertAll(SplitAt(first, second), []);
  }

  lemma {:induction false} AllLive(list: seq<Range>)
    requires forall i :: 0 <= i < |list| ==> list[i].start <= list[i].end
    ensures Live(list) == list
    decreases |list|
  {
    if list != [] {
      AllLive(list[1..]);
      assert [list[0]] + list[1..] == list;
    }
  }

  lemma SplitOfNested(outer: Range, inner: Range)
    requires outer.start <= inner.start <= inner.end <= outer.end < WRAP
    ensures SplitAt(outer, inner)
            == (if outer.start < inner.start then [Range(outer.start, inner.start - 1, outer.owner)] else [])
               + [inner]
               + (if inner.end < outer.end then [Range(inner.end + 1, outer.end, outer.owner)] else [])
  {
  }

  /** A piece inside another leaves what is below it, itself, and what is above it, in this order. */
  lemma NestedPieceSplits(outer: Range, inner: Range)
    requires outer.start <= inner.start <= inner.end <= outer.end < 0x1_0000_0000_0000_0000
    ensures Live(InsertAll([], [outer, inner]))
            == (if outer.start < inner.start then [Range(outer.start, inner.start - 1, outer.owner)] else [])
               + [inner]
               + (if inner.end < outer.end then [Range(inner.end + 1, outer.end, outer.owner)] else [])
  {
    InsertTwo(outer, inner);
    SplitOfNested(outer, inner);
    hide *;
    AllLive((if outer.start < inner.start then [Range(outer.start, inner.start - 1, outer.owner)] else [])
            + [inner]
            + (if inner.end < outer.end then [Range(inner.end + 1, outer.end, outer.owner)] else []));
  }

  /** The condition asks for less than that: a piece may stick out to the right of the range
      that holds its start, and its leftover is dropped. */
  lemma StickingOutRightIsOk()
    ensures var pieces := [Range(0, 10, 0), Range(5, 15, 1)];
            && !Laminar(pieces)
            && StepsOk([], pieces)
            && Live(InsertAll([], pieces)) == [Range(0, 4, 0), Range(5, 15, 1)]
  {
    var first, second := Range(0, 10, 0), Range(5, 15, 1);
    var pieces := [first, second];
    assert !Disjoint(pieces[1], pieces[0]) && !Inside(pieces[1], pieces[0]);
    assert pieces[1..] == [second] && [second][1..] == [];
    assert Insert([], first) == [first];
    var list := [Range(0, 4, 0), second, Range(16, 10, 0)];
    assert FirstHolding([first], 5) == 0;
    assert Insert([first], second) == [] + list + [] == list;
    assert InsertAll([], pieces) == InsertAll([first], [second]) == InsertAll(list, []) == list;
    assert list[1..] == [second, Range(16, 10, 0)];
    assert list[1..][1..] == [Range(16, 10, 0)];
    assert [Range(16, 10, 0)][1..] == [];
    assert Live(list[1..][1..]) == [];
    assert Live(list[1..]) == [second];
  }
}
