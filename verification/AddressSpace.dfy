/**
 The address-space table of the startup library: as_find_containing, as_add64 and
 the splitter as_add_containing in qnx_guests/src/hardware/startup/lib, which files
 a range under the containers that hold it, piece by piece.
 Offsets into the table are indices of its entries.
 */
module AddressSpace {
  import opened Common
  import opened AddressRanges

  /** The 16 stored attribute bits: AS_ATTR_CONTINUED, AS_ATTR_KIDS and the others. */
  datatype Attr = Attr(continued: bool, kids: bool, others: nat)

  datatype Entry = Entry(start: nat, end: nat, attr: Attr, name: string, owner: Option<nat>)

  type Table = seq<Entry>

  /** Owners come before what they own, and every entry is a real stretch of addresses. */
  ghost predicate WellFormed(t: Table) {
    forall i :: 0 <= i < |t| ==>
      && (t[i].owner.Some? ==> t[i].owner.value < i)
      && t[i].start <= t[i].end < WRAP
  }

  /** match_name: the entry or one of its owners has the name. */
  ghost predicate HasName(t: Table, i: nat, name: string)
    requires WellFormed(t) && i < |t|
    decreases i
  {
    t[i].name == name || (t[i].owner.Some? && HasName(t, t[i].owner.value, name))
  }

  /** A walk from an entry to its owner, that one's owner, and so on. */
  ghost predicate OwnerWalk(t: Table, walk: seq<nat>) {
    && walk != [] && (forall k :: 0 <= k < |walk| ==> walk[k] < |t|)
    && forall k :: 0 < k < |walk| ==> t[walk[k - 1]].owner == Some(walk[k])
  }

  lemma {:induction false} WalkFindsName(t: Table, walk: seq<nat>, name: string)
    requires WellFormed(t) && OwnerWalk(t, walk) && t[walk[|walk| - 1]].name == name
    ensures HasName(t, walk[0], name)
    decreases |walk|
  {
    if |walk| > 1 {
      assert t[walk[0]].owner == Some(walk[1]);
      WalkFindsName(t, walk[1..], name);
    }
  }

  lemma {:induction false} NameHasWalk(t: Table, i: nat, name: string) returns (walk: seq<nat>)
    requires WellFormed(t) && i < |t| && HasName(t, i, name)
    ensures OwnerWalk(t, walk) && walk[0] == i && t[walk[|walk| - 1]].name == name
    decreases i
  {
    if t[i].name == name {
      walk := [i];
    } else {
      var rest := NameHasWalk(t, t[i].owner.value, name);
      walk := [i] + rest;
      forall k | 0 < k < |walk| ensures t[walk[k - 1]].owner == Some(walk[k]) {
        if k > 1 {
          assert walk[k] == rest[k - 1] && walk[k - 1] == rest[k - 2];
        }
      }
    }
  }

  /** An entry has the name exactly when some walk up its owners ends at an entry of that name. */
  lemma HasNameExactly(t: Table, i: nat, name: string)
    requires WellFormed(t) && i < |t|
    ensures HasName(t, i, name)
            <==> exists walk :: OwnerWalk(t, walk) && walk[0] == i && t[walk[|walk| - 1]].name == name
  {
    if HasName(t, i, name) {
      var walk := NameHasWalk(t, i, name);
    }
    if walk :| OwnerWalk(t, walk) && walk[0] == i && t[walk[|walk| - 1]].name == name {
      WalkFindsName(t, walk, name);
    }
  }

  predicate Touches(e: Entry, start: nat, end: nat) {
    || (start >= e.start && start <= e.end)
    || (end >= e.start && end <= e.end)
    || (start <= e.start && end >= e.end)
  }

  ghost predicate Hit(t: Table, i: nat, start: nat, end: nat, container: string)
    requires WellFormed(t) && i < |t|
  {
    HasName(t, i, container) && Touches(t[i], start, end)
  }

  /** The part of [start, end] inside entry i. */
  function Piece(t: Table, i: nat, start: nat, end: nat): Range
    requires i < |t|
  {
    Range(Max(start, t[i].start), Min(end, t[i].end), i)
  }

  // ---- the pieces --------------------------------------------------------------------------

  /** The list after inserting the pieces of all hits from index `from` on. */
  ghost function SplitFrom(t: Table, from: nat, start: nat, end: nat, container: string, list: seq<Range>): seq<Range>
    requires WellFormed(t) && from <= |t|
    decreases |t| - from
  {
    if from == |t| then list
    else
      SplitFrom(t, from + 1, start, end, container,
                if Hit(t, from, start, end, container) then Insert(list, Piece(t, from, start, end)) else list)
  }

  /** The pieces of all hits from index `from` on, in table order. */
  ghost function Pieces(t: Table, from: nat, start: nat, end: nat, container: string): (pieces: seq<Range>)
    requires WellFormed(t) && from <= |t|
    decreases |t| - from
  {
    if from == |t| then []
    else (if Hit(t, from, start, end, container) then [Piece(t, from, start, end)] else [])
         + Pieces(t, from + 1, start, end, container)
  }

  lemma {:induction false} SplitInsertsPieces(t: Table, from: nat, start: nat, end: nat, container: string, list: seq<Range>)
    requires WellFormed(t) && from <= |t|
    ensures SplitFrom(t, from, start, end, container, list)
            == InsertAll(list, Pieces(t, from, start, end, container))
    decreases |t| - from
  {
    if from < |t| {
      var rest := Pieces(t, from + 1, start, end, container);
      if Hit(t, from, start, end, container) {
        var p := Piece(t, from, start, end);
        SplitInsertsPieces(t, from + 1, start, end, container, Insert(list, p));
        assert ([p] + rest)[1..] == rest;
      } else {
        SplitInsertsPieces(t, from + 1, start, end, container, list);
        assert [] + rest == rest;
      }
    }
  }

  // ---- filing the pieces ----------------------------------------------------------------------

  function SetKids(t: Table, owner: Option<nat>): (t': Table)
    requires owner.Some? ==> owner.value < |t|
    ensures |t'| == |t|
  {
    if owner.Some? then t[owner.value := t[owner.value].(attr := t[owner.value].attr.(kids := true))] else t
  }

  /** as_add64 without AS_OVERLAY_IO. */
  function AddEntry(t: Table, e: Entry): (t': Table)
    requires e.owner.Some? ==> e.owner.value < |t|
    ensures |t'| == |t| + 1
  {
    SetKids(t, e.owner) + [e]
  }

  /** as_add64: an overlaid entry gets an "io" entry under it. */
  function AsAdd(t: Table, e: Entry, overlay: bool): Table
    requires e.owner.Some? ==> e.owner.value < |t|
  {
    var t' := AddEntry(t, e);
    if overlay then AddEntry(t', e.(name := "io", owner := Some(|t|))) else t'
  }

  function Entered(r: Range, attr: Attr, name: string): Entry {
    Entry(r.start, r.end, attr, name, Some(r.owner))
  }

  ghost predicate OwnersBelow(list: seq<Range>, n: nat) {
    forall i :: 0 <= i < |list| ==> list[i].owner < n
  }

  /** The loop that adds every range that is not inside out. */
  function Emit(t: Table, list: seq<Range>, attr: Attr, name: string): (t': Table)
    requires OwnersBelow(list, |t|)
    ensures |t'| >= |t|
    decreases |list|
  {
    if list == [] then t
    else
      Emit(if list[0].start <= list[0].end then AddEntry(t, Entered(list[0], attr, name)) else t, list[1..], attr, name)
  }

  /** The loop that lays a copy of each piece over it. */
  function Overlay(t: Table, off: nat, stop: nat, attr: Attr, name: string): (t': Table)
    requires off <= stop <= |t|
    decreases stop - off
  {
    if off == stop then t
    else Overlay(AddEntry(t, Entry(t[off].start, t[off].end, attr, name, Some(off))), off + 1, stop, attr, name)
  }

  function EndChain(t: Table): Table
    requires t != []
  {
    var last := |t| - 1;
    t[last := t[last].(attr := t[last].attr.(continued := false))]
  }

  lemma {:induction false} OwnersStayBelow(list: seq<Range>, pieces: seq<Range>, n: nat)
    requires OwnersBelow(list, n) && OwnersBelow(pieces, n)
    ensures OwnersBelow(InsertAll(list, pieces), n)
    decreases |pieces|
  {
    if pieces != [] {
      OwnersStayBelow(Insert(list, pieces[0]), pieces[1..], n);
    }
  }

  /** The list as_add_containing ends up with. */
  ghost function RangesOf(t: Table, start: nat, end: nat, container: string): (list: seq<Range>)
    requires WellFormed(t)
    ensures OwnersBelow(list, |t|)
  {
    var pieces := Pieces(t, 0, start, end, container);
    PiecesHaveOwners(t, start, end, container);
    OwnersStayBelow([], pieces, |t|);
    InsertAll([], pieces)
  }

  /** Those of its ranges that are filed. */
  ghost function FiledRanges(t: Table, start: nat, end: nat, container: string): seq<Range>
    requires WellFormed(t)
  {
    Live(RangesOf(t, start, end, container))
  }

  /** The table and the returned offset. */
  ghost function Filed(t: Table, start: nat, end: nat, attr: Attr, overlay: bool, name: string, container: string)
    : (Table, Option<nat>)
    requires WellFormed(t)
  {
    var t1 := Emit(t, RangesOf(t, start, end, container), attr.(continued := true), name);
    if |t1| == |t| then (t1, None)
    else
      var t2 := EndChain(t1);
      (if overlay then Overlay(t2, |t|, |t1|, attr, name) else t2, Some(|t|))
  }

  /** Where a search continues: the entry after `off`, or the first. */
  function After(off: Option<nat>): nat {
    if off.Some? then off.value + 1 else 0
  }

  // ---- the code ----------------------------------------------------------------------------------

  class AsTable {
    var entries: Table

    method MatchName(i: nat, name: string) returns (found: bool)
      requires WellFormed(entries) && i < |entries|
      ensures found == HasName(entries, i, name)
    {
      var at: nat := i;
      while true
        invariant at <= i
        invariant HasName(entries, i, name) == HasName(entries, at, name)
        decreases at
      {
        if entries[at].name == name {
          return true;
        }
        if entries[at].owner.None? {
          return false;
        }
        at := entries[at].owner.value;
      }
    }

    /** as_find_containing: the first hit after `off`. */
    method FindContaining(off: Option<nat>, start: nat, end: nat, container: string) returns (found: Option<nat>)
      requires WellFormed(entries) && (off.Some? ==> off.value < |entries|)
      ensures found.Some? ==>
                && After(off) <= found.value < |entries| && Hit(entries, found.value, start, end, container)
                && forall i :: After(off) <= i < found.value ==> !Hit(entries, i, start, end, container)
      ensures found.None? ==>
                forall i :: After(off) <= i < |entries| ==> !Hit(entries, i, start, end, container)
    {
      var as_: nat := After(off);
      ghost var from := as_;
      while true
        invariant from <= as_ <= |entries|
        invariant forall i :: from <= i < as_ ==> !Hit(entries, i, start, end, container)
        decreases |entries| - as_
      {
        if as_ >= |entries| {
          return None;
        }
        var named := MatchName(as_, container);
        if named {
          if start >= entries[as_].start && start <= entries[as_].end { break; }
          if end >= entries[as_].start && end <= entries[as_].end { break; }
          if start <= entries[as_].start && end >= entries[as_].end { break; }
        }
        as_ := as_ + 1;
      }
      return Some(as_);
    }

    method Add(e: Entry, overlay: bool) returns (off: nat)
      requires e.owner.Some? ==> e.owner.value < |entries|
      modifies this
      ensures entries == AsAdd(old(entries), e, overlay) && off == |old(entries)|
      ensures |entries| == |old(entries)| + (if overlay then 2 else 1)
      ensures forall i :: 0 <= i < |old(entries)| ==>
                entries[i] == if e.owner == Some(i) then old(entries[i]).(attr := old(entries[i]).attr.(kids := true))
                              else old(entries[i])
      ensures entries[off] == if overlay then e.(attr := e.attr.(kids := true)) else e
      ensures overlay ==> entries[off + 1] == Entry(e.start, e.end, e.attr, "io", Some(off))
      decreases overlay
    {
      off := |entries|;
      entries := entries + [e];
      if e.owner.Some? {
        var own := entries[e.owner.value];
        entries := entries[e.owner.value := own.(attr := own.attr.(kids := true))];
      }
      assert entries == AddEntry(old(entries), e);
      if overlay {
        var _ := Add(e.(name := "io", owner := Some(off)), false);
      }
    }

    /** The first loop: collect the ranges. */
    method Collect(start: nat, end: nat, container: string) returns (list: seq<Range>)
      requires WellFormed(entries)
      ensures list == RangesOf(entries, start, end, container)
    {
      hide SplitFrom;
      hide Insert;
      list := [];
      var owner: Option<nat> := None;
      ghost var from: nat := 0;
      while true
        invariant After(owner) == from <= |entries|
        invariant SplitFrom(entries, from, start, end, container, list)
                  == SplitFrom(entries, 0, start, end, container, [])
        decreases |entries| - from
      {
        owner := FindContaining(owner, start, end, container);
        if owner.None? {
          NoMoreHits(entries, from, |entries|, start, end, container, list);
          NothingToSplit(entries, start, end, container, list);
          break;
        }
        NoMoreHits(entries, from, owner.value, start, end, container, list);
        HitSplits(entries, owner.value, start, end, container, list);
        var as_ := entries[owner.value];
        var pieceStart := start;
        if as_.start > pieceStart { pieceStart := as_.start; }
        var pieceEnd := end;
        if as_.end < pieceEnd { pieceEnd := as_.end; }
        list := Place(list, pieceStart, pieceEnd, owner.value);
        from := owner.value + 1;
      }
      SplitInsertsPieces(entries, 0, start, end, container, []);
    }

    /** The inner loop: walk the list to the range that holds the piece's start, and split it. */
    method Place(list: seq<Range>, pieceStart: nat, pieceEnd: nat, owner: nat) returns (list': seq<Range>)
      ensures list' == Insert(list, Range(pieceStart, pieceEnd, owner))
    {
      list' := list;
      var new_ := Range(pieceStart, pieceEnd, owner);
      var i := 0;
      while true
        invariant i <= |list| && list' == list
        invariant forall j :: 0 <= j < i ==> !Holds(list[j], pieceStart)
        decreases |list| - i
      {
        if i == |list| {
          FirstHoldingIs(list, pieceStart, i);
          list' := list' + [new_];
          break;
        }
        var curr := list'[i];
        if curr.start <= pieceStart && curr.end >= pieceStart {
          FirstHoldingIs(list, pieceStart, i);
          if curr.start == pieceStart && curr.end == pieceEnd {
            list' := list'[..i] + [curr.(owner := owner)] + list'[i + 1..];
            break;
          }
          if curr.start == pieceStart {
            list' := list'[..i] + [new_, curr.(start := (pieceEnd + 1) % WRAP)] + list'[i + 1..];
            break;
          }
          var oldEnd := curr.end;
          curr := curr.(end := pieceStart - 1);
          var third := if oldEnd != pieceEnd then [Range((pieceEnd + 1) % WRAP, oldEnd, curr.owner)] else [];
          list' := list'[..i] + ([curr, new_] + third) + list'[i + 1..];
          break;
        }
        i := i + 1;
      }
    }

    /** The second loop: add the ranges that are not inside out, each CONTINUED. */
    method AddRanges(ranges: seq<Range>, attr: Attr, name: string) returns (startOff: Option<nat>, off: nat)
      requires OwnersBelow(ranges, |entries|)
      modifies this
      ensures entries == Emit(old(entries), ranges, attr, name)
      ensures startOff == if |entries| == |old(entries)| then None else Some(|old(entries)|)
      ensures startOff.Some? ==> off == |entries| - 1
    {
      ghost var t0 := entries;
      var list := ranges;
      startOff := None;
      off := 0;
      while list != []
        invariant |entries| >= |t0| && OwnersBelow(list, |entries|)
        invariant Emit(entries, list, attr, name) == Emit(t0, ranges, attr, name)
        invariant startOff == if |entries| == |t0| then None else Some(|t0|)
        invariant startOff.Some? ==> off == |entries| - 1
        decreases |list|
      {
        if list[0].start <= list[0].end {
          off := Add(Entered(list[0], attr, name), false);
          if startOff.None? {
            startOff := Some(off);
          }
        }
        list := list[1..];
      }
    }

    /** The last loop: walk the chain and lay a copy of each entry over it. */
    method OverlayChain(startOff: nat, attr: Attr, name: string)
      requires startOff < |entries|
      requires forall j :: startOff <= j < |entries| ==> entries[j].attr.continued == (j < |entries| - 1)
      modifies this
      ensures entries == Overlay(old(entries), startOff, |old(entries)|, attr, name)
    {
      ghost var t0 := entries;
      ghost var stop := |entries|;
      var off := startOff;
      while true
        invariant startOff <= off < stop <= |entries|
        invariant Overlay(entries, off, stop, attr, name) == Overlay(t0, startOff, stop, attr, name)
        invariant forall j :: off <= j < stop ==> entries[j].attr.continued == (j < stop - 1)
        decreases stop - off
      {
        var as_ := entries[off];
        var _ := Add(Entry(as_.start, as_.end, attr, name, Some(off)), false);
        if !as_.attr.continued {
          break;
        }
        off := off + 1;
      }
    }

    /** as_add_containing. */
    method AddContaining(start: nat, end: nat, attr: Attr, overlay: bool, name: string, container: string)
      returns (startOff: Option<nat>)
      requires WellFormed(entries)
      modifies this
      ensures (entries, startOff) == Filed(old(entries), start, end, attr, overlay, name, container)
    {
      var list := Collect(start, end, container);
      var off;
      startOff, off := AddRanges(list, attr.(continued := true), name);
      if startOff.Some? {
        ChainFlags(old(entries), list, attr.(continued := true), name);
        entries := entries[off := entries[off].(attr := entries[off].attr.(continued := false))];
        if overlay {
          OverlayChain(startOff.value, attr, name);
        }
      }
    }
  }

  lemma {:induction false} FirstHoldingIs(list: seq<Range>, a: int, k: nat)
    requires k <= |list| && (k < |list| ==> Holds(list[k], a))
    requires forall i :: 0 <= i < k ==> !Holds(list[i], a)
    ensures FirstHolding(list, a) == k
  {
  }

  lemma NothingToSplit(t: Table, start: nat, end: nat, container: string, list: seq<Range>)
    requires WellFormed(t)
    ensures SplitFrom(t, |t|, start, end, container, list) == list
  {
  }

  lemma HitSplits(t: Table, i: nat, start: nat, end: nat, container: string, list: seq<Range>)
    requires WellFormed(t) && i < |t| && Hit(t, i, start, end, container)
    ensures SplitFrom(t, i, start, end, container, list)
            == SplitFrom(t, i + 1, start, end, container, Insert(list, Piece(t, i, start, end)))
  {
  }

  lemma {:induction false} NoMoreHits(t: Table, from: nat, stop: nat, start: nat, end: nat, container: string, list: seq<Range>)
    requires WellFormed(t) && from <= stop <= |t|
    requires forall i :: from <= i < stop ==> !Hit(t, i, start, end, container)
    ensures SplitFrom(t, from, start, end, container, list) == SplitFrom(t, stop, start, end, container, list)
    decreases stop - from
  {
    if from < stop {
      NoMoreHits(t, from + 1, stop, start, end, container, list);
    }
  }

  /** Everything emitted carries the continued flag it was given. */
  lemma {:induction false} ChainFlags(t: Table, list: seq<Range>, attr: Attr, name: string)
    requires OwnersBelow(list, |t|)
    ensures var t' := Emit(t, list, attr, name);
            && (forall j :: |t| <= j < |t'| ==> t'[j].attr.continued == attr.continued)
            && (forall j :: 0 <= j < |t| ==> t'[j].attr.continued == t[j].attr.continued)
    decreases |list|
  {
    if list != [] {
      var t1 := if list[0].start <= list[0].end then AddEntry(t, Entered(list[0], attr, name)) else t;
      ChainFlags(t1, list[1..], attr, name);
    }
  }

  // ---- what the pieces are --------------------------------------------------------------------------

  /** The piece is that of a hit at or behind `from`. */
  ghost predicate OfHit(t: Table, piece: Range, from: nat, start: nat, end: nat, container: string)
    requires WellFormed(t)
  {
    && from <= piece.owner < |t|
    && Hit(t, piece.owner, start, end, container)
    && piece == Piece(t, piece.owner, start, end)
  }

  lemma {:induction false} PieceIsHit(t: Table, from: nat, start: nat, end: nat, container: string, i: nat)
    requires WellFormed(t) && from <= |t| && i < |Pieces(t, from, start, end, container)|
    ensures OfHit(t, Pieces(t, from, start, end, container)[i], from, start, end, container)
    decreases |t| - from
  {
    hide Hit;
    hide Piece;
    if from < |t| {
      PiecesFrom(t, from, start, end, container);
      PieceOwner(t, from, start, end);
      if !Hit(t, from, start, end, container) {
        PieceIsHit(t, from + 1, start, end, container, i);
      } else if i > 0 {
        PieceIsHit(t, from + 1, start, end, container, i - 1);
      }
    }
  }

  /** The pieces from one entry on: the entry's, if it is a hit, and those behind it. */
  lemma PiecesFrom(t: Table, from: nat, start: nat, end: nat, container: string)
    requires WellFormed(t) && from < |t|
    ensures var pieces, rest := Pieces(t, from, start, end, container), Pieces(t, from + 1, start, end, container);
            if Hit(t, from, start, end, container) then
              && |pieces| == |rest| + 1
              && pieces[0] == Piece(t, from, start, end)
              && forall i :: 1 <= i < |pieces| ==> pieces[i] == rest[i - 1]
            else pieces == rest
  {
  }

  lemma PiecesHaveOwners(t: Table, start: nat, end: nat, container: string)
    requires WellFormed(t)
    ensures OwnersBelow(Pieces(t, 0, start, end, container), |t|)
  {
    var pieces := Pieces(t, 0, start, end, container);
    forall i | 0 <= i < |pieces| ensures pieces[i].owner < |t| {
      PieceIsHit(t, 0, start, end, container, i);
    }
  }

  lemma PieceOwner(t: Table, i: nat, start: nat, end: nat)
    requires i < |t|
    ensures Piece(t, i, start, end).owner == i
  {
  }

  // ---- the filed table -----------------------------------------------------------------------------

  function WithKids(e: Entry, kids: bool): Entry {
    e.(attr := e.attr.(kids := e.attr.kids || kids))
  }

  ghost predicate Owns(list: seq<Range>, i: nat) {
    exists j :: 0 <= j < |list| && list[j].owner == i
  }

  lemma {:induction false} EmitClosed(t: Table, list: seq<Range>, attr: Attr, name: string, n: nat)
    requires OwnersBelow(list, n) && n <= |t| && Real(list)
    ensures var t' := Emit(t, list, attr, name);
            && |t'| == |t| + |list|
            && (forall i :: 0 <= i < n ==> t'[i] == WithKids(t[i], Owns(list, i)))
            && (forall i :: n <= i < |t| ==> t'[i] == t[i])
            && (forall j :: 0 <= j < |list| ==> t'[|t| + j] == Entered(list[j], attr, name))
    decreases |list|
  {
    hide WithKids;
    hide Owns;
    if list != [] {
      var t1 := AddEntry(t, Entered(list[0], attr, name));
      var rest := list[1..];
      assert forall j :: 0 <= j < |rest| ==> rest[j] == list[j + 1];
      EmitClosed(t1, rest, attr, name, n);
      var t' := Emit(t, list, attr, name);
      forall i | 0 <= i < n ensures t'[i] == WithKids(t[i], Owns(list, i)) {
        AddedEntry(t, Entered(list[0], attr, name), i);
        OwnsMore(list, i);
        KidsTwice(t[i], list[0].owner == i, Owns(rest, i));
      }
      forall j | 0 <= j < |list| ensures t'[|t| + j] == Entered(list[j], attr, name) {
        assert j > 0 ==> t'[|t1| + (j - 1)] == Entered(rest[j - 1], attr, name);
      }
    } else {
      forall i | 0 <= i < n ensures t[i] == WithKids(t[i], Owns(list, i)) {
        OwnsMore(list, i);
        KidsTwice(t[i], false, false);
      }
    }
  }

  lemma AddedEntry(t: Table, e: Entry, i: nat)
    requires i < |t| && e.owner.Some? && e.owner.value < |t|
    ensures AddEntry(t, e)[i] == WithKids(t[i], e.owner.value == i)
  {
  }

  lemma OwnsMore(list: seq<Range>, i: nat)
    ensures Owns(list, i) <==> list != [] && (list[0].owner == i || Owns(list[1..], i))
  {
    if list != [] {
      var rest := list[1..];
      assert forall j :: 0 <= j < |rest| ==> rest[j] == list[j + 1];
      if Owns(list, i) {
        var j :| 0 <= j < |list| && list[j].owner == i;
        assert j > 0 ==> rest[j - 1].owner == i;
      }
    }
  }

  lemma LastAdded(t: Table, e: Entry)
    requires e.owner.Some? && e.owner.value < |t|
    ensures |AddEntry(t, e)| == |t| + 1 && AddEntry(t, e)[|t|] == e
  {
  }

  lemma KidsKeep(e: Entry, kids: bool)
    ensures WithKids(e, kids).start == e.start && WithKids(e, kids).end == e.end
  {
  }

  lemma KidsTwice(e: Entry, a: bool, b: bool)
    ensures WithKids(WithKids(e, a), b) == WithKids(e, a || b) && WithKids(e, false) == e
  {
  }

  lemma {:induction false} OverlayClosed(t: Table, off: nat, stop: nat, attr: Attr, name: string)
    requires off <= stop <= |t|
    ensures var t' := Overlay(t, off, stop, attr, name);
            && |t'| == |t| + (stop - off)
            && (forall i :: 0 <= i < |t| ==> t'[i] == WithKids(t[i], off <= i < stop))
            && (forall i :: off <= i < stop ==>
                  t'[|t| + (i - off)] == Entry(t[i].start, t[i].end, attr, name, Some(i)))
    decreases stop - off
  {
    hide WithKids;
    if off < stop {
      var e := Entry(t[off].start, t[off].end, attr, name, Some(off));
      forall i | 0 <= i < |t| ensures AddEntry(t, e)[i] == WithKids(t[i], i == off) {
        AddedEntry(t, e, i);
      }
      LastAdded(t, e);
      KidsTwice(e, false, false);
      hide AddEntry;
      OverlayClosed(AddEntry(t, e), off + 1, stop, attr, name);
      forall i | 0 <= i < |t| ensures WithKids(WithKids(t[i], i == off), off + 1 <= i < stop) == WithKids(t[i], off <= i < stop) {
        KidsTwice(t[i], i == off, off + 1 <= i < stop);
      }
      forall i | off <= i < stop ensures WithKids(t[i], i == off).start == t[i].start && WithKids(t[i], i == off).end == t[i].end {
        KidsKeep(t[i], i == off);
      }
    } else {
      forall i | 0 <= i < |t| ensures WithKids(t[i], false) == t[i] {
        KidsTwice(t[i], false, false);
      }
    }
  }

  /** The last entry of the table that is a matching container holding address a. */
  ghost predicate LastContainer(t: Table, o: nat, a: int, container: string)
    requires WellFormed(t)
  {
    && o < |t| && HasName(t, o, container) && t[o].start <= a <= t[o].end
    && forall i :: o < i < |t| && HasName(t, i, container) ==> !(t[i].start <= a <= t[i].end)
  }

  lemma {:induction false} HolderIsContainer(t: Table, from: nat, start: nat, end: nat, container: string, a: int)
    requires WellFormed(t) && from <= |t|
    ensures var holder := LastHolder(Pieces(t, from, start, end, container), a);
            && (holder.Some? ==>
                  start <= a <= end && from <= holder.value && LastContainer(t, holder.value, a, container))
            && (holder.None? && start <= a <= end ==>
                  forall i :: from <= i < |t| && HasName(t, i, container) ==> !(t[i].start <= a <= t[i].end))
    decreases |t| - from
  {
    if from < |t| {
      HolderIsContainer(t, from + 1, start, end, container, a);
      var rest := Pieces(t, from + 1, start, end, container);
      var first := if Hit(t, from, start, end, container) then [Piece(t, from, start, end)] else [];
      HolderOfConcat(first, rest, a);
    }
  }

  lemma {:induction false} HolderOfConcat(a: seq<Range>, b: seq<Range>, x: int)
    ensures LastHolder(a + b, x) == if LastHolder(b, x).Some? then LastHolder(b, x) else LastHolder(a, x)
    decreases |b|
  {
    if b == [] {
      assert a + b == a;
    } else {
      var n := |b| - 1;
      assert (a + b)[..|a + b| - 1] == a + b[..n];
      HolderOfConcat(a, b[..n], x);
    }
  }

  /** The entries filed: one per range, each the last matching container's over all its
      addresses, no address twice, none of the request's contained addresses missed. */
  ghost predicate Partition(t: Table, list: seq<Range>, start: nat, end: nat, container: string)
    requires WellFormed(t)
  {
    && Real(list)
    && PairwiseDisjoint(list)
    && (forall j, a :: 0 <= j < |list| && Holds(list[j], a) ==>
          start <= a <= end && LastContainer(t, list[j].owner, a, container))
    && (forall i, a :: 0 <= i < |t| && HasName(t, i, container) && start <= a <= end && t[i].start <= a <= t[i].end ==>
          FirstHolding(list, a) < |list|)
  }

  lemma PiecesAreReal(t: Table, start: nat, end: nat, container: string)
    requires WellFormed(t) && start <= end
    ensures Real(Pieces(t, 0, start, end, container))
  {
    var pieces := Pieces(t, 0, start, end, container);
    forall i | 0 <= i < |pieces| ensures pieces[i].start <= pieces[i].end < WRAP {
      PieceIsHit(t, 0, start, end, container, i);
      HitIsReal(t, pieces[i].owner, start, end, container);
    }
  }

  lemma HitIsReal(t: Table, i: nat, start: nat, end: nat, container: string)
    requires WellFormed(t) && start <= end && i < |t| && Hit(t, i, start, end, container)
    ensures var piece := Piece(t, i, start, end); piece.start <= piece.end < WRAP
  {
  }

  lemma RangeOwnedByLastContainer(t: Table, list: seq<Range>, start: nat, end: nat, container: string, j: nat, a: int)
    requires WellFormed(t) && OwnedByLast(list, Pieces(t, 0, start, end, container))
    requires j < |list| && Holds(list[j], a)
    ensures start <= a <= end && LastContainer(t, list[j].owner, a, container)
  {
    HolderIsContainer(t, 0, start, end, container, a);
  }

  lemma ContainedAddressIsHeld(t: Table, list: seq<Range>, start: nat, end: nat, container: string, i: nat, a: int)
    requires WellFormed(t) && Covers(list, Pieces(t, 0, start, end, container))
    requires i < |t| && HasName(t, i, container) && start <= a <= end && t[i].start <= a <= t[i].end
    ensures FirstHolding(list, a) < |list|
  {
    HolderIsContainer(t, 0, start, end, container, a);
  }

  lemma LivePartitionIsPartition(t: Table, live: seq<Range>, start: nat, end: nat, container: string)
    requires WellFormed(t) && LivePartition(live, Pieces(t, 0, start, end, container))
    ensures Partition(t, live, start, end, container)
  {
    forall j, a | 0 <= j < |live| && Holds(live[j], a)
      ensures start <= a <= end && LastContainer(t, live[j].owner, a, container)
    {
      RangeOwnedByLastContainer(t, live, start, end, container, j, a);
    }
    forall i, a | 0 <= i < |t| && HasName(t, i, container) && start <= a <= end && t[i].start <= a <= t[i].end
      ensures FirstHolding(live, a) < |live|
    {
      ContainedAddressIsHeld(t, live, start, end, container, i, a);
    }
  }

  /** For any containers in any order: the ranges filed are such a partition, and indeed no
      address is filed twice, if and only if every piece is ok when its turn comes. */
  lemma FiledPartitionExactly(t: Table, start: nat, end: nat, container: string)
    requires WellFormed(t) && start <= end
    ensures var live, ok := FiledRanges(t, start, end, container), StepsOk([], Pieces(t, 0, start, end, container));
            && (Partition(t, live, start, end, container) <==> ok)
            && (PairwiseDisjoint(live) <==> ok)
            && Real(live)
  {
    var pieces := Pieces(t, 0, start, end, container);
    PiecesAreReal(t, start, end, container);
    LivePartitionExactly(pieces);
    if StepsOk([], pieces) {
      LivePartitionIsPartition(t, FiledRanges(t, start, end, container), start, end, container);
    }
  }

  /** In particular when the containers found are laminar in table order. */
  lemma LaminarContainersArePartitioned(t: Table, start: nat, end: nat, container: string)
    requires WellFormed(t) && start <= end
    requires Laminar(Pieces(t, 0, start, end, container))
    ensures StepsOk([], Pieces(t, 0, start, end, container))
    ensures Partition(t, FiledRanges(t, start, end, container), start, end, container)
  {
    var pieces := Pieces(t, 0, start, end, container);
    PiecesAreReal(t, start, end, container);
    assert [] + pieces == pieces;
    LaminarStepsOk([], [], pieces);
    FiledPartitionExactly(t, start, end, container);
  }

  /** The table after as_add_containing: the old entries with their KIDS bits, one contiguous
      chain of ranges whose last entry alone is not CONTINUED, and the overlay copies. */
  ghost predicate FiledAs(t: Table, list: seq<Range>, t': Table, attr: Attr, overlay: bool, name: string) {
    var n, m := |t|, |list|;
    && |t'| == n + m + (if overlay then m else 0)
    && (forall i :: 0 <= i < n ==> t'[i] == WithKids(t[i], Owns(list, i)))
    && (forall j :: 0 <= j < m ==>
          t'[n + j] == WithKids(Entered(list[j], attr.(continued := j < m - 1), name), overlay))
    && (overlay ==> forall j :: 0 <= j < m ==>
          t'[n + m + j] == Entry(list[j].start, list[j].end, attr, name, Some(n + j)))
  }

  /** The chain before the overlay: all ranges CONTINUED but the last. */
  lemma ChainFiled(t: Table, list: seq<Range>, attr: Attr, name: string)
    requires OwnersBelow(list, |t|) && Real(list) && list != []
    ensures var t1 := Emit(t, list, attr.(continued := true), name);
            && |t1| == |t| + |list|
            && FiledAs(t, list, EndChain(t1), attr, false, name)
  {
    hide Emit;
    var flagged := attr.(continued := true);
    EmitClosed(t, list, flagged, name, |t|);
    var t1 := Emit(t, list, flagged, name);
    var t2 := EndChain(t1);
    forall j | 0 <= j < |list|
      ensures t2[|t| + j] == WithKids(Entered(list[j], attr.(continued := j < |list| - 1), name), false)
    {
      assert t1[|t| + j] == Entered(list[j], flagged, name);
    }
  }

  lemma OverlayFiled(t: Table, list: seq<Range>, t2: Table, attr: Attr, name: string)
    requires FiledAs(t, list, t2, attr, false, name)
    ensures FiledAs(t, list, Overlay(t2, |t|, |t2|, attr, name), attr, true, name)
  {
    hide WithKids;
    hide Overlay;
    hide Owns;
    var n, m := |t|, |list|;
    OverlayClosed(t2, n, |t2|, attr, name);
    var t' := Overlay(t2, n, |t2|, attr, name);
    forall j | 0 <= j < m
      ensures t'[n + j] == WithKids(Entered(list[j], attr.(continued := j < m - 1), name), true)
    {
      assert t'[n + j] == WithKids(t2[n + j], true);
      KidsTwice(Entered(list[j], attr.(continued := j < m - 1), name), false, true);
    }
    forall j | 0 <= j < m ensures t'[n + m + j] == Entry(list[j].start, list[j].end, attr, name, Some(n + j)) {
      OverlayStretch(t2, n + j, t'[|t2| + (n + j - n)], Entered(list[j], attr.(continued := j < m - 1), name), attr, name);
    }
    forall i | 0 <= i < n ensures t'[i] == WithKids(t[i], Owns(list, i)) {
      assert t'[i] == WithKids(t2[i], false);
      KidsTwice(t2[i], false, false);
    }
  }

  /** The copy laid over an entry has the entry's stretch. */
  lemma OverlayStretch(t2: Table, i: nat, copy: Entry, e: Entry, attr: Attr, name: string)
    requires i < |t2| && t2[i] == WithKids(e, false)
    requires copy == Entry(t2[i].start, t2[i].end, attr, name, Some(i))
    ensures copy == Entry(e.start, e.end, attr, name, Some(i))
  {
  }

  /** The emission guard: what holds nothing is not filed. */
  lemma {:induction false} EmitsLive(t: Table, list: seq<Range>, attr: Attr, name: string)
    requires OwnersBelow(list, |t|)
    ensures OwnersBelow(Live(list), |t|)
    ensures Emit(t, list, attr, name) == Emit(t, Live(list), attr, name)
    decreases |list|
  {
    if list != [] {
      var rest := list[1..];
      if Alive(list[0]) {
        EmitsLive(AddEntry(t, Entered(list[0], attr, name)), rest, attr, name);
        LiveOwners(rest, |t|);
        assert Live(list) == [list[0]] + Live(rest);
        assert Live(list)[1..] == Live(rest);
      } else {
        EmitsLive(t, rest, attr, name);
        assert Live(list) == Live(rest);
      }
    }
  }

  lemma LiveOwners(list: seq<Range>, n: nat)
    requires OwnersBelow(list, n)
    ensures OwnersBelow(Live(list), n)
  {
    forall p | 0 <= p < |Live(list)| ensures Live(list)[p].owner < n {
      var i := LiveFrom(list, p);
    }
  }

  /** Field by field: the containers that got a range have kids, each range is an entry of the name
      under its container, and the copies carry the name and attributes as given. */
  lemma FiledFields(t: Table, list: seq<Range>, t': Table, attr: Attr, overlay: bool, name: string)
    requires FiledAs(t, list, t', attr, overlay, name)
    ensures forall i :: 0 <= i < |t| ==>
              && t'[i].start == t[i].start && t'[i].end == t[i].end && t'[i].name == t[i].name && t'[i].owner == t[i].owner
              && t'[i].attr.continued == t[i].attr.continued && t'[i].attr.others == t[i].attr.others
              && (t'[i].attr.kids <==> t[i].attr.kids || exists j :: 0 <= j < |list| && list[j].owner == i)
    ensures forall j :: 0 <= j < |list| ==>
              t'[|t| + j] == Entry(list[j].start, list[j].end, Attr(j < |list| - 1, attr.kids || overlay, attr.others),
                                   name, Some(list[j].owner))
    ensures overlay ==> forall j :: 0 <= j < |list| ==>
              t'[|t| + |list| + j] == Entry(list[j].start, list[j].end, attr, name, Some(|t| + j))
  {
  }

  /** Whatever the list is, its live ranges are filed, one entry each. */
  lemma FiledEntries(t: Table, start: nat, end: nat, attr: Attr, overlay: bool, name: string, container: string)
    requires WellFormed(t) && start <= end
    ensures var live := FiledRanges(t, start, end, container);
            var (t', off) := Filed(t, start, end, attr, overlay, name, container);
            && off == (if live == [] then None else Some(|t|))
            && FiledAs(t, live, t', attr, overlay, name)
  {
    var list := RangesOf(t, start, end, container);
    var live := Live(list);
    EmitsLive(t, list, attr.(continued := true), name);
    FiledPartitionExactly(t, start, end, container);
    if live == [] {
      assert forall i :: 0 <= i < |t| ==> t[i] == WithKids(t[i], Owns(live, i));
    } else {
      ChainFiled(t, live, attr, name);
      if overlay {
        OverlayFiled(t, live, EndChain(Emit(t, live, attr.(continued := true), name)), attr, name);
      }
    }
  }

  /** The whole of as_add_containing: the live ranges are filed as one chain, and they are a
      partition of the contained addresses if and only if every piece is ok in its turn. */
  lemma ContainingIsFiledExactly(t: Table, start: nat, end: nat, attr: Attr, overlay: bool,
                                 name: string, container: string)
    requires WellFormed(t) && start <= end
    ensures var live := FiledRanges(t, start, end, container);
            var (t', off) := Filed(t, start, end, attr, overlay, name, container);
            && off == (if live == [] then None else Some(|t|))
            && FiledAs(t, live, t', attr, overlay, name)
            && (Partition(t, live, start, end, container) <==> StepsOk([], Pieces(t, 0, start, end, container)))
  {
    FiledEntries(t, start, end, attr, overlay, name, container);
    FiledPartitionExactly(t, start, end, container);
  }

  /** On laminar containers. */
  lemma ContainingIsFiledAsPartition(t: Table, start: nat, end: nat, attr: Attr, overlay: bool,
                                     name: string, container: string)
    requires WellFormed(t) && start <= end
    requires Laminar(Pieces(t, 0, start, end, container))
    ensures var live := FiledRanges(t, start, end, container);
            var (t', off) := Filed(t, start, end, attr, overlay, name, container);
            && Partition(t, live, start, end, container)
            && FiledAs(t, live, t', attr, overlay, name)
            && off == (if live == [] then None else Some(|t|))
  {
    LaminarContainersArePartitioned(t, start, end, container);
    FiledEntries(t, start, end, attr, overlay, name, container);
  }

  /** Two entries filed by the call share an address. */
  ghost predicate FiledTwice(t: Table, t': Table, m: nat) {
    exists i, j :: |t| <= i < j < |t| + m && j < |t'| && t'[i].start <= t'[j].end && t'[j].start <= t'[i].end
  }

  /** A piece that is not ok shows in the table. */
  lemma BadPieceIsFiledTwice(t: Table, start: nat, end: nat, attr: Attr, overlay: bool, name: string, container: string)
    requires WellFormed(t) && start <= end && !StepsOk([], Pieces(t, 0, start, end, container))
    ensures FiledTwice(t, Filed(t, start, end, attr, overlay, name, container).0, |FiledRanges(t, start, end, container)|)
  {
    var live := FiledRanges(t, start, end, container);
    FiledEntries(t, start, end, attr, overlay, name, container);
    FiledPartitionExactly(t, start, end, container);
    var t' := Filed(t, start, end, attr, overlay, name, container).0;
    var i, j :| 0 <= i < j < |live| && !Disjoint(live[i], live[j]);
    assert t'[|t| + i].start == live[i].start && t'[|t| + i].end == live[i].end;
    assert t'[|t| + j].start == live[j].start && t'[|t| + j].end == live[j].end;
  }

  // ---- the two ways it fails ---------------------------------------------------------------------------

  const PLAIN: Attr := Attr(false, false, 0)

  function TwoContainers(a: (nat, nat), b: (nat, nat)): Table {
    [Entry(a.0, a.1, PLAIN, "ram", None), Entry(b.0, b.1, PLAIN, "ram", None)]
  }

  lemma PiecesOfTwo(a: (nat, nat), b: (nat, nat), end: nat)
    requires a.0 <= a.1 <= end < WRAP && b.0 <= b.1 <= end
    ensures WellFormed(TwoContainers(a, b))
    ensures Pieces(TwoContainers(a, b), 0, 0, end, "ram") == [Range(a.0, a.1, 0), Range(b.0, b.1, 1)]
  {
    var t := TwoContainers(a, b);
    assert Pieces(t, 2, 0, end, "ram") == [];
    assert Hit(t, 1, 0, end, "ram") && Piece(t, 1, 0, end) == Range(b.0, b.1, 1);
    assert Pieces(t, 1, 0, end, "ram") == [Range(b.0, b.1, 1)];
    assert Hit(t, 0, 0, end, "ram") && Piece(t, 0, 0, end) == Range(a.0, a.1, 0);
  }

  lemma SecondStep(first: Range, second: Range)
    ensures StepsOk([], [first, second]) ==> StepOk([first], second)
  {
    var pieces := [first, second];
    assert Insert([], first) == [first];
    assert pieces[1..] == [second];
    assert StepsOk([], pieces) ==> StepsOk([first], [second]);
    assert StepsOk([first], [second]) ==> StepOk([first], [second][0]);
  }

  /** A container found after one it sticks out of to the left: both entries hold 5 to 10. */
  lemma UnorderedContainersOverlap(attr: Attr, overlay: bool, name: string)
    ensures var t := TwoContainers((5, 15), (0, 10));
            && WellFormed(t)
            && !StepsOk([], Pieces(t, 0, 0, 15, "ram"))
            && FiledTwice(t, Filed(t, 0, 15, attr, overlay, name, "ram").0, |FiledRanges(t, 0, 15, "ram")|)
  {
    var t := TwoContainers((5, 15), (0, 10));
    PiecesOfTwo((5, 15), (0, 10), 15);
    SecondStep(Range(5, 15, 0), Range(0, 10, 1));
    assert FirstHolding([Range(5, 15, 0)], 0) == 1;
    assert !Clear([Range(5, 15, 0)][0], Range(0, 10, 1));
    BadPieceIsFiledTwice(t, 0, 15, attr, overlay, name, "ram");
  }

  /** A container that sticks out to the right as far as the last address: its successor wraps
      to 0, and the leftover becomes a range from 0. */
  lemma LastAddressWraps(attr: Attr, overlay: bool, name: string)
    ensures var t := TwoContainers((0x1000, 0x1FFF), (0x1800, WRAP - 1));
            && WellFormed(t)
            && !StepsOk([], Pieces(t, 0, 0, WRAP - 1, "ram"))
            && Range(0, 0x1FFF, 0) in FiledRanges(t, 0, WRAP - 1, "ram")
            && FiledTwice(t, Filed(t, 0, WRAP - 1, attr, overlay, name, "ram").0, |FiledRanges(t, 0, WRAP - 1, "ram")|)
  {
    var t := TwoContainers((0x1000, 0x1FFF), (0x1800, WRAP - 1));
    var first, second := Range(0x1000, 0x1FFF, 0), Range(0x1800, WRAP - 1, 1);
    PiecesOfTwo((0x1000, 0x1FFF), (0x1800, WRAP - 1), WRAP - 1);
    SecondStep(first, second);
    assert FirstHolding([first], 0x1800) == 0;
    BadPieceIsFiledTwice(t, 0, WRAP - 1, attr, overlay, name, "ram");
    var list := Insert([first], second);
    WrappedParts(first, second);
    var pieces := [first, second];
    assert pieces[1..] == [second] && [second][1..] == [];
    assert Insert([], first) == [first];
    assert InsertAll([], pieces) == InsertAll([first], [second]) == InsertAll(list, []) == list;
    assert list == [] + SplitAt(first, second) + [];
    var p := LiveAt(list, |list| - 1);
  }
}
