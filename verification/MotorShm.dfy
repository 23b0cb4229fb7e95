/**
 The functions of src/giga_spi_8adc/motor_shm.h and the poll of
 src/shm_sender/shm_reader_c.c as they run when nothing interrupts them.  Each call is
 tied to the steps the interleaving machines are made of: the lock word and the data
 words move exactly as WriterStep and ReaderStep move them.
 */
module MotorShm {
  import opened Common
  import opened Seqlock
  import MotorSnapshot
  import MotorRing

  /** A lock word and the words it guards.  `begun` and `versions` are history. */
  class LockedWords {
    var lock: nat
    const words: array<Word>
    ghost var begun: nat
    ghost var versions: seq<seq<Word>>

    constructor (size: nat)
      ensures fresh(words) && words.Length == size && Valid() && lock == 0
    {
      lock := 0;
      words := new Word[size](_ => 0);
      begun := 0;
      new;
      versions := [words[..]];
    }

    ghost function AsRecord(): Record
      reads this, words
    {
      Record(lock, words[..], begun, versions)
    }

    ghost predicate Valid()
      reads this, words
    {
      WriterInv(AsRecord(), Finished)
    }

    /** The seqlock publish of motor_snapshot_publish and motor_ring_publish. */
    method Publish(todo: seq<Write>)
      requires Valid() && InRange(todo, words.Length)
      modifies this, words
      ensures Valid()
      ensures AsRecord() == Published(old(AsRecord()), todo)
      ensures AsRecord() == RunWriter(old(AsRecord()), Start(todo))
    {
      ghost var r0 := AsRecord();
      var s0 := lock;
      lock := (s0 + 1) % WRAP;
      begun := begun + 1;
      var i: nat := 0;
      while i < |todo|
        invariant i <= |todo| && InRange(todo[i..], words.Length)
        invariant lock == (s0 + 1) % WRAP && begun == r0.begun + 1 && versions == r0.versions
        invariant Apply(words[..], todo[i..]) == Apply(r0.words, todo)
      {
        assert todo[i..][1..] == todo[i + 1..] && todo[i..][0] == todo[i];
        ghost var before := words[..];
        words[todo[i].index] := todo[i].value;
        assert words[..] == before[todo[i].index := todo[i].value];
        i := i + 1;
      }
      lock := (s0 + 2) % WRAP;
      versions := versions + [words[..]];
      PublishAlone(r0, todo);
      PublishedKeepsInv(r0, todo);
    }

    /** The seqlock read of motor_snapshot_read and motor_ring_read_slot: 64 attempts. */
    method Read(shape: Shape) returns (ok: bool, copied: seq<Word>, ghost steps: nat)
      requires Fits(shape, words.Length) && |versions| >= 1
      ensures ok <==> lock % 2 == 0
      ensures ok ==> copied == Content(shape, words[..])
      ensures ReadAlone(AsRecord(), Try(0), shape, steps)
              == if ok then Success(copied, |versions| - 1, begun) else Failure
    {
      ghost var r := AsRecord();
      var tries := 0;
      steps := 0;
      while tries < MAX_TRIES
        invariant tries <= MAX_TRIES
        invariant tries > 0 ==> lock % 2 == 1
        invariant ReadAlone(r, Try(0), shape, steps) == Try(tries)
      {
        var s1 := lock;
        steps := steps + 1;
        if s1 % 2 == 1 {
          tries := tries + 1;
          continue;
        }
        copied, steps := CopyOut(shape, tries, steps);
        var s2 := lock;
        steps := steps + 1;
        if s1 == s2 {
          return true, copied, steps;
        }
        tries := tries + 1;
      }
      steps := steps + 1;
      return false, [], steps;
    }

    /** The copy between the two loads of the lock word. */
    method CopyOut(shape: Shape, tries: nat, ghost steps0: nat) returns (copied: seq<Word>, ghost steps: nat)
      requires Fits(shape, words.Length) && |versions| >= 1
      requires ReadAlone(AsRecord(), Try(0), shape, steps0) == Copy(tries, lock, [], |versions| - 1)
      ensures copied == Content(shape, words[..])
      ensures ReadAlone(AsRecord(), Try(0), shape, steps) == Copy(tries, lock, copied, |versions| - 1)
      ensures |copied| == Needed(shape, copied)
    {
      hide Needed;
      hide Content;
      ghost var r := AsRecord();
      copied := [];
      steps := steps0;
      NeededFits(shape, copied, words.Length);
      NeededFits(shape, words[..], words.Length);
      while |copied| < Needed(shape, copied)
        invariant |copied| <= Needed(shape, copied) <= words.Length && copied == words[..|copied|]
        invariant ReadAlone(r, Try(0), shape, steps) == Copy(tries, lock, copied, |versions| - 1)
        decreases words.Length - |copied|
      {
        copied := copied + [words[|copied|]];
        NeededFits(shape, copied, words.Length);
        GrowsByOne(shape, copied);
        steps := steps + 1;
      }
      WholePrefix(shape, words[..], copied);
    }
  }

  /** What is needed is known after the first word, and at least that word is. */
  lemma GrowsByOne(shape: Shape, copied: seq<Word>)
    requires copied != [] && Needed(shape, copied[..|copied| - 1]) >= |copied|
    requires shape.Counted? ==> shape.header > 0
    ensures Needed(shape, copied) >= |copied|
  {
  }

  // ---- the snapshot -------------------------------------------------------------------------

  class Snapshot {
    const cell: LockedWords

    constructor ()
      ensures Valid() && fresh(cell) && fresh(cell.words)
    {
      cell := new LockedWords(ROW_WORDS + 3);
    }

    ghost predicate Valid()
      reads cell, cell.words
    {
      cell.words.Length == ROW_WORDS + 3 && cell.Valid()
    }

    /** motor_snapshot_publish: the stores are those of the interleaving machine's Publish action. */
    method Publish(row: Row, producerSeq: Word, timestamp: Word, flags: Word)
      requires Valid()
      modifies cell, cell.words
      ensures Valid()
      ensures var sample := MotorSnapshot.Sample(row, producerSeq, timestamp, flags);
              && cell.words[..] == MotorSnapshot.Encode(sample)
              && cell.AsRecord() == RunWriter(old(cell.AsRecord()), Start(Sequentially(MotorSnapshot.Encode(sample), 0)))
    {
      var words := MotorSnapshot.Encode(MotorSnapshot.Sample(row, producerSeq, timestamp, flags));
      ApplySequentially(words, 0, cell.words[..]);
      assert Apply(cell.words[..], Sequentially(words, 0)) == words;
      cell.Publish(Sequentially(words, 0));
    }

    /** motor_snapshot_read: what the last publish stored. */
    method Read() returns (ok: bool, row: Row, producerSeq: Word, timestamp: Word, flags: Word)
      requires Valid()
      ensures ok
      ensures cell.words[..] == MotorSnapshot.Encode(MotorSnapshot.Sample(row, producerSeq, timestamp, flags))
    {
      EvenLock(cell.AsRecord(), Finished);
      var copied, _ := [], 0;
      ghost var steps;
      ok, copied, steps := cell.Read(MotorSnapshot.SHAPE);
      row := copied[..ROW_WORDS];
      producerSeq, timestamp, flags := copied[ROW_WORDS], copied[ROW_WORDS + 1], copied[ROW_WORDS + 2];
      assert copied == row + [producerSeq, timestamp, flags];
    }
  }

  // ---- the block ring -----------------------------------------------------------------------

  const U64: nat := 0x1_0000_0000_0000_0000
  const DEPTH: nat := MotorRing.DEPTH

  lemma SlotOfWrapped(n: nat)
    ensures MotorRing.Slot(n % U64) == MotorRing.Slot(n)
  {
    var q := n / U64;
    assert n == n % U64 + (q * 0x1000_0000_0000_0000) * DEPTH;
    MotorRing.SlotOfUse(MotorRing.Slot(n % U64), n % U64 / DEPTH + q * 0x1000_0000_0000_0000);
  }

  class Ring {
    const slots: seq<LockedWords>
    var writePos: nat
    ghost var published: seq<MotorRing.Block>    // every block committed

    /** The slots are sixteen different records. */
    ghost predicate Shaped()
      reads this, slots
    {
      && |slots| == DEPTH
      && (forall j :: 0 <= j < DEPTH ==> slots[j].words.Length == MotorRing.SLOT_WORDS && |slots[j].versions| >= 1)
      && (forall j, k :: 0 <= j < k < DEPTH ==> slots[j] != slots[k] && slots[j].words != slots[k].words)
      && writePos < U64
    }

    ghost function Arrays(): set<object> {
      set j | 0 <= j < |slots| :: slots[j].words as object
    }

    /** The last sixteen blocks are in their slots. */
    ghost predicate Valid()
      reads this, slots, Arrays()
    {
      && Shaped()
      && writePos == |published| % U64
      && (forall j :: 0 <= j < DEPTH ==> slots[j].Valid())
      && (forall p :: 0 <= p < |published| && |published| - DEPTH <= p ==> HoldsBlock(p))
    }

    ghost predicate HoldsBlock(p: nat)
      requires Shaped() && p < |published|
      reads this, slots, Arrays()
    {
      Content(MotorRing.BLOCK_SHAPE, slots[MotorRing.Slot(p)].words[..]) == MotorRing.EncodeBlock(published[p])
    }

    /** motor_shm_region_init. */
    constructor ()
      ensures Valid() && published == [] && writePos == 0
      ensures fresh(slots) && fresh(Arrays())
    {
      var cells: seq<LockedWords> := [];
      while |cells| < DEPTH
        invariant |cells| <= DEPTH
        invariant forall j :: 0 <= j < |cells| ==>
                    && fresh(cells[j]) && fresh(cells[j].words)
                    && cells[j].Valid() && cells[j].words.Length == MotorRing.SLOT_WORDS
        invariant forall j, k :: 0 <= j < k < |cells| ==> cells[j] != cells[k] && cells[j].words != cells[k].words
        decreases DEPTH - |cells|
      {
        var cell := new LockedWords(MotorRing.SLOT_WORDS);
        cells := cells + [cell];
      }
      slots := cells;
      writePos := 0;
      published := [];
    }

    /** motor_ring_publish: store the block in its slot, then advance write_pos. */
    method Publish(frame: MotorRing.Frame)
      requires Valid() && MotorRing.Readable(frame)
      modifies `writePos, `published, slots[MotorRing.Slot(writePos)], slots[MotorRing.Slot(writePos)].words
      ensures Valid() && |published| == |old(published)| + 1 && published[..|old(published)|] == old(published)
      ensures var block := published[|old(published)|];
              && block.nRows == (if frame.nRows < 200 then frame.nRows else 200)
              && block.rows == frame.rows[..block.nRows]
              && block.seqNo == frame.seqNo && block.timestamp == frame.timestamp && block.flags == frame.flags
    {
      hide WriterInv;
      hide Content;
      var pos := writePos;
      var slot := slots[MotorRing.Slot(pos)];
      var n := Min(frame.nRows, MotorRing.MAX_ROWS);
      var block := frame.(nRows := n, rows := frame.rows[..n]);
      SlotOfWrapped(|published|);
      MotorRing.StoredBlockReadsBack(slot.words[..], block);
      slot.Publish(MotorRing.BlockWrites(block));
      published := published + [block];
      writePos := (pos + 1) % U64;
      NextWrapped(|published| - 1);
      assert Shaped();
      forall p | 0 <= p < |published| && |published| - DEPTH <= p ensures HoldsBlock(p) {
        if p < |published| - 1 {
          BlockStays(p);
        }
      }
    }

    twostate lemma BlockStays(p: nat)
      requires old(Shaped()) && Shaped() && p < |old(published)| < |published|
      requires |old(published)| < p + DEPTH && old(HoldsBlock(p))
      requires published[p] == old(published[p])
      requires forall j :: 0 <= j < DEPTH && j != MotorRing.Slot(|old(published)|) ==> unchanged(slots[j].words)
      ensures HoldsBlock(p)
    {
      MotorRing.NoReuse(p, |old(published)|);
    }

    /** motor_ring_read_slot on a ring nobody writes: the newest block of the position's
        slot, which need not be the position's own. */
    method ReadSlot(pos: nat) returns (ok: bool, words: seq<Word>)
      requires Shaped()
      ensures var slot := slots[MotorRing.Slot(pos)];
              && (ok <==> slot.lock % 2 == 0)
              && (ok ==> words == Content(MotorRing.BLOCK_SHAPE, slot.words[..]))
      ensures Valid() && pos < |published| ==>
                ok && words == MotorRing.EncodeBlock(published[NewestOfSlot(pos, |published|)])
    {
      ghost var steps;
      ok, words, steps := slots[MotorRing.Slot(pos)].Read(MotorRing.BLOCK_SHAPE);
      if Valid() && pos < |published| {
        EvenLock(slots[MotorRing.Slot(pos)].AsRecord(), Finished);
        NewestIsIt(pos, |published|);
        assert HoldsBlock(NewestOfSlot(pos, |published|));
      }
    }
  }

  /** The last of n positions that uses the slot of `pos`. */
  function NewestOfSlot(pos: nat, n: nat): (q: nat)
    requires pos < n
    ensures q < n
  {
    n - 1 - (n - 1 - pos) % DEPTH
  }

  lemma NewestIsIt(pos: nat, n: nat)
    requires pos < n
    ensures var q := NewestOfSlot(pos, n);
            && n - DEPTH <= q
            && MotorRing.Slot(q) == MotorRing.Slot(pos)
            && pos <= q
            && (q == pos <==> n <= pos + DEPTH)
  {
    var k := (n - 1 - pos) / DEPTH;
    var q := NewestOfSlot(pos, n);
    assert q == pos + k * DEPTH;
    assert pos == MotorRing.Slot(pos) + (pos / DEPTH) * DEPTH;
    MotorRing.SlotOfUse(MotorRing.Slot(pos), pos / DEPTH + k);
  }

  lemma NextWrapped(n: nat)
    ensures (n % U64 + 1) % U64 == (n + 1) % U64
  {
    var q := n / U64;
    assert n == q * U64 + n % U64;
    if n % U64 + 1 == U64 {
      assert n + 1 == (q + 1) * U64;
    }
  }

  // ---- the poll -----------------------------------------------------------------------------

  /** uint64_t subtraction. */
  function Minus(a: nat, b: nat): (d: nat)
    requires a < U64 && b < U64
    ensures d < U64 && (d + b) % U64 == a
  {
    if a >= b then a - b else a - b + U64
  }

  function FirstWanted(readPos: nat, wp: nat): (start: nat)
    requires readPos < U64 && wp < U64
    ensures start < U64
  {
    if Minus(wp, readPos) > DEPTH then Minus(wp, DEPTH) else readPos
  }

  /** Skipping what was certainly overwritten moves the cursor by what is counted as
      dropped, and leaves it at or below write_pos unless it was above and write_pos is small. */
  lemma SkipLapped(readPos: nat, wp: nat)
    requires readPos < U64 && wp < U64
    ensures var d := Minus(wp, readPos);
            (readPos + (if d > DEPTH then d - DEPTH else 0)) % U64 == FirstWanted(readPos, wp)
    ensures FirstWanted(readPos, wp) <= wp <==> readPos <= wp || wp >= DEPTH
  {
  }

  /** How many positions are skipped unread. */
  function Lapped(readPos: nat, wp: nat): nat
    requires readPos < U64 && wp < U64
  {
    if Minus(wp, readPos) > 16 then Minus(wp, readPos) - 16 else 0
  }

  /** Where a poll begins, and what it skips. */
  lemma PollStart(readPos: nat, wp: nat)
    requires readPos < U64 && wp < U64
    ensures var d, start, lapped := Minus(wp, readPos), FirstWanted(readPos, wp), Lapped(readPos, wp);
            && start < U64
            && (d > DEPTH ==> start == Minus(wp, DEPTH) && lapped == d - DEPTH)
            && (d <= DEPTH ==> start == readPos && lapped == 0)
            && (readPos + lapped) % U64 == start
            && (start <= wp <==> readPos <= wp || wp >= 16)
  {
    SkipLapped(readPos, wp);
  }

  /** A cursor at or below write_pos skips to sixteen before it. */
  lemma StartBelow(readPos: nat, wp: nat)
    requires readPos <= wp < U64
    ensures FirstWanted(readPos, wp) == (if wp > readPos + 16 then wp - 16 else readPos)
    ensures Lapped(readPos, wp) == FirstWanted(readPos, wp) - readPos
  {
  }

  /** The cursor of shm_reader_poll_blocks, and of the recorder's shm_poll. */
  class ShmReader {
    var readPos: nat

    /** shm_reader_open starts from "now". */
    constructor (ring: Ring)
      requires ring.Shaped()
      ensures readPos == ring.writePos
    {
      readPos := ring.writePos;
    }

    /** One poll: the blocks of the readable positions, in order, and how many were dropped.
        `positions` says which position each block was read for. */
    method PollBlocks(ring: Ring, maxBlocks: nat)
      returns (blocks: seq<seq<Word>>, dropped: nat, ghost positions: seq<nat>)
      requires ring.Shaped() && readPos < U64
      modifies this
      ensures readPos < U64
      ensures (old(readPos) + |blocks| + dropped) % U64 == readPos
      ensures |blocks| <= maxBlocks
      ensures maxBlocks == 0 ==> blocks == [] && dropped == 0 && readPos == old(readPos)
      ensures maxBlocks > 0 ==>
                && var start := FirstWanted(old(readPos), ring.writePos);
                && start <= readPos
                && Delivered(ring, blocks, positions, start, readPos)
                && dropped == Lapped(old(readPos), ring.writePos) + (readPos - start - |blocks|)
      ensures maxBlocks > 0 ==> (readPos <= ring.writePos <==> old(readPos) <= ring.writePos || ring.writePos >= 16)
      ensures maxBlocks > 0 && FirstWanted(old(readPos), ring.writePos) <= ring.writePos ==>
                readPos == ring.writePos || |blocks| == maxBlocks
    {
      ShapedInWord(ring);
      hide Delivered;
      hide Ring.Shaped;
      hide FirstWanted;
      hide Lapped;
      hide Minus;
      blocks, dropped, positions := [], 0, [];
      if maxBlocks == 0 {
        InWord(readPos);
        return;
      }
      var wp := ring.writePos;
      PollStart(readPos, wp);
      if Minus(wp, readPos) > DEPTH {
        dropped := Minus(wp, readPos) - DEPTH;
        readPos := Minus(wp, DEPTH);
      }
      ghost var start, lapped := readPos, dropped;
      var torn;
      blocks, torn, positions := ReadUpTo(ring, wp, maxBlocks);
      dropped := dropped + torn;
      LedgerWrapped(old(readPos), lapped, start, |blocks| + torn);
    }

    /** The loop of the poll. */
    method ReadUpTo(ring: Ring, wp: nat, maxBlocks: nat)
      returns (blocks: seq<seq<Word>>, torn: nat, ghost positions: seq<nat>)
      requires ring.Shaped() && readPos < U64 && wp < U64
      modifies this
      ensures readPos < U64 && readPos == old(readPos) + |blocks| + torn
      ensures readPos <= wp || readPos == old(readPos)
      ensures |blocks| <= maxBlocks
      ensures readPos >= wp || |blocks| == maxBlocks
      ensures Delivered(ring, blocks, positions, old(readPos), readPos)
    {
      blocks, torn, positions := [], 0, [];
      ghost var start := readPos;
      assert Delivered(ring, blocks, positions, start, readPos);
      hide Delivered;
      hide Ring.Shaped;
      hide Content;
      while readPos < wp && |blocks| < maxBlocks
        invariant readPos == start + |blocks| + torn
        invariant readPos <= wp || readPos == start
        invariant |blocks| <= maxBlocks
        invariant Delivered(ring, blocks, positions, start, readPos)
        decreases wp - readPos
      {
        var ok;
        ok, blocks, positions := ReadOne(ring, blocks, positions, start);
        if !ok {
          torn := torn + 1;
        }
        readPos := readPos + 1;
      }
    }

    /** The block at the cursor, if it can be read, goes behind those read before. */
    method ReadOne(ring: Ring, blocks: seq<seq<Word>>, ghost positions: seq<nat>, ghost first: nat)
      returns (ok: bool, blocks': seq<seq<Word>>, ghost positions': seq<nat>)
      requires ring.Shaped() && first <= readPos && Delivered(ring, blocks, positions, first, readPos)
      ensures |blocks'| == |blocks| + (if ok then 1 else 0)
      ensures Delivered(ring, blocks', positions', first, readPos + 1)
    {
      blocks', positions' := blocks, positions;
      var words;
      ok, words := ring.ReadSlot(readPos);
      assert ok <==> Readable(ring, readPos);
      OneMorePosition(ring, blocks, positions, first, readPos, words);
      hide Delivered;
      if ok {
        blocks' := blocks + [words];
        positions' := positions + [readPos];
      }
    }
  }

  lemma InWord(n: nat)
    requires n < U64
    ensures n % U64 == n
  {
  }

  lemma ShapedInWord(ring: Ring)
    requires ring.Shaped()
    ensures ring.writePos < U64
  {
  }

  /** The slot of a position is not being written. */
  ghost predicate Readable(ring: Ring, pos: nat)
    requires ring.Shaped()
    reads ring, ring.slots
  {
    ring.slots[pos % 16].lock % 2 == 0
  }

  /** The blocks read are those of exactly the readable positions between two, in order, each out
      of its slot. */
  ghost predicate Delivered(ring: Ring, blocks: seq<seq<Word>>, positions: seq<nat>, first: nat, next: nat)
    requires ring.Shaped()
    reads ring, ring.slots, ring.Arrays()
  {
    && |positions| == |blocks|
    && (forall i, j :: 0 <= i < j < |positions| ==> positions[i] < positions[j])
    && (forall i :: 0 <= i < |positions| ==> first <= positions[i] < next && Readable(ring, positions[i]))
    && (forall p :: first <= p < next && Readable(ring, p) ==> p in positions)
    && forall i :: 0 <= i < |positions| ==>
         blocks[i] == Content(MotorRing.BLOCK_SHAPE, ring.slots[positions[i] % 16].words[..])
  }

  lemma OneMorePosition(ring: Ring, blocks: seq<seq<Word>>, positions: seq<nat>, first: nat, next: nat, words: seq<Word>)
    requires ring.Shaped() && Delivered(ring, blocks, positions, first, next) && first <= next
    ensures if Readable(ring, next) then
              words == Content(MotorRing.BLOCK_SHAPE, ring.slots[next % 16].words[..]) ==>
                Delivered(ring, blocks + [words], positions + [next], first, next + 1)
            else Delivered(ring, blocks, positions, first, next + 1)
  {
    hide Content;
    if Readable(ring, next) {
      var more := positions + [next];
      assert more[|positions|] == next;
      forall p | first <= p < next + 1 && Readable(ring, p) ensures p in more {
        assert p < next ==> p in positions;
      }
    } else {
      assert forall p :: first <= p < next + 1 && Readable(ring, p) ==> p < next;
    }
  }

  /** On a ring in order that has not lapped the reader, every position is delivered, and with the
      block published at it. */
  lemma DeliveredBlocks(ring: Ring, blocks: seq<seq<Word>>, positions: seq<nat>, first: nat, next: nat)
    requires ring.Valid() && Delivered(ring, blocks, positions, first, next)
    requires first <= next <= |ring.published| <= first + 16
    ensures |blocks| == next - first
    ensures forall i :: 0 <= i < |blocks| ==> blocks[i] == MotorRing.EncodeBlock(ring.published[first + i])
  {
    hide Content;
    forall p | first <= p < next ensures Readable(ring, p) {
      EvenLock(ring.slots[p % 16].AsRecord(), Finished);
    }
    AllInOrder(positions, first, next);
    forall i | 0 <= i < |blocks| ensures blocks[i] == MotorRing.EncodeBlock(ring.published[first + i]) {
      assert ring.HoldsBlock(first + i);
    }
  }

  /** Rising numbers that are all those between two are these, one after the other. */
  lemma {:induction false} AllInOrder(positions: seq<nat>, first: nat, next: nat)
    requires first <= next && forall i, j :: 0 <= i < j < |positions| ==> positions[i] < positions[j]
    requires forall i :: 0 <= i < |positions| ==> first <= positions[i] < next
    requires forall p :: first <= p < next ==> p in positions
    ensures |positions| == next - first && forall i :: 0 <= i < |positions| ==> positions[i] == first + i
    decreases next - first
  {
    assert positions != [] ==> first <= positions[0] < next;
    if first < next {
      var last := |positions| - 1;
      assert next - 1 in positions;
      assert positions[last] == next - 1;
      var before := positions[..last];
      forall p | first <= p < next - 1 ensures p in before {
        assert p in positions;
        var k :| 0 <= k < |positions| && positions[k] == p;
        assert before[k] == p;
      }
      AllInOrder(before, first, next - 1);
      forall i | 0 <= i < last ensures positions[i] == first + i {
        assert before[i] == positions[i];
      }
    }
  }

  /** A poll of a ring in order: what lies more than sixteen blocks back is dropped and counted, and
      the blocks from there on are delivered one after the other, as many as were asked for. */
  method PollWhole(reader: ShmReader, ring: Ring, maxBlocks: nat) returns (blocks: seq<seq<Word>>, dropped: nat)
    requires ring.Valid() && |ring.published| < U64
    requires reader.readPos <= |ring.published| && maxBlocks > 0
    modifies reader
    ensures var n, from := |ring.published|, old(reader.readPos);
            var start := if n > from + 16 then n - 16 else from;
            && dropped == start - from
            && |blocks| == (if maxBlocks < n - start then maxBlocks else n - start)
            && reader.readPos == start + |blocks|
            && forall i :: 0 <= i < |blocks| ==> blocks[i] == MotorRing.EncodeBlock(ring.published[start + i])
  {
    hide Delivered;
    hide FirstWanted;
    hide Lapped;
    ghost var positions;
    ghost var start := FirstWanted(reader.readPos, ring.writePos);
    InWord(|ring.published|);
    assert ring.writePos == |ring.published|;
    StartBelow(reader.readPos, ring.writePos);
    assert (reader as object) !in ring.Arrays();
    blocks, dropped, positions := reader.PollBlocks(ring, maxBlocks);
    assert ring.Valid();
    DeliveredBlocks(ring, blocks, positions, start, reader.readPos);
  }

  lemma LedgerWrapped(from: nat, lapped: nat, start: nat, moved: nat)
    requires (from + lapped) % U64 == start && start + moved < U64
    ensures (from + lapped + moved) % U64 == start + moved
  {
    var q := (from + lapped) / U64;
    assert from + lapped == q * U64 + start;
  }
}
