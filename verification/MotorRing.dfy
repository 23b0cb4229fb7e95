/**
 The block ring: motor_ring_publish and motor_ring_read_slot of
 src/giga_spi_8adc/motor_shm.h under the poll loop of src/shm_sender/shm_reader_c.c.
 One producer, any number of readers joining at any time with their own cursors,
 every load and store a step of its own.
 */
module MotorRing {
  import opened Common
  import opened Seqlock

  const DEPTH: nat := 16
  const MAX_ROWS: nat := 200
  const HEADER: nat := 4
  const SLOT_WORDS: nat := HEADER + ROW_WORDS * MAX_ROWS
  const BLOCK_SHAPE: Shape := Counted(HEADER, ROW_WORDS, MAX_ROWS)

  /** A received frame: its header's row count may exceed what a slot holds. */
  datatype Frame = Frame(seqNo: Word, timestamp: Word, flags: Word, nRows: nat, rows: seq<Row>)

  type Block = b: Frame | b.nRows == |b.rows| <= MAX_ROWS witness Frame(0, 0, 0, 0, [])

  predicate Readable(f: Frame) {
    f.nRows <= |f.rows|
  }

  /** The block a frame is stored as: the row count clamped, the surplus rows dropped. */
  function Clamped(f: Frame): Block
    requires Readable(f)
  {
    var n := Min(f.nRows, MAX_ROWS);
    f.(nRows := n, rows := f.rows[..n])
  }

  function Flat(rows: seq<Row>): (words: seq<Word>)
    ensures |words| == ROW_WORDS * |rows|
  {
    if rows == [] then [] else rows[0] + Flat(rows[1..])
  }

  /** A slot's words: n_rows first, because the reader copies it first. */
  function EncodeBlock(b: Block): (words: seq<Word>)
    ensures |words| == HEADER + ROW_WORDS * |b.rows|
  {
    [b.nRows, b.seqNo, b.timestamp, b.flags] + Flat(b.rows)
  }

  /** The stores of motor_ring_publish, in its order: n_rows is its third. */
  function BlockWrites(b: Block): seq<Write> {
    [Write(1, b.seqNo), Write(2, b.timestamp), Write(0, b.nRows), Write(3, b.flags)]
    + Sequentially(Flat(b.rows), HEADER)
  }

  lemma BlockWritesInRange(b: Block)
    ensures InRange(BlockWrites(b), SLOT_WORDS)
  {
    MulMonotone(ROW_WORDS, |b.rows|, MAX_ROWS);
  }

  /** The header stores happen first, whatever is stored after them. */
  lemma HeaderFirst(words: seq<Word>, header: seq<Write>, rest: seq<Write>)
    requires |header| == HEADER && InRange(header, |words|) && InRange(rest, |words|)
    ensures InRange(header + rest, |words|)
    ensures Apply(words, header + rest)
            == Apply(words[header[0].index := header[0].value][header[1].index := header[1].value]
                          [header[2].index := header[2].value][header[3].index := header[3].value], rest)
  {
    var t0 := header + rest;
    var t1 := t0[1..];
    var t2 := t1[1..];
    var t3 := t2[1..];
    assert t3[1..] == rest;
    var w1 := words[header[0].index := header[0].value];
    var w2 := w1[header[1].index := header[1].value];
    var w3 := w2[header[2].index := header[2].value];
    assert Apply(words, t0) == Apply(w1, t1);
    assert Apply(w1, t1) == Apply(w2, t2);
    assert Apply(w2, t2) == Apply(w3, t3);
  }

  lemma StoredWords(words: seq<Word>, b: Block)
    requires |words| == SLOT_WORDS
    ensures InRange(BlockWrites(b), |words|)
    ensures var n := |EncodeBlock(b)|;
            n <= |words| && forall i :: 0 <= i < n ==> Apply(words, BlockWrites(b))[i] == EncodeBlock(b)[i]
  {
    BlockWritesInRange(b);
    MulMonotone(ROW_WORDS, |b.rows|, MAX_ROWS);
    var header := [Write(1, b.seqNo), Write(2, b.timestamp), Write(0, b.nRows), Write(3, b.flags)];
    var rest := Sequentially(Flat(b.rows), HEADER);
    HeaderFirst(words, header, rest);
    var w := words[1 := b.seqNo][2 := b.timestamp][0 := b.nRows][3 := b.flags];
    ApplySequentially(Flat(b.rows), HEADER, w);
    forall i | 0 <= i < |EncodeBlock(b)|
      ensures Apply(words, BlockWrites(b))[i] == EncodeBlock(b)[i]
    {
      assert Apply(words, BlockWrites(b)) == Apply(w, rest);
    }
  }

  /** Whatever an older, longer block left behind in the slot, a reader takes exactly the new one. */
  lemma StoredBlockReadsBack(words: seq<Word>, b: Block)
    requires |words| == SLOT_WORDS
    ensures InRange(BlockWrites(b), |words|)
    ensures Content(BLOCK_SHAPE, Apply(words, BlockWrites(b))) == EncodeBlock(b)
  {
    StoredWords(words, b);
    var stored := Apply(words, BlockWrites(b));
    assert stored[0] == EncodeBlock(b)[0] == b.nRows;
    assert Needed(BLOCK_SHAPE, stored) == |EncodeBlock(b)|;
  }

  lemma {:induction false} FlatInjective(a: seq<Row>, b: seq<Row>)
    requires |a| == |b| && Flat(a) == Flat(b)
    ensures a == b
    decreases |a|
  {
    if a != [] {
      assert a[0] == Flat(a)[..ROW_WORDS] == Flat(b)[..ROW_WORDS] == b[0];
      assert Flat(a[1..]) == Flat(a)[ROW_WORDS..] == Flat(b)[ROW_WORDS..] == Flat(b[1..]);
      FlatInjective(a[1..], b[1..]);
      assert a == [a[0]] + a[1..] && b == [b[0]] + b[1..];
    }
  }

  /** The words a reader takes determine the block. */
  lemma EncodeBlockInjective(a: Block, b: Block)
    requires EncodeBlock(a) == EncodeBlock(b)
    ensures a == b
  {
    var x, y := EncodeBlock(a), EncodeBlock(b);
    assert x[0] == y[0] && x[1] == y[1] && x[2] == y[2] && x[3] == y[3];
    assert Flat(a.rows) == x[HEADER..] == y[HEADER..] == Flat(b.rows);
    FlatInjective(a.rows, b.rows);
  }

  // ---- the interleaving machine ---------------------------------------------

  datatype Producer =
    | Idle
    | Filling(block: Block, writer: Writer)   // inside the slot's seqlock
    | Advancing(block: Block)                 // about to store write_pos + 1

  /** A block handed to a reader for position `pos`.  History: the slot's publishes
      complete at the s1 load and begun at the s2 load, and the ring's begun then. */
  datatype Delivery = Delivery(pos: nat, words: seq<Word>, completed: nat, begunAtCheck: nat, frontier: nat)

  datatype PollPc =
    | Parked                                          // between polls
    | Looping(wp: nat, room: nat)                     // at the loop test
    | Reading(wp: nat, room: nat, reader: Reader)     // inside motor_ring_read_slot

  datatype Cursor = Cursor(start: nat, readPos: nat, dropped: nat, delivered: seq<Delivery>, pc: PollPc)

  datatype State = State(
    slots: seq<Record>,
    writePos: nat,
    producer: Producer,
    published: seq<Block>,     // history: every block whose slot was committed
    cursors: seq<Cursor>)

  datatype Action =
    | Publish(frame: Frame)                // enter motor_ring_publish
    | ProducerMove                         // its next load or store
    | Attach(history: bool)                // a reader opens "now", or up to DEPTH blocks back
    | Poll(cursor: nat, maxBlocks: nat)    // enter shm_reader_poll_blocks: load write_pos
    | CursorMove(cursor: nat)              // the poll's next test or load

  function Init(initial: seq<seq<Word>>): State
    requires |initial| == DEPTH && forall j :: 0 <= j < DEPTH ==> |initial[j]| == SLOT_WORDS
  {
    State(seq(DEPTH, j requires 0 <= j < DEPTH => Record(0, initial[j], 0, [initial[j]])), 0, Idle, [], [])
  }

  function Slot(pos: nat): (j: nat)
    ensures j < DEPTH
  {
    pos % DEPTH
  }

  predicate Shaped(s: State) {
    && |s.slots| == DEPTH
    && (forall j :: 0 <= j < DEPTH ==> |s.slots[j].words| == SLOT_WORDS && |s.slots[j].versions| >= 1)
    && (s.producer.Filling? ==> WriterFits(s.producer.writer, SLOT_WORDS))
  }

  /** Positions whose publish has stored the odd lock word. */
  function Frontier(s: State): nat {
    |s.published| + (if s.producer.Filling? && s.producer.writer.Store? then 1 else 0)
  }

  function MoveProducer(s: State): (t: State)
    requires Shaped(s)
    ensures Shaped(t)
  {
    match s.producer
    case Idle => s
    case Filling(block, writer) =>
      if writer.Finished? then s.(producer := Advancing(block))
      else
        var j := Slot(s.writePos);
        var (r, w) := WriterStep(s.slots[j], writer);
        s.(slots := s.slots[j := r],
           producer := if w.Finished? then Advancing(block) else Filling(block, w),
           published := if w.Finished? then s.published + [block] else s.published)
    case Advancing(_) => s.(writePos := s.writePos + 1, producer := Idle)
  }

  /** The first lines of the poll: skip what was certainly overwritten. */
  function Begin(c: Cursor, wp: nat, maxBlocks: nat): Cursor {
    if wp - c.readPos > DEPTH then
      c.(dropped := c.dropped + (wp - c.readPos - DEPTH), readPos := wp - DEPTH, pc := Looping(wp, maxBlocks))
    else
      c.(pc := Looping(wp, maxBlocks))
  }

  function MoveCursor(s: State, c: Cursor): Cursor
    requires Shaped(s)
  {
    match c.pc
    case Parked => c
    case Looping(wp, room) =>
      c.(pc := if c.readPos < wp && room > 0 then Reading(wp, room, Try(0)) else Parked)
    case Reading(wp, room, reader) =>
      var reader' := ReaderStep(s.slots[Slot(c.readPos)], reader, BLOCK_SHAPE);
      match reader'
      case Success(words, completed, begun) =>
        c.(readPos := c.readPos + 1,
           delivered := c.delivered + [Delivery(c.readPos, words, completed, begun, Frontier(s))],
           pc := Looping(wp, if room > 0 then room - 1 else 0))
      case Failure =>
        c.(readPos := c.readPos + 1, dropped := c.dropped + 1, pc := Looping(wp, room))
      case _ => c.(pc := Reading(wp, room, reader'))
  }

  /** An action that is not enabled leaves the state alone. */
  function Step(s: State, a: Action): (t: State)
    requires Shaped(s)
    ensures Shaped(t)
  {
    match a
    case Publish(frame) =>
      if s.producer.Idle? && Readable(frame) then
        BlockWritesInRange(Clamped(frame));
        s.(producer := Filling(Clamped(frame), Start(BlockWrites(Clamped(frame)))))
      else s
    case ProducerMove => MoveProducer(s)
    case Attach(history) =>
      var at := if !history then s.writePos else if s.writePos >= DEPTH then s.writePos - DEPTH else 0;
      s.(cursors := s.cursors + [Cursor(at, at, 0, [], Parked)])
    case Poll(i, maxBlocks) =>
      if i < |s.cursors| && s.cursors[i].pc.Parked? && maxBlocks > 0 then
        s.(cursors := s.cursors[i := Begin(s.cursors[i], s.writePos, maxBlocks)])
      else s
    case CursorMove(i) =>
      if i < |s.cursors| then s.(cursors := s.cursors[i := MoveCursor(s, s.cursors[i])]) else s
  }

  function Exec(s: State, run: seq<Action>): (t: State)
    requires Shaped(s)
    ensures Shaped(t)
    decreases |run|
  {
    if run == [] then s else Exec(Step(s, run[0]), run[1..])
  }

  // ---- the invariant --------------------------------------------------------

  /** How many of the first n positions fall on slot j. */
  function Uses(j: nat, n: nat): nat
    requires j < DEPTH
  {
    (n + (DEPTH - 1 - j)) / DEPTH
  }

  lemma UsesNext(j: nat, n: nat)
    requires j < DEPTH
    ensures Uses(j, n + 1) == Uses(j, n) + (if Slot(n) == j then 1 else 0)
  {
  }

  /** The k-th use of slot j is position j + k * DEPTH. */
  lemma UsesAt(j: nat, n: nat, k: nat)
    requires j < DEPTH
    ensures k < Uses(j, n) <==> j + k * DEPTH < n
  {
  }

  function WriterOf(s: State, j: nat): Writer {
    if s.producer.Filling? && Slot(s.writePos) == j then s.producer.writer else Finished
  }

  ghost predicate SlotGood(s: State, j: nat)
    requires Shaped(s) && j < DEPTH
  {
    var r := s.slots[j];
    && WriterInv(r, WriterOf(s, j))
    && (forall v :: 0 <= v < |r.versions| ==> |r.versions[v]| == SLOT_WORDS)
    && |r.versions| == Uses(j, |s.published|) + 1
    && (forall v :: 1 <= v < |r.versions| ==> VersionGood(s.published, r.versions[v], j + (v - 1) * DEPTH))
  }

  ghost predicate VersionGood(published: seq<Block>, words: seq<Word>, pos: nat) {
    && |words| == SLOT_WORDS
    && pos < |published|
    && Content(BLOCK_SHAPE, words) == EncodeBlock(published[pos])
  }

  ghost predicate ProducerGood(s: State)
    requires Shaped(s)
  {
    match s.producer
    case Idle => s.writePos == |s.published|
    case Filling(block, writer) =>
      && s.writePos == |s.published|
      && !writer.Finished?
      && |s.slots[Slot(s.writePos)].words| == SLOT_WORDS
      && Content(BLOCK_SHAPE, Apply(s.slots[Slot(s.writePos)].words, writer.todo)) == EncodeBlock(block)
    case Advancing(_) => s.writePos + 1 == |s.published|
  }

  /** What a delivery is worth: one whole block, published at a position of the same
      slot that is at least the one asked for, and is that one exactly when the publish
      that reuses the slot had not begun. */
  ghost predicate DeliveryGood(d: Delivery, published: seq<Block>) {
    d.begunAtCheck - d.completed < HALF_WRAP ==>
      exists q: nat ::
        && q < |published|
        && q >= d.pos
        && Slot(q) == Slot(d.pos)
        && d.words == EncodeBlock(published[q])
        && (q == d.pos <==> d.frontier <= d.pos + DEPTH)
  }

  ghost predicate CursorGood(s: State, c: Cursor)
    requires Shaped(s)
  {
    && c.readPos == c.start + |c.delivered| + c.dropped
    && c.readPos <= s.writePos
    && (forall k :: 0 <= k < |c.delivered| ==> DeliveryGood(c.delivered[k], s.published))
    && (forall k :: 0 <= k < |c.delivered| ==> c.delivered[k].pos < c.readPos)
    && (forall k, m :: 0 <= k < m < |c.delivered| ==> c.delivered[k].pos < c.delivered[m].pos)
    && (!c.pc.Parked? ==> c.readPos <= c.pc.wp <= s.writePos)
    && (c.pc.Reading? ==>
          && c.readPos < c.pc.wp
          && (c.pc.reader.Try? || c.pc.reader.Copy?)
          && ReaderInv(s.slots[Slot(c.readPos)], c.pc.reader, BLOCK_SHAPE)
          && (c.pc.reader.Copy? ==> c.pc.reader.version > c.readPos / DEPTH))
  }

  ghost predicate Inv(s: State) {
    && Shaped(s)
    && ProducerGood(s)
    && (forall j :: 0 <= j < DEPTH ==> SlotGood(s, j))
    && (forall i :: 0 <= i < |s.cursors| ==> CursorGood(s, s.cursors[i]))
  }

  lemma InitInv(initial: seq<seq<Word>>)
    requires |initial| == DEPTH && forall j :: 0 <= j < DEPTH ==> |initial[j]| == SLOT_WORDS
    ensures Inv(Init(initial))
  {
  }

  lemma PublishInv(s: State, frame: Frame)
    requires Inv(s)
    ensures Inv(Step(s, Publish(frame)))
  {
    var t := Step(s, Publish(frame));
    if t != s {
      StoredBlockReadsBack(s.slots[Slot(s.writePos)].words, Clamped(frame));
      forall j | 0 <= j < DEPTH ensures SlotGood(t, j) {
        assert SlotGood(s, j);
      }
      forall i | 0 <= i < |t.cursors| ensures CursorGood(t, t.cursors[i]) {
        assert CursorGood(s, s.cursors[i]);
      }
    }
  }

  lemma {:induction false} FillInv(s: State)
    requires Inv(s) && s.producer.Filling?
    ensures var t := MoveProducer(s);
            ProducerGood(t) && forall j :: 0 <= j < DEPTH ==> SlotGood(t, j)
  {
    var t := MoveProducer(s);
    var j0 := Slot(s.writePos);
    assert SlotGood(s, j0);
    WriterKeepsInv(s.slots[j0], s.producer.writer);
    forall j | 0 <= j < DEPTH ensures SlotGood(t, j) {
      if t.producer.Advancing? {
        FilledSlot(s, j);
      } else {
        assert SlotGood(s, j);
      }
    }
  }

  lemma FilledOther(s: State, j: nat)
    requires Inv(s) && s.producer.Filling? && MoveProducer(s).producer.Advancing? && j < DEPTH && j != Slot(s.writePos)
    ensures SlotGood(MoveProducer(s), j)
  {
    assert SlotGood(s, j);
    UsesNext(j, |s.published|);
  }

  lemma FilledOwn(s: State)
    requires Inv(s) && s.producer.Filling? && MoveProducer(s).producer.Advancing?
    ensures SlotGood(MoveProducer(s), Slot(s.writePos))
  {
    var t, j := MoveProducer(s), Slot(s.writePos);
    assert SlotGood(s, j);
    WriterKeepsInv(s.slots[j], s.producer.writer);
    var k := Uses(j, |s.published|);
    UsesNext(j, |s.published|);
    UsesAt(j, |s.published|, k);
    UsesAt(j, |t.published|, k);
    assert |s.slots[j].versions| == k + 1;
    assert j + k * DEPTH == |s.published|;
  }

  /** The last store of a publish gives the slot its new version and leaves the others. */
  lemma FilledSlot(s: State, j: nat)
    requires Inv(s) && s.producer.Filling? && MoveProducer(s).producer.Advancing? && j < DEPTH
    ensures SlotGood(MoveProducer(s), j)
  {
    hide *;
    if j == Slot(s.writePos) {
      FilledOwn(s);
    } else {
      FilledOther(s, j);
    }
  }

  lemma ProducerMoveCursor(s: State, c: Cursor)
    requires Inv(s) && CursorGood(s, c)
    ensures CursorGood(MoveProducer(s), c)
  {
    var t := MoveProducer(s);
    if c.pc.Reading? && s.producer.Filling? && Slot(c.readPos) == Slot(s.writePos) {
      assert SlotGood(s, Slot(s.writePos));
      ReaderStable(s.slots[Slot(s.writePos)], s.producer.writer, c.pc.reader, BLOCK_SHAPE);
    }
    forall k | 0 <= k < |c.delivered| ensures DeliveryGood(c.delivered[k], t.published) {
      DeliveryStays(c.delivered[k], s.published, t.published);
    }
  }

  lemma DeliveryStays(d: Delivery, published: seq<Block>, later: seq<Block>)
    requires DeliveryGood(d, published) && published <= later
    ensures DeliveryGood(d, later)
  {
  }

  lemma ProducerMoveInv(s: State)
    requires Inv(s)
    ensures Inv(MoveProducer(s))
  {
    var t := MoveProducer(s);
    if s.producer.Filling? {
      FillInv(s);
    } else {
      forall j | 0 <= j < DEPTH ensures SlotGood(t, j) {
        assert SlotGood(s, j);
      }
    }
    forall i | 0 <= i < |t.cursors| ensures CursorGood(t, t.cursors[i]) {
      ProducerMoveCursor(s, s.cursors[i]);
    }
  }

  /** A slot's publishes begun, in terms of the ring's. */
  lemma SlotBegun(s: State, j: nat)
    requires Inv(s) && j < DEPTH
    ensures s.slots[j].begun == Uses(j, Frontier(s))
  {
    assert SlotGood(s, j);
    UsesNext(j, |s.published|);
  }

  lemma AcceptedDelivery(s: State, c: Cursor)
    requires Inv(s) && CursorGood(s, c) && c.pc.Reading?
    requires ReaderStep(s.slots[Slot(c.readPos)], c.pc.reader, BLOCK_SHAPE).Success?
    ensures var rd := c.pc.reader;
            DeliveryGood(Delivery(c.readPos, rd.copied, rd.version, s.slots[Slot(c.readPos)].begun, Frontier(s)),
                         s.published)
  {
    var rd, j := c.pc.reader, Slot(c.readPos);
    var r := s.slots[j];
    if r.begun - rd.version < HALF_WRAP {
      assert SlotGood(s, j);
      AcceptedIsWhole(r, WriterOf(s, j), rd, BLOCK_SHAPE);
      var q := j + (rd.version - 1) * DEPTH;
      assert VersionGood(s.published, r.versions[rd.version], q);
      assert c.readPos == j + (c.readPos / DEPTH) * DEPTH;
      SlotOfUse(j, rd.version - 1);
      SlotBegun(s, j);
      UsesAt(j, Frontier(s), rd.version - 1);
      UsesAt(j, Frontier(s), c.readPos / DEPTH + 1);
      assert Frontier(s) <= c.readPos + DEPTH ==> q < c.readPos + DEPTH;
      assert Frontier(s) > c.readPos + DEPTH ==> rd.version > c.readPos / DEPTH + 1;
    }
  }

  /** Positions less than a lap apart use different slots. */
  lemma NoReuse(p: nat, q: nat)
    requires p < q < p + DEPTH
    ensures Slot(p) != Slot(q)
  {
  }

  lemma SlotOfUse(j: nat, k: nat)
    requires j < DEPTH
    ensures Slot(j + k * DEPTH) == j
  {
  }

  /** An attempt that starts copying sees a version newer than the position's lap. */
  lemma FreshAttempt(s: State, c: Cursor)
    requires Inv(s) && CursorGood(s, c) && c.pc.Reading? && c.pc.reader.Try?
    ensures var rd := ReaderStep(s.slots[Slot(c.readPos)], c.pc.reader, BLOCK_SHAPE);
            rd.Copy? ==> rd.version > c.readPos / DEPTH
  {
    var j := Slot(c.readPos);
    assert SlotGood(s, j);
    UsesAt(j, |s.published|, c.readPos / DEPTH);
    assert c.readPos == j + (c.readPos / DEPTH) * DEPTH;
  }

  lemma DeliveringCursorGood(s: State, c: Cursor, d: Delivery, room: nat)
    requires Shaped(s) && CursorGood(s, c) && c.pc.Reading?
    requires d.pos == c.readPos && DeliveryGood(d, s.published)
    ensures CursorGood(s, c.(readPos := c.readPos + 1, delivered := c.delivered + [d], pc := Looping(c.pc.wp, room)))
  {
  }

  lemma RetryingCursorGood(s: State, c: Cursor, rd: Reader)
    requires Shaped(s) && CursorGood(s, c) && c.pc.Reading? && (rd.Try? || rd.Copy?)
    requires ReaderInv(s.slots[Slot(c.readPos)], rd, BLOCK_SHAPE)
    requires rd.Copy? ==> rd.version > c.readPos / DEPTH
    ensures CursorGood(s, c.(pc := Reading(c.pc.wp, c.pc.room, rd)))
  {
  }

  lemma MoveReadingGood(s: State, c: Cursor)
    requires Inv(s) && CursorGood(s, c) && c.pc.Reading?
    ensures CursorGood(s, MoveCursor(s, c))
  {
    hide DeliveryGood;
    hide ReaderInv;
    var j := Slot(c.readPos);
    var rd := c.pc.reader;
    var reader' := ReaderStep(s.slots[j], rd, BLOCK_SHAPE);
    if reader'.Success? {
      AcceptedDelivery(s, c);
      var d := Delivery(c.readPos, reader'.copied, reader'.version, reader'.begun, Frontier(s));
      DeliveringCursorGood(s, c, d, if c.pc.room > 0 then c.pc.room - 1 else 0);
    } else if reader'.Failure? {
    } else {
      assert SlotGood(s, j);
      ReaderKeepsInv(s.slots[j], WriterOf(s, j), rd, BLOCK_SHAPE);
      if rd.Try? {
        FreshAttempt(s, c);
      }
      RetryingCursorGood(s, c, reader');
    }
  }

  lemma MoveCursorGood(s: State, c: Cursor)
    requires Inv(s) && CursorGood(s, c)
    ensures CursorGood(s, MoveCursor(s, c))
  {
    if c.pc.Reading? {
      MoveReadingGood(s, c);
    }
  }

  lemma CursorStepInv(s: State, i: nat, c: Cursor)
    requires Inv(s) && i < |s.cursors| && CursorGood(s, c)
    ensures Inv(s.(cursors := s.cursors[i := c]))
  {
    var t := s.(cursors := s.cursors[i := c]);
    forall j | 0 <= j < DEPTH ensures SlotGood(t, j) {
      assert SlotGood(s, j);
    }
    forall k | 0 <= k < |t.cursors| ensures CursorGood(t, t.cursors[k]) {
      assert CursorGood(s, if k == i then c else s.cursors[k]);
    }
  }

  lemma AttachInv(s: State, history: bool)
    requires Inv(s)
    ensures Inv(Step(s, Attach(history)))
  {
    var t := Step(s, Attach(history));
    forall j | 0 <= j < DEPTH ensures SlotGood(t, j) {
      assert SlotGood(s, j);
    }
    forall k | 0 <= k < |t.cursors| ensures CursorGood(t, t.cursors[k]) {
      assert k < |s.cursors| ==> CursorGood(s, s.cursors[k]);
    }
  }

  lemma StepInv(s: State, a: Action)
    requires Inv(s)
    ensures Inv(Step(s, a))
  {
    match a
    case Publish(frame) => PublishInv(s, frame);
    case ProducerMove => ProducerMoveInv(s);
    case Attach(history) => AttachInv(s, history);
    case Poll(i, maxBlocks) =>
      if i < |s.cursors| && s.cursors[i].pc.Parked? && maxBlocks > 0 {
        CursorStepInv(s, i, Begin(s.cursors[i], s.writePos, maxBlocks));
      }
    case CursorMove(i) =>
      if i < |s.cursors| {
        MoveCursorGood(s, s.cursors[i]);
        CursorStepInv(s, i, MoveCursor(s, s.cursors[i]));
      }
  }

  lemma {:induction false} ExecInv(s: State, run: seq<Action>)
    requires Inv(s)
    ensures Inv(Exec(s, run))
    decreases |run|
  {
    if run != [] {
      StepInv(s, run[0]);
      ExecInv(Step(s, run[0]), run[1..]);
    }
  }

  // ---- the theorems ---------------------------------------------------------

  /** In every interleaving, each block delivered for position `pos` (within the wrap
      bound) is exactly the block published at some position of the same slot that is
      not older, and it is the block of `pos` itself if and only if the publish that
      reuses the slot had not begun at the reader's second lock load. */
  lemma DeliveriesAreWholeBlocks(initial: seq<seq<Word>>, run: seq<Action>)
    requires |initial| == DEPTH && forall j :: 0 <= j < DEPTH ==> |initial[j]| == SLOT_WORDS
    ensures var s := Exec(Init(initial), run);
            forall i, k :: 0 <= i < |s.cursors| && 0 <= k < |s.cursors[i].delivered| ==>
              DeliveryGood(s.cursors[i].delivered[k], s.published)
  {
    InitInv(initial);
    ExecInv(Init(initial), run);
    var s := Exec(Init(initial), run);
    forall i | 0 <= i < |s.cursors| ensures CursorGood(s, s.cursors[i]) {
    }
  }

  /** Over any run of polls a cursor has moved by exactly what it delivered plus what
      it counted as dropped, it asks for each position at most once and in order, and
      it never passes the write_pos its poll read. */
  lemma CursorLedger(initial: seq<seq<Word>>, run: seq<Action>)
    requires |initial| == DEPTH && forall j :: 0 <= j < DEPTH ==> |initial[j]| == SLOT_WORDS
    ensures var s := Exec(Init(initial), run);
            forall i :: 0 <= i < |s.cursors| ==>
              var c := s.cursors[i];
              && c.readPos == c.start + |c.delivered| + c.dropped
              && c.readPos <= s.writePos
              && (!c.pc.Parked? ==> c.readPos <= c.pc.wp <= s.writePos)
              && (forall k, m :: 0 <= k < m < |c.delivered| ==> c.delivered[k].pos < c.delivered[m].pos)
  {
    InitInv(initial);
    ExecInv(Init(initial), run);
    var s := Exec(Init(initial), run);
    forall i | 0 <= i < |s.cursors| ensures CursorGood(s, s.cursors[i]) {
    }
  }

  /** write_pos counts committed blocks: every position below it has been published. */
  lemma WritePosCounts(initial: seq<seq<Word>>, run: seq<Action>)
    requires |initial| == DEPTH && forall j :: 0 <= j < DEPTH ==> |initial[j]| == SLOT_WORDS
    ensures var s := Exec(Init(initial), run);
            s.writePos <= |s.published| <= s.writePos + 1
  {
    InitInv(initial);
    ExecInv(Init(initial), run);
    assert ProducerGood(Exec(Init(initial), run));
  }

  // ---- what becomes of every position ----------------------------------------

  /** A position a cursor has gone past: its block taken, its read given up, or skipped unread. */
  datatype Fate = Given(words: seq<Word>) | Torn | Lapped

  function Repeated(f: Fate, n: nat): (fates: seq<Fate>)
    ensures |fates| == n && forall k :: 0 <= k < n ==> fates[k] == f
  {
    seq(n, _ => f)
  }

  /** What a step decides about the positions of cursor i, from the loads of that step alone: a
      poll skips what is more than 16 behind the write_pos it loads, and a read that succeeds or
      fails decides about the position it was for. */
  function Decides(s: State, a: Action, i: nat): seq<Fate>
    requires Shaped(s)
  {
    if i >= |s.cursors| then []
    else
      var c := s.cursors[i];
      match a
      case Poll(j, maxBlocks) =>
        if j == i && c.pc.Parked? && maxBlocks > 0 && s.writePos - c.readPos > 16
        then Repeated(Lapped, s.writePos - c.readPos - 16) else []
      case CursorMove(j) =>
        if j == i && c.pc.Reading? then
          match ReaderStep(s.slots[c.readPos % 16], c.pc.reader, BLOCK_SHAPE)
          case Success(words, _, _) => [Given(words)]
          case Failure => [Torn]
          case _ => []
        else []
      case _ => []
  }

  function Fates(s: State, run: seq<Action>, i: nat): seq<Fate>
    requires Shaped(s)
    decreases |run|
  {
    if run == [] then [] else Decides(s, run[0], i) + Fates(Step(s, run[0]), run[1..], i)
  }

  /** The blocks among the fates of the positions from `pos` on, each with its position. */
  function Taken(fates: seq<Fate>, pos: nat): seq<(nat, seq<Word>)> {
    if fates == [] then []
    else (if fates[0].Given? then [(pos, fates[0].words)] else []) + Taken(fates[1..], pos + 1)
  }

  lemma TakenFirst(a: seq<Fate>, pos: nat)
    ensures a == [] ==> Taken(a, pos) == []
    ensures a != [] ==> Taken(a, pos) == (if a[0].Given? then [(pos, a[0].words)] else []) + Taken(a[1..], pos + 1)
  {
  }

  lemma {:induction false} TakenAppend(a: seq<Fate>, b: seq<Fate>, pos: nat)
    ensures Taken(a + b, pos) == Taken(a, pos) + Taken(b, pos + |a|)
    decreases |a|
  {
    hide Taken;
    TakenFirst(a, pos);
    if a == [] {
      assert a + b == b;
    } else {
      assert (a + b)[1..] == a[1..] + b && (a + b)[0] == a[0];
      TakenFirst(a + b, pos);
      TakenAppend(a[1..], b, pos + 1);
      var first := if a[0].Given? then [(pos, a[0].words)] else [];
      assert first + (Taken(a[1..], pos + 1) + Taken(b, pos + |a|))
          == (first + Taken(a[1..], pos + 1)) + Taken(b, pos + |a|);
    }
  }

  lemma {:induction false} NoneTaken(n: nat, pos: nat)
    ensures Taken(Repeated(Lapped, n), pos) == []
    decreases n
  {
    if n > 0 {
      assert Repeated(Lapped, n)[1..] == Repeated(Lapped, n - 1);
      NoneTaken(n - 1, pos + 1);
    }
  }

  function Handed(delivered: seq<Delivery>): (h: seq<(nat, seq<Word>)>)
    ensures |h| == |delivered|
  {
    seq(|delivered|, k requires 0 <= k < |delivered| => (delivered[k].pos, delivered[k].words))
  }

  /** Each position decided has moved the cursor by one; the blocks taken are handed out in order
      with their positions, and the other positions counted as dropped. */
  ghost predicate FollowsFates(c: Cursor, c': Cursor, fates: seq<Fate>) {
    && c'.start == c.start
    && c'.readPos == c.readPos + |fates|
    && Handed(c'.delivered) == Handed(c.delivered) + Taken(fates, c.readPos)
    && c'.dropped == c.dropped + |fates| - |Taken(fates, c.readPos)|
  }

  lemma StepFollows(s: State, a: Action, i: nat)
    requires Shaped(s) && i < |s.cursors|
    ensures |Step(s, a).cursors| >= |s.cursors|
    ensures FollowsFates(s.cursors[i], Step(s, a).cursors[i], Decides(s, a, i))
  {
    var c := s.cursors[i];
    match a
    case Poll(j, maxBlocks) =>
      NoneTaken(|Decides(s, a, i)|, c.readPos);
    case CursorMove(j) =>
      if j == i {
        MoveFollows(s, i);
      }
    case _ =>
  }

  lemma MoveFollows(s: State, i: nat)
    requires Shaped(s) && i < |s.cursors|
    ensures FollowsFates(s.cursors[i], MoveCursor(s, s.cursors[i]), Decides(s, CursorMove(i), i))
  {
    var c := s.cursors[i];
    var c' := MoveCursor(s, c);
    if c.pc.Reading? {
      var rd := ReaderStep(s.slots[Slot(c.readPos)], c.pc.reader, BLOCK_SHAPE);
      if rd.Success? {
        assert Taken([Given(rd.copied)], c.readPos) == [(c.readPos, rd.copied)];
        assert Handed(c'.delivered) == Handed(c.delivered) + [(c.readPos, rd.copied)];
      } else if rd.Failure? {
        assert Taken([Torn], c.readPos) == [];
      }
    }
  }

  lemma FollowsOn(c: Cursor, c1: Cursor, c2: Cursor, a: seq<Fate>, b: seq<Fate>)
    requires FollowsFates(c, c1, a) && FollowsFates(c1, c2, b)
    ensures FollowsFates(c, c2, a + b)
  {
    TakenAppend(a, b, c.readPos);
  }

  /** Over every run, from any state: the cursor has delivered exactly the blocks its reads took
      and dropped exactly the positions it skipped or gave up on. */
  lemma {:induction false} EveryPositionIsAccounted(s: State, run: seq<Action>, i: nat)
    requires Shaped(s) && i < |s.cursors|
    ensures |Exec(s, run).cursors| >= |s.cursors|
    ensures FollowsFates(s.cursors[i], Exec(s, run).cursors[i], Fates(s, run, i))
    decreases |run|
  {
    if run != [] {
      var t := Step(s, run[0]);
      StepFollows(s, run[0], i);
      EveryPositionIsAccounted(t, run[1..], i);
      hide FollowsFates;
      FollowsOn(s.cursors[i], t.cursors[i], Exec(s, run).cursors[i], Decides(s, run[0], i), Fates(t, run[1..], i));
    }
  }

  // ---- how far a poll goes -----------------------------------------------------

  ghost predicate NoPollOf(run: seq<Action>, i: nat) {
    forall k :: 0 <= k < |run| ==> !(run[k].Poll? && run[k].cursor == i)
  }

  /** What a poll that loaded `wp` has done so far, `before` blocks having been delivered before it. */
  ghost predicate PollSoFar(c: Cursor, before: nat, maxBlocks: nat, wp: nat) {
    && before <= |c.delivered| <= before + maxBlocks
    && (c.readPos <= wp || c.pc.Parked?)
    && match c.pc
       case Parked => c.readPos >= wp || |c.delivered| == before + maxBlocks
       case Looping(w, room) => w == wp && room + |c.delivered| == before + maxBlocks
       case Reading(w, room, _) => w == wp && c.readPos < wp && room > 0 && room + |c.delivered| == before + maxBlocks
  }

  lemma {:induction false} PollGoesOn(s: State, run: seq<Action>, i: nat, before: nat, maxBlocks: nat, wp: nat)
    requires Shaped(s) && i < |s.cursors| && NoPollOf(run, i) && PollSoFar(s.cursors[i], before, maxBlocks, wp)
    ensures |Exec(s, run).cursors| >= |s.cursors| && PollSoFar(Exec(s, run).cursors[i], before, maxBlocks, wp)
    decreases |run|
  {
    if run != [] {
      assert NoPollOf(run[1..], i) && !(run[0].Poll? && run[0].cursor == i);
      var t := Step(s, run[0]);
      assert PollSoFar(t.cursors[i], before, maxBlocks, wp);
      PollGoesOn(t, run[1..], i, before, maxBlocks, wp);
    }
  }

  /** Whatever else runs, a poll delivers at most maxBlocks blocks, and once the cursor is parked
      again the poll has reached the write_pos it loaded or delivered that many. */
  lemma PollEndsAtWritePos(s: State, run: seq<Action>, i: nat, maxBlocks: nat)
    requires Inv(s) && i < |s.cursors| && s.cursors[i].pc.Parked? && maxBlocks > 0 && NoPollOf(run, i)
    ensures var t := Exec(s, [Poll(i, maxBlocks)] + run);
            && |t.cursors| >= |s.cursors|
            && var c, c' := s.cursors[i], t.cursors[i];
               && |c'.delivered| <= |c.delivered| + maxBlocks
               && c'.readPos <= s.writePos
               && (c'.pc.Parked? ==> c'.readPos == s.writePos || |c'.delivered| == |c.delivered| + maxBlocks)
  {
    var u := Step(s, Poll(i, maxBlocks));
    assert ([Poll(i, maxBlocks)] + run)[1..] == run;
    assert CursorGood(s, s.cursors[i]);
    assert PollSoFar(u.cursors[i], |s.cursors[i].delivered|, maxBlocks, s.writePos);
    PollGoesOn(u, run, i, |s.cursors[i].delivered|, maxBlocks, s.writePos);
    EndsInside(u, run, i, s.writePos);
  }

  lemma {:induction false} EndsInside(s: State, run: seq<Action>, i: nat, wp: nat)
    requires Shaped(s) && i < |s.cursors| && NoPollOf(run, i) && s.cursors[i].readPos <= wp
    requires !s.cursors[i].pc.Parked? ==> s.cursors[i].pc.wp == wp
    requires s.cursors[i].pc.Reading? ==> s.cursors[i].readPos < wp
    ensures |Exec(s, run).cursors| >= |s.cursors| && Exec(s, run).cursors[i].readPos <= wp
    decreases |run|
  {
    if run != [] {
      assert NoPollOf(run[1..], i) && !(run[0].Poll? && run[0].cursor == i);
      EndsInside(Step(s, run[0]), run[1..], i, wp);
    }
  }

  /** A reader attached live starts at write_pos, one attached with history at most 16 blocks
      before it and as far back as there are blocks; nothing is handed out yet. */
  lemma AttachedWhere(s: State, history: bool)
    requires Shaped(s)
    ensures var t := Step(s, Attach(history));
            && |t.cursors| == |s.cursors| + 1
            && var c := t.cursors[|s.cursors|];
               && c.start == c.readPos <= s.writePos && c.delivered == [] && c.dropped == 0 && c.pc.Parked?
               && s.writePos - c.readPos == (if !history then 0 else if s.writePos < 16 then s.writePos else 16)
  {
  }

  // ---- a poll that nothing disturbs --------------------------------------------

  function Times(a: Action, n: nat): (run: seq<Action>)
    ensures |run| == n
  {
    if n == 0 then [] else [a] + Times(a, n - 1)
  }

  lemma {:induction false} TimesAdd(a: Action, n: nat, m: nat)
    ensures Times(a, n + m) == Times(a, n) + Times(a, m)
    decreases n
  {
    if n == 0 {
      assert Times(a, 0) + Times(a, m) == Times(a, m);
    } else {
      TimesAdd(a, n - 1, m);
      assert Times(a, n) + Times(a, m) == [a] + (Times(a, n - 1) + Times(a, m));
    }
  }

  /** A cursor after n of its own steps, all else standing still. */
  function Alone(s: State, c: Cursor, n: nat): Cursor
    requires Shaped(s)
    decreases n
  {
    if n == 0 then c else Alone(s, MoveCursor(s, c), n - 1)
  }

  lemma {:induction false} AloneAdd(s: State, c: Cursor, n: nat, m: nat)
    requires Shaped(s)
    ensures Alone(s, c, n + m) == Alone(s, Alone(s, c, n), m)
    decreases n
  {
    if n > 0 {
      AloneAdd(s, MoveCursor(s, c), n - 1, m);
    }
  }

  lemma AloneOnce(s: State, c: Cursor)
    requires Shaped(s)
    ensures Alone(s, c, 1) == MoveCursor(s, c)
  {
    hide Shaped;
    hide MoveCursor;
    assert Alone(s, MoveCursor(s, c), 0) == MoveCursor(s, c);
  }

  lemma {:induction false} RunsAlone(s: State, i: nat, c: Cursor, n: nat)
    requires Shaped(s) && i < |s.cursors|
    ensures Exec(s.(cursors := s.cursors[i := c]), Times(CursorMove(i), n))
            == s.(cursors := s.cursors[i := Alone(s, c, n)])
    decreases n
  {
    if n > 0 {
      var t := s.(cursors := s.cursors[i := c]);
      assert MoveCursor(t, c) == MoveCursor(s, c);
      assert t.cursors[i := MoveCursor(s, c)] == s.cursors[i := MoveCursor(s, c)];
      assert Times(CursorMove(i), n)[1..] == Times(CursorMove(i), n - 1);
      RunsAlone(s, i, MoveCursor(s, c), n - 1);
    }
  }

  /** A read of the cursor's slot that is not disturbed. */
  lemma {:induction false} ReadingAlone(s: State, c: Cursor, n: nat)
    requires Shaped(s) && c.pc.Reading?
    requires forall k :: 0 < k <= n ==> ReadAlone(s.slots[Slot(c.readPos)], c.pc.reader, BLOCK_SHAPE, k).Copy?
    ensures Alone(s, c, n)
            == c.(pc := c.pc.(reader := ReadAlone(s.slots[Slot(c.readPos)], c.pc.reader, BLOCK_SHAPE, n)))
    decreases n
  {
    if n > 0 {
      var r, rd := s.slots[Slot(c.readPos)], c.pc.reader;
      OneMoreLoad(r, rd, BLOCK_SHAPE, 0);
      assert ReadAlone(r, rd, BLOCK_SHAPE, 1) == ReaderStep(r, rd, BLOCK_SHAPE);
      var c' := MoveCursor(s, c);
      forall k | 0 <= k <= n - 1 ensures ReadAlone(r, c'.pc.reader, BLOCK_SHAPE, k) == ReadAlone(r, rd, BLOCK_SHAPE, k + 1) {
        ReadAloneMore(r, rd, BLOCK_SHAPE, 1, k);
      }
      ReadingAlone(s, c', n - 1);
    }
  }

  /** From one loop test to the next: the block of the slot is handed out. */
  lemma OneDelivery(s: State, c: Cursor) returns (n: nat)
    requires Shaped(s) && c.pc.Looping? && c.readPos < c.pc.wp && c.pc.room > 0
    requires s.slots[Slot(c.readPos)].lock % 2 == 0
    ensures var r := s.slots[Slot(c.readPos)];
            var d := Delivery(c.readPos, Content(BLOCK_SHAPE, r.words), |r.versions| - 1, r.begun, Frontier(s));
            Alone(s, c, n) == c.(readPos := c.readPos + 1, delivered := c.delivered + [d], pc := Looping(c.pc.wp, c.pc.room - 1))
  {
    hide ReadAlone;
    hide Alone;
    hide ReaderStep;
    hide Content;
    hide Needed;
    var r := s.slots[Slot(c.readPos)];
    var loads := Needed(BLOCK_SHAPE, r.words) + 1;
    var c1 := MoveCursor(s, c);
    AloneOnce(s, c);
    UndisturbedRead(r, BLOCK_SHAPE, 0);
    ReadingAlone(s, c1, loads);
    OneMoreLoad(r, Try(0), BLOCK_SHAPE, loads);
    var c2 := Alone(s, c1, loads);
    AloneAdd(s, c, 1, loads);
    AloneAdd(s, c, 1 + loads, 1);
    AloneOnce(s, c2);
    n := 1 + loads + 1;
  }

  /** The cursor stands at the end of a poll that read every position from `first` on. */
  ghost predicate GaveAll(s: State, c: Cursor, c': Cursor, first: nat, count: nat) {
    && first + count <= |s.published|
    && c'.start == c.start && c'.dropped == c.dropped && c'.readPos == first + count
    && |c'.delivered| == |c.delivered| + count
    && c'.delivered[..|c.delivered|] == c.delivered
    && forall k :: |c.delivered| <= k < |c'.delivered| ==>
         && c'.delivered[k].pos == first + (k - |c.delivered|)
         && c'.delivered[k].words == EncodeBlock(s.published[first + (k - |c.delivered|)])
  }

  /** Between two publishes the slot of one of the last 16 blocks holds it. */
  lemma SlotHolds(s: State, pos: nat)
    requires Inv(s) && s.producer.Idle? && pos < |s.published| <= pos + 16
    ensures s.slots[Slot(pos)].lock % 2 == 0
    ensures Content(BLOCK_SHAPE, s.slots[Slot(pos)].words) == EncodeBlock(s.published[pos])
  {
    var j, n := Slot(pos), |s.published|;
    assert SlotGood(s, j);
    var r := s.slots[j];
    EvenLock(r, Finished);
    UsesAt(j, n, pos / DEPTH);
    UsesAt(j, n, pos / DEPTH + 1);
    assert pos == j + pos / DEPTH * DEPTH;
    var v := |r.versions| - 1;
    assert v == pos / DEPTH + 1;
    assert VersionGood(s.published, r.versions[v], j + (v - 1) * DEPTH);
  }

  lemma GivesOneMore(s: State, c: Cursor, c1: Cursor, c2: Cursor, first: nat, count: nat)
    requires count > 0 && GaveAll(s, c, c1, first, count - 1) && first + count <= |s.published|
    requires c2.start == c1.start && c2.dropped == c1.dropped && c2.readPos == c1.readPos + 1
    requires |c2.delivered| == |c1.delivered| + 1 && c2.delivered[..|c1.delivered|] == c1.delivered
    requires c2.delivered[|c1.delivered|].pos == c1.readPos
    requires c2.delivered[|c1.delivered|].words == EncodeBlock(s.published[c1.readPos])
    ensures GaveAll(s, c, c2, first, count)
  {
    hide EncodeBlock;
    assert c2.delivered[..|c.delivered|] == c2.delivered[..|c1.delivered|][..|c.delivered|];
    forall k | |c.delivered| <= k < |c2.delivered|
      ensures c2.delivered[k].pos == first + (k - |c.delivered|)
              && c2.delivered[k].words == EncodeBlock(s.published[first + (k - |c.delivered|)])
    {
      assert k < |c1.delivered| ==> c2.delivered[k] == c2.delivered[..|c1.delivered|][k] == c1.delivered[k];
    }
  }

  lemma {:induction false} GivesAll(s: State, c: Cursor, count: nat) returns (n: nat)
    requires Inv(s) && s.producer.Idle? && c.pc.Looping? && |s.published| <= c.readPos + 16
    requires c.readPos + count <= c.pc.wp <= |s.published| && count <= c.pc.room
    ensures var c' := Alone(s, c, n);
            GaveAll(s, c, c', c.readPos, count) && c'.pc == Looping(c.pc.wp, c.pc.room - count)
    decreases count
  {
    InvIsShaped(s);
    hide Inv;
    hide EncodeBlock;
    hide Content;
    if count == 0 {
      n := 0;
    } else {
      hide Alone;
      var m := GivesAll(s, c, count - 1);
      var c1 := Alone(s, c, m);
      SlotHolds(s, c1.readPos);
      var k := OneDelivery(s, c1);
      AloneAdd(s, c, m, k);
      n := m + k;
      GivesOneMore(s, c, c1, Alone(s, c, n), c.readPos, count);
    }
  }

  lemma InvIsShaped(s: State)
    requires Inv(s)
    ensures Shaped(s)
  {
  }

  lemma CursorAtRest(s: State, i: nat)
    requires Inv(s) && s.producer.Idle? && i < |s.cursors| && s.cursors[i].pc.Parked?
    ensures Shaped(s) && s.writePos == |s.published| && s.cursors[i].readPos <= s.writePos
  {
    assert CursorGood(s, s.cursors[i]);
    hide SlotGood;
  }

  lemma GaveAllMeans(s: State, c: Cursor, c': Cursor, first: nat, count: nat)
    requires GaveAll(s, c, c', first, count)
    ensures c'.readPos == first + count
  {
  }

  lemma GaveAllParked(s: State, c: Cursor, c': Cursor, before: Cursor, first: nat, count: nat)
    requires GaveAll(s, c, c', first, count)
    requires before.start == c.start && before.dropped == c.dropped && before.delivered == c.delivered
    ensures GaveAll(s, before, c'.(pc := Parked), first, count)
  {
    hide EncodeBlock;
  }

  lemma LoopEnds(s: State, c: Cursor)
    requires Shaped(s) && c.pc.Looping? && (c.readPos >= c.pc.wp || c.pc.room == 0)
    ensures MoveCursor(s, c) == c.(pc := Parked)
  {
  }

  lemma PollBegins(s: State, i: nat, maxBlocks: nat, moves: nat)
    requires Shaped(s) && i < |s.cursors| && s.cursors[i].pc.Parked? && maxBlocks > 0
    ensures var begun := s.(cursors := s.cursors[i := Begin(s.cursors[i], s.writePos, maxBlocks)]);
            && Shaped(begun)
            && Exec(s, [Poll(i, maxBlocks)] + Times(CursorMove(i), moves)) == Exec(begun, Times(CursorMove(i), moves))
  {
    hide Begin;
    hide Times;
    assert ([Poll(i, maxBlocks)] + Times(CursorMove(i), moves))[1..] == Times(CursorMove(i), moves);
  }

  /** A poll that starts between two publishes and is not disturbed hands out every block published
      from where the cursor stands, or from 16 before write_pos, up to write_pos or as many as
      there is room for; it counts as dropped only what is further behind, and parks. */
  lemma UndisturbedPoll(s: State, i: nat, maxBlocks: nat) returns (moves: nat)
    requires Inv(s) && s.producer.Idle? && i < |s.cursors| && s.cursors[i].pc.Parked? && maxBlocks > 0
    ensures var t := Exec(s, [Poll(i, maxBlocks)] + Times(CursorMove(i), moves));
            var c, lapped := s.cursors[i], if s.writePos - s.cursors[i].readPos > 16 then s.writePos - s.cursors[i].readPos - 16 else 0;
            var first := c.readPos + lapped;
            && s.writePos == |s.published| && first <= s.writePos
            && t.published == s.published && |t.cursors| == |s.cursors| && t.cursors[i].pc.Parked?
            && GaveAll(s, c.(dropped := c.dropped + lapped), t.cursors[i], first, Min(maxBlocks, s.writePos - first))
  {
    hide Inv;
    hide Shaped;
    hide GaveAll;
    hide Alone;
    hide Exec;
    hide Step;
    hide MoveCursor;
    CursorAtRest(s, i);
    var c := s.cursors[i];
    var c1 := Begin(c, s.writePos, maxBlocks);
    var count := Min(maxBlocks, s.writePos - c1.readPos);
    var n := GivesAll(s, c1, count);
    PollBegins(s, i, maxBlocks, n + 1);
    AloneAdd(s, c1, n, 1);
    AloneOnce(s, Alone(s, c1, n));
    GaveAllMeans(s, c1, Alone(s, c1, n), c1.readPos, count);
    LoopEnds(s, Alone(s, c1, n));
    GaveAllParked(s, c1, Alone(s, c1, n), c.(dropped := c1.dropped), c1.readPos, count);
    moves := n + 1;
    RunsAlone(s, i, c1, moves);
  }

  lemma {:induction false} ExecAppended(s: State, a: seq<Action>, b: seq<Action>)
    requires Shaped(s)
    ensures Exec(s, a + b) == Exec(Exec(s, a), b)
    decreases |a|
  {
    hide Step;
    if a == [] {
      assert a + b == b;
    } else {
      ExecAppended(Step(s, a[0]), a[1..], b);
      assert (a + b)[1..] == a[1..] + b;
    }
  }

  lemma {:induction false} FillsAlone(s: State) returns (n: nat)
    requires Shaped(s) && s.producer.Filling? && !s.producer.writer.Finished?
    ensures var t := Exec(s, Times(ProducerMove, n));
            && t.producer.Advancing? && t.writePos == s.writePos && t.cursors == s.cursors
            && t.published == s.published + [s.producer.block]
    decreases StepsLeft(s.producer.writer)
  {
    var t := Step(s, ProducerMove);
    var m := 0;
    if t.producer.Filling? {
      m := FillsAlone(t);
    } else {
      assert Exec(t, Times(ProducerMove, 0)) == t;
    }
    n := m + 1;
    assert Times(ProducerMove, n)[1..] == Times(ProducerMove, m);
  }

  /** A publish that runs to its end adds one block: the frame's header, and its rows up to 200. */
  lemma PublishCompletes(s: State, frame: Frame) returns (moves: nat)
    requires Inv(s) && s.producer.Idle? && frame.nRows <= |frame.rows|
    ensures var t := Exec(s, [Publish(frame)] + Times(ProducerMove, moves));
            && t.producer.Idle? && t.writePos == s.writePos + 1 && t.cursors == s.cursors
            && |t.published| == |s.published| + 1 && t.published[..|s.published|] == s.published
            && var block := t.published[|s.published|];
               && block.nRows == (if frame.nRows < 200 then frame.nRows else 200)
               && block.rows == frame.rows[..block.nRows]
               && block.seqNo == frame.seqNo && block.timestamp == frame.timestamp && block.flags == frame.flags
  {
    var u := Step(s, Publish(frame));
    var n := FillsAlone(u);
    var v := Exec(u, Times(ProducerMove, n));
    moves := n + 1;
    TimesAdd(ProducerMove, n, 1);
    ExecAppended(u, Times(ProducerMove, n), Times(ProducerMove, 1));
    assert Times(ProducerMove, 1) == [ProducerMove] && Times(ProducerMove, 1)[1..] == [];
    assert Exec(v, Times(ProducerMove, 1)) == Exec(Step(v, ProducerMove), []);
    assert ([Publish(frame)] + Times(ProducerMove, moves))[1..] == Times(ProducerMove, moves);
  }
}
