/**
 The latest-values snapshot: motor_snapshot_publish and motor_snapshot_read of
 src/giga_spi_8adc/motor_shm.h, run by one producer and any number of readers
 whose memory accesses interleave freely.
 */
module MotorSnapshot {
  import opened Seqlock

  datatype Sample = Sample(row: Row, producerSeq: Word, timestamp: Word, flags: Word)

  const SHAPE: Shape := Fixed(ROW_WORDS + 3)

  /** The shared words in the order both sides touch them. */
  function Encode(s: Sample): (words: seq<Word>)
    ensures |words| == ROW_WORDS + 3
  {
    s.row + [s.producerSeq, s.timestamp, s.flags]
  }

  // ---- the interleaving machine ---------------------------------------------

  /** A successful read: what it returned, the publishes complete when its
      successful attempt loaded s1, and those begun when it loaded s2. */
  datatype Reading = Reading(words: seq<Word>, completed: nat, begunAtCheck: nat)

  datatype SnapshotReader = SnapshotReader(pc: Reader, busy: bool, readings: seq<Reading>)

  datatype State = State(
    record: Record,
    writer: Writer,                 // Finished between publishes
    samples: seq<Sample>,           // history: every publish begun, in order
    readers: seq<SnapshotReader>)

  datatype Action =
    | Publish(sample: Sample)       // enter motor_snapshot_publish
    | WriterMove                    // its next load or store
    | BeginRead(reader: nat)        // enter motor_snapshot_read
    | ReaderMove(reader: nat)       // its next load

  function Init(initial: seq<Word>, nReaders: nat): State
    requires |initial| == ROW_WORDS + 3
  {
    State(Record(0, initial, 0, [initial]), Finished, [],
          seq(nReaders, _ => SnapshotReader(Failure, false, [])))
  }

  predicate Shaped(s: State) {
    && |s.record.words| == ROW_WORDS + 3
    && |s.record.versions| >= 1
    && WriterFits(s.writer, |s.record.words|)
  }

  /** An action that is not enabled leaves the state alone. */
  function Step(s: State, a: Action): (t: State)
    requires Shaped(s)
    ensures Shaped(t)
  {
    match a
    case Publish(sample) =>
      if s.writer.Finished? then
        s.(writer := Start(Sequentially(Encode(sample), 0)), samples := s.samples + [sample])
      else s
    case WriterMove =>
      if s.writer.Finished? then s
      else var (r, w) := WriterStep(s.record, s.writer); s.(record := r, writer := w)
    case BeginRead(i) =>
      if i < |s.readers| && !s.readers[i].busy then
        s.(readers := s.readers[i := s.readers[i].(pc := Try(0), busy := true)])
      else s
    case ReaderMove(i) =>
      if i < |s.readers| && s.readers[i].busy then
        s.(readers := s.readers[i := MoveReader(s.record, s.readers[i])])
      else s
  }

  function MoveReader(r: Record, p: SnapshotReader): SnapshotReader
    requires |r.words| == ROW_WORDS + 3 && |r.versions| >= 1
  {
    var pc := ReaderStep(r, p.pc, SHAPE);
    match pc
    case Success(copied, version, begun) =>
      SnapshotReader(pc, false, p.readings + [Reading(copied, version, begun)])
    case Failure => SnapshotReader(pc, false, p.readings)
    case _ => SnapshotReader(pc, true, p.readings)
  }

  // ---- the invariant --------------------------------------------------------

  /** A reading within the wrap bound is one whole version, the one current at its s1 load. */
  ghost predicate ReadingIsWhole(g: Reading, versions: seq<seq<Word>>) {
    && g.completed < |versions|
    && (g.begunAtCheck - g.completed < HALF_WRAP ==>
          g.begunAtCheck == g.completed && g.words == versions[g.completed])
  }

  ghost predicate ReaderGood(p: SnapshotReader, r: Record) {
    && (p.busy <==> (p.pc.Try? || p.pc.Copy?))
    && ReaderInv(r, p.pc, SHAPE)
    && (forall k :: 0 <= k < |p.readings| ==> ReadingIsWhole(p.readings[k], r.versions))
    && (forall k, m :: 0 <= k < m < |p.readings| ==> p.readings[k].completed <= p.readings[m].completed)
    && (p.pc.Copy? ==> forall k :: 0 <= k < |p.readings| ==> p.readings[k].completed <= p.pc.version)
  }

  /** Version k is the k-th sample published, version 0 the initial contents. */
  ghost predicate VersionsAreSamples(s: State) {
    && |s.record.versions| == |s.samples| + (if s.writer.Finished? then 1 else 0)
    && (forall k :: 1 <= k < |s.record.versions| ==> s.record.versions[k] == Encode(s.samples[k - 1]))
    && (!s.writer.Finished? ==>
          s.samples != []
          && InRange(s.writer.todo, |s.record.words|)
          && Apply(s.record.words, s.writer.todo) == Encode(s.samples[|s.samples| - 1]))
  }

  ghost predicate Inv(s: State) {
    && Shaped(s)
    && WriterInv(s.record, s.writer)
    && VersionsAreSamples(s)
    && (forall i :: 0 <= i < |s.readers| ==> ReaderGood(s.readers[i], s.record))
  }

  lemma InitInv(initial: seq<Word>, nReaders: nat)
    requires |initial| == ROW_WORDS + 3
    ensures Inv(Init(initial, nReaders))
  {
  }

  lemma PublishInv(s: State, sample: Sample)
    requires Inv(s)
    ensures Inv(Step(s, Publish(sample)))
  {
    if s.writer.Finished? {
      var words := Encode(sample);
      ApplySequentially(words, 0, s.record.words);
      assert Apply(s.record.words, Sequentially(words, 0)) == words;
    }
  }

  lemma WriterMoveInv(s: State)
    requires Inv(s)
    ensures Inv(Step(s, WriterMove))
  {
    if !s.writer.Finished? {
      WriterKeepsInv(s.record, s.writer);
      forall i | 0 <= i < |s.readers| ensures ReaderGood(s.readers[i], WriterStep(s.record, s.writer).0) {
        ReaderStable(s.record, s.writer, s.readers[i].pc, SHAPE);
      }
    }
  }

  lemma MoveReaderGood(r: Record, w: Writer, p: SnapshotReader)
    requires WriterInv(r, w) && |r.words| == ROW_WORDS + 3
    requires ReaderGood(p, r) && p.busy
    ensures ReaderGood(MoveReader(r, p), r)
  {
    ReaderKeepsInv(r, w, p.pc, SHAPE);
    var p' := MoveReader(r, p);
    if p'.pc.Success? && r.begun - p.pc.version < HALF_WRAP {
      AcceptedIsWhole(r, w, p.pc, SHAPE);
    }
  }

  lemma StepInv(s: State, a: Action)
    requires Inv(s)
    ensures Inv(Step(s, a))
  {
    match a
    case Publish(sample) => PublishInv(s, sample);
    case WriterMove => WriterMoveInv(s);
    case BeginRead(i) =>
    case ReaderMove(i) =>
      if i < |s.readers| && s.readers[i].busy {
        MoveReaderGood(s.record, s.writer, s.readers[i]);
      }
  }

  /** The state after a whole run. */
  function Exec(s: State, run: seq<Action>): (t: State)
    requires Shaped(s)
    ensures Shaped(t)
    decreases |run|
  {
    if run == [] then s else Exec(Step(s, run[0]), run[1..])
  }

  lemma {:induction false} ExecInv(s: State, run: seq<Action>)
    requires Inv(s)
    ensures Inv(Exec(s, run))
    ensures Exec(s, run).record.versions[0] == s.record.versions[0]
    decreases |run|
  {
    if run != [] {
      StepInv(s, run[0]);
      ExecInv(Step(s, run[0]), run[1..]);
    }
  }

  /** Words that a single publish, or the initial contents, put in the record. */
  ghost predicate FromVersion(words: seq<Word>, k: nat, initial: seq<Word>, samples: seq<Sample>) {
    k <= |samples| && words == if k == 0 then initial else Encode(samples[k - 1])
  }

  /** In every interleaving, a read during which fewer than 2^31 publishes began returns
      row, sequence number, timestamp and flags of one publish: the last one complete
      when its successful attempt started. */
  lemma SnapshotReadsAreWhole(initial: seq<Word>, nReaders: nat, run: seq<Action>)
    requires |initial| == ROW_WORDS + 3
    ensures var s := Exec(Init(initial, nReaders), run);
            forall i, k :: 0 <= i < |s.readers| && 0 <= k < |s.readers[i].readings| ==>
              var g := s.readers[i].readings[k];
              g.begunAtCheck - g.completed < HALF_WRAP ==>
                FromVersion(g.words, g.completed, initial, s.samples)
  {
    InitInv(initial, nReaders);
    ExecInv(Init(initial, nReaders), run);
    var s := Exec(Init(initial, nReaders), run);
    forall i, k | 0 <= i < |s.readers| && 0 <= k < |s.readers[i].readings|
      ensures var g := s.readers[i].readings[k];
              g.begunAtCheck - g.completed < HALF_WRAP ==>
                FromVersion(g.words, g.completed, initial, s.samples)
    {
      assert ReaderGood(s.readers[i], s.record);
    }
  }

  /** Successive reads by one reader never go back to an older publish. */
  lemma SnapshotReadsNeverGoBack(initial: seq<Word>, nReaders: nat, run: seq<Action>)
    requires |initial| == ROW_WORDS + 3
    ensures var s := Exec(Init(initial, nReaders), run);
            forall i, k, m :: 0 <= i < |s.readers| && 0 <= k < m < |s.readers[i].readings| ==>
              s.readers[i].readings[k].completed <= s.readers[i].readings[m].completed
  {
    InitInv(initial, nReaders);
    ExecInv(Init(initial, nReaders), run);
    var s := Exec(Init(initial, nReaders), run);
    forall i | 0 <= i < |s.readers| ensures ReaderGood(s.readers[i], s.record) {
    }
  }

  // ---- nothing is held back -------------------------------------------------

  /** What reader i accepts over a run: every copy whose second lock load agrees with its first. */
  function AcceptedBy(s: State, run: seq<Action>, i: nat): seq<Reading>
    requires Shaped(s)
    decreases |run|
  {
    if run == [] then []
    else
      var now :=
        if run[0] == ReaderMove(i) && i < |s.readers| && s.readers[i].busy then
          match ReaderStep(s.record, s.readers[i].pc, SHAPE)
          case Success(words, completed, begun) => [Reading(words, completed, begun)]
          case _ => []
        else [];
      now + AcceptedBy(Step(s, run[0]), run[1..], i)
  }

  /** Each is returned, in order, and nothing else. */
  lemma {:induction false} ReadingsAreAccepted(s: State, run: seq<Action>, i: nat)
    requires Shaped(s) && i < |s.readers|
    ensures |Exec(s, run).readers| == |s.readers|
    ensures Exec(s, run).readers[i].readings == s.readers[i].readings + AcceptedBy(s, run, i)
    decreases |run|
  {
    if run != [] {
      ReadingsAreAccepted(Step(s, run[0]), run[1..], i);
    }
  }

  function Times(a: Action, n: nat): (run: seq<Action>)
    ensures |run| == n
  {
    if n == 0 then [] else [a] + Times(a, n - 1)
  }

  lemma {:induction false} ReadsOn(s: State, i: nat, n: nat)
    requires Shaped(s) && i < |s.readers| && s.readers[i].busy && !s.readers[i].pc.Success?
    requires forall k :: 0 < k <= n ==> ReadAlone(s.record, s.readers[i].pc, SHAPE, k).Copy?
    ensures Exec(s, Times(ReaderMove(i), n))
            == s.(readers := s.readers[i := s.readers[i].(pc := ReadAlone(s.record, s.readers[i].pc, SHAPE, n))])
    decreases n
  {
    if n == 0 {
      assert s.readers[i := s.readers[i]] == s.readers;
    } else {
      var pc := s.readers[i].pc;
      assert ReadAlone(s.record, pc, SHAPE, 1) == ReaderStep(s.record, ReadAlone(s.record, pc, SHAPE, 0), SHAPE);
      var t := Step(s, ReaderMove(i));
      assert t == s.(readers := s.readers[i := s.readers[i].(pc := ReadAlone(s.record, pc, SHAPE, 1))]);
      forall k | 0 <= k <= n - 1
        ensures ReadAlone(s.record, t.readers[i].pc, SHAPE, k) == ReadAlone(s.record, pc, SHAPE, k + 1)
      {
        ReadAloneMore(s.record, pc, SHAPE, 1, k);
      }
      ReadsOn(t, i, n - 1);
      assert Times(ReaderMove(i), n)[1..] == Times(ReaderMove(i), n - 1);
      assert t.readers[i := t.readers[i].(pc := ReadAlone(s.record, pc, SHAPE, n))]
             == s.readers[i := s.readers[i].(pc := ReadAlone(s.record, pc, SHAPE, n))];
    }
  }

  lemma {:induction false} ExecAppended(s: State, a: seq<Action>, b: seq<Action>)
    requires Shaped(s)
    ensures Exec(s, a + b) == Exec(Exec(s, a), b)
    decreases |a|
  {
    if a == [] {
      assert a + b == b;
    } else {
      ExecAppended(Step(s, a[0]), a[1..], b);
      assert (a + b)[1..] == a[1..] + b;
    }
  }

  lemma LastLoad(r: Record, p: SnapshotReader)
    requires |r.words| == ROW_WORDS + 3 && |r.versions| >= 1 && r.lock % 2 == 0
    requires p.pc == ReadAlone(r, Try(0), SHAPE, 16)
    ensures MoveReader(r, p)
            == SnapshotReader(Success(r.words, |r.versions| - 1, r.begun), false,
                              p.readings + [Reading(r.words, |r.versions| - 1, r.begun)])
  {
    hide ReadAlone;
    hide ReaderStep;
    UndisturbedRead(r, SHAPE, 0);
    assert r.words[..15] == r.words;
    OneMoreLoad(r, Try(0), SHAPE, 16);
  }

  lemma ReadsToEnd(s: State, i: nat)
    requires Shaped(s) && i < |s.readers| && s.readers[i].busy && s.readers[i].pc == Try(0) && s.record.lock % 2 == 0
    ensures var done := SnapshotReader(Success(s.record.words, |s.record.versions| - 1, s.record.begun), false,
                          s.readers[i].readings + [Reading(s.record.words, |s.record.versions| - 1, s.record.begun)]);
            Exec(s, Times(ReaderMove(i), 17)) == s.(readers := s.readers[i := done])
  {
    hide Times;
    hide ReadAlone;
    hide ReaderStep;
    hide Exec;
    UndisturbedRead(s.record, SHAPE, 0);
    ReadsOn(s, i, 16);
    var v := Exec(s, Times(ReaderMove(i), 16));
    LastLoad(s.record, v.readers[i]);
    OneMoreTime(ReaderMove(i), 16);
    ExecAppended(s, Times(ReaderMove(i), 16), [ReaderMove(i)]);
    ExecOnce(v, ReaderMove(i));
    hide MoveReader;
    assert v.readers[i := MoveReader(s.record, v.readers[i])] == s.readers[i := MoveReader(s.record, v.readers[i])];
  }

  lemma ExecOnce(s: State, a: Action)
    requires Shaped(s)
    ensures Exec(s, [a]) == Step(s, a)
  {
    assert [a][1..] == [];
    assert Exec(Step(s, a), []) == Step(s, a);
  }

  /** A read that starts between two publishes and is not disturbed returns, after 17 loads, the
      last sample published. */
  lemma UndisturbedReadReturns(s: State, i: nat)
    requires Inv(s) && s.writer.Finished? && i < |s.readers| && !s.readers[i].busy && s.samples != []
    ensures var t := Exec(s, [BeginRead(i)] + Times(ReaderMove(i), 17));
            && |t.readers| == |s.readers| && t.record == s.record && !t.readers[i].busy
            && |t.readers[i].readings| == |s.readers[i].readings| + 1
            && t.readers[i].readings[|s.readers[i].readings|].words == Encode(s.samples[|s.samples| - 1])
  {
    EvenLock(s.record, Finished);
    assert s.record.words == Encode(s.samples[|s.samples| - 1]);
    hide Inv;
    hide WriterInv;
    hide Times;
    hide Encode;
    var u := Step(s, BeginRead(i));
    assert ([BeginRead(i)] + Times(ReaderMove(i), 17))[1..] == Times(ReaderMove(i), 17);
    ReadsToEnd(u, i);
  }

  lemma {:induction false} OneMoreTime(a: Action, n: nat)
    ensures Times(a, n + 1) == Times(a, n) + [a]
    decreases n
  {
    if n > 0 {
      OneMoreTime(a, n - 1);
    }
  }
}
