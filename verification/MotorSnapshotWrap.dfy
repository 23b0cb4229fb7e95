/**
 Why the snapshot theorem carries its bound: the lock word of
 src/giga_spi_8adc/motor_shm.h has 32 bits, so after 2^31 publishes it is back
 where it was, and a reader that slept through them accepts a torn copy.
 */
module MotorSnapshotWrap {
  import opened Seqlock
  import opened MotorSnapshot

  lemma {:induction false} ExecAppend(s: State, a: seq<Action>, b: seq<Action>)
    requires Shaped(s)
    ensures Exec(s, a + b) == Exec(Exec(s, a), b)
    decreases |a|
  {
    if a == [] {
      assert a + b == b;
    } else {
      ExecAppend(Step(s, a[0]), a[1..], b);
      assert (a + b)[1..] == a[1..] + b;
    }
  }

  function Times(a: Action, n: nat): seq<Action> {
    if n == 0 then [] else [a] + Times(a, n - 1)
  }

  lemma ExecTimes(s: State, a: Action, n: nat)
    requires Shaped(s) && n > 0
    ensures Exec(s, Times(a, n)) == Exec(Step(s, a), Times(a, n - 1))
  {
    assert Times(a, n)[1..] == Times(a, n - 1);
  }

  // ---- publishing -------------------------------------------------------------

  const PUBLISH_MOVES: nat := ROW_WORDS + 6

  function OnePublish(sample: Sample): seq<Action> {
    [Publish(sample)] + Times(WriterMove, PUBLISH_MOVES)
  }

  /** s and t differ by `n` whole publishes of `sample`. */
  ghost predicate Later(s: State, t: State, sample: Sample, n: nat)
    requires Shaped(s)
  {
    && Shaped(t)
    && s.writer.Finished? && t.writer.Finished?
    && t.readers == s.readers
    && t.record.lock == (s.record.lock + 2 * n) % WRAP
    && t.record.words == (if n == 0 then s.record.words else Encode(sample))
    && t.record.begun == s.record.begun + n
    && |t.samples| == |s.samples| + n
    && t.samples[..|s.samples|] == s.samples
    && (forall k :: |s.samples| <= k < |t.samples| ==> t.samples[k] == sample)
  }

  lemma {:induction false} Drain(s: State)
    requires Shaped(s) && s.writer.Store?
    ensures var t := Exec(s, Times(WriterMove, |s.writer.todo| + 1));
            t == s.(writer := Finished,
                    record := Record((s.writer.s0 + 2) % WRAP, Apply(s.record.words, s.writer.todo), s.record.begun,
                                     s.record.versions + [Apply(s.record.words, s.writer.todo)]))
    decreases |s.writer.todo|
  {
    var todo := s.writer.todo;
    ExecTimes(s, WriterMove, |todo| + 1);
    if todo != [] {
      Drain(Step(s, WriterMove));
    }
  }

  lemma PublishOnce(s: State, sample: Sample)
    requires Shaped(s) && s.writer.Finished? && s.record.lock < WRAP
    ensures Later(s, Exec(s, OnePublish(sample)), sample, 1)
  {
    var todo := Sequentially(Encode(sample), 0);
    var s1 := Step(s, Publish(sample));
    var s2 := Step(s1, WriterMove);
    var s3 := Step(s2, WriterMove);
    assert OnePublish(sample)[1..] == Times(WriterMove, PUBLISH_MOVES);
    ExecTimes(s1, WriterMove, PUBLISH_MOVES);
    ExecTimes(s2, WriterMove, PUBLISH_MOVES - 1);
    assert s3.writer == Store(s.record.lock, todo);
    Drain(s3);
    ApplySequentially(Encode(sample), 0, s.record.words);
    assert Apply(s.record.words, todo) == Encode(sample);
  }

  function PublishMany(sample: Sample, n: nat): seq<Action> {
    if n == 0 then [] else PublishMany(sample, n - 1) + OnePublish(sample)
  }

  lemma {:induction false} PublishManyTimes(s: State, sample: Sample, n: nat)
    requires Shaped(s) && s.writer.Finished? && s.record.lock < WRAP
    ensures Later(s, Exec(s, PublishMany(sample, n)), sample, n)
  {
    if n == 0 {
      LessThanWrap(s.record.lock);
    } else {
      PublishManyTimes(s, sample, n - 1);
      var t := Exec(s, PublishMany(sample, n - 1));
      ExecAppend(s, PublishMany(sample, n - 1), OnePublish(sample));
      PublishOnce(t, sample);
      WrapPlus(s.record.lock + 2 * (n - 1), 2);
    }
  }

  lemma LessThanWrap(n: nat)
    requires n < WRAP
    ensures n % WRAP == n
  {
  }

  // ---- a reader that slept ------------------------------------------------------

  lemma {:induction false} CopyTheRest(s: State, copied: seq<Word>, n: nat)
    requires Shaped(s) && |s.readers| == 1 && |copied| + n == ROW_WORDS + 3
    requires s.readers[0] == SnapshotReader(Copy(0, s.record.lock, copied, 0), true, [])
    ensures var t := Exec(s, Times(ReaderMove(0), n + 1));
            && t.samples == s.samples
            && |t.readers| == 1
            && t.readers[0].readings == [Reading(copied + s.record.words[|copied|..], 0, s.record.begun)]
    decreases n
  {
    ExecTimes(s, ReaderMove(0), n + 1);
    if n > 0 {
      var copied' := copied + [s.record.words[|copied|]];
      CopyTheRest(Step(s, ReaderMove(0)), copied', n - 1);
      assert copied' + s.record.words[|copied'|..] == copied + s.record.words[|copied|..];
    } else {
      assert copied + s.record.words[|copied|..] == copied;
    }
  }

  const ZEROS: seq<Word> := [0, 0, 0, 0, 0, 0, 0, 0, 0, 0, 0, 0, 0, 0, 0]
  const ONES: Sample := Sample([1, 1, 1, 1, 1, 1, 1, 1, 1, 1, 1, 1], 1, 1, 1)

  /** The run: read the lock and one word, sleep through 2^31 publishes, read the rest. */
  function WrapRun(): seq<Action> {
    [BeginRead(0)] + Times(ReaderMove(0), 2)
    + (PublishMany(ONES, HALF_WRAP) + Times(ReaderMove(0), ROW_WORDS + 3))
  }

  lemma FirstLoads(s: State)
    requires s == Init(ZEROS, 1)
    ensures Exec(s, [BeginRead(0)] + Times(ReaderMove(0), 2))
            == s.(readers := [SnapshotReader(Copy(0, 0, [0], 0), true, [])])
  {
    var first := [BeginRead(0)] + Times(ReaderMove(0), 2);
    var s1 := Step(s, BeginRead(0));
    assert s1.readers == [SnapshotReader(Try(0), true, [])];
    assert first[1..] == Times(ReaderMove(0), 2);
    ExecTimes(s1, ReaderMove(0), 2);
    var s2 := Step(s1, ReaderMove(0));
    ExecTimes(s2, ReaderMove(0), 1);
    assert s2.readers == [SnapshotReader(Copy(0, 0, [], 0), true, [])];
    var s3 := Step(s2, ReaderMove(0));
    assert [] + [ZEROS[0]] == [0];
    assert ReaderStep(s2.record, Copy(0, 0, [], 0), SHAPE) == Copy(0, 0, [0], 0);
    assert s3.readers == [SnapshotReader(Copy(0, 0, [0], 0), true, [])];
  }

  /** With exactly 2^31 publishes inside one attempt a successful read can return
      words that no single publish ever wrote. */
  lemma TornReadAfterWrap()
    ensures var s := Exec(Init(ZEROS, 1), WrapRun());
            && |s.readers| == 1
            && |s.readers[0].readings| == 1
            && var g := s.readers[0].readings[0];
               && g.begunAtCheck - g.completed == HALF_WRAP
               && forall k: nat :: !FromVersion(g.words, k, ZEROS, s.samples)
  {
    hide Times;
    hide PublishMany;
    hide Exec;
    var s0 := Init(ZEROS, 1);
    var first := [BeginRead(0)] + Times(ReaderMove(0), 2);
    var rest := Times(ReaderMove(0), ROW_WORDS + 3);
    FirstLoads(s0);
    var s1 := Exec(s0, first);
    PublishManyTimes(s1, ONES, HALF_WRAP);
    var s2 := Exec(s1, PublishMany(ONES, HALF_WRAP));
    ExecAppend(s0, first, PublishMany(ONES, HALF_WRAP) + rest);
    ExecAppend(s1, PublishMany(ONES, HALF_WRAP), rest);
    assert s2.record.lock == 0;
    CopyTheRest(s2, [0], ROW_WORDS + 2);
    var s := Exec(s2, rest);
    var g := s.readers[0].readings[0];
    assert g.words == [0] + Encode(ONES)[1..];
    assert g.words[0] == 0 && g.words[1] == 1;
    assert Encode(ONES)[0] == 1 && ZEROS[1] == 0;
  }
}
