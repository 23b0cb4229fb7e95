/**
 One sequence-locked record of src/giga_spi_8adc/motor_shm.h, shared by the
 snapshot and by every slot of the block ring.

 The record is a vector of scalar words behind a 32-bit lock word.  A writer and
 a reader are small-step machines: each step is one load or one store, so any
 interleaving of the code's memory accesses is an interleaving of these steps
 (sequentially consistent memory).  `begun` and `versions` are history: how many
 publishes have stored an odd lock word, and the contents at every even one.
 */
module Seqlock {
  import opened Common

  const WRAP: nat := 0x1_0000_0000       // the lock word is a uint32_t
  const HALF_WRAP: nat := 0x8000_0000    // publishes that make it come round
  const MAX_TRIES: nat := 64

  type Word = nat

  const ROW_WORDS: nat := 12    // one motor_row_t: eight currents, three vibration axes, rpm

  type Row = r: seq<Word> | |r| == ROW_WORDS witness [0, 0, 0, 0, 0, 0, 0, 0, 0, 0, 0, 0]

  datatype Write = Write(index: nat, value: Word)

  datatype Record = Record(lock: nat, words: seq<Word>, begun: nat, versions: seq<seq<Word>>)

  /** How many words a reader copies: all of them, or a header whose first word
      says how many rows follow, clamped to `maxRows`. */
  datatype Shape = Fixed(size: nat) | Counted(header: nat, perRow: nat, maxRows: nat)

  function Needed(shape: Shape, words: seq<Word>): nat {
    match shape
    case Fixed(size) => size
    case Counted(header, perRow, maxRows) =>
      if words == [] then 1 else header + perRow * Min(words[0], maxRows)
  }

  predicate Fits(shape: Shape, size: nat) {
    match shape
    case Fixed(n) => n == size
    case Counted(header, perRow, maxRows) => header > 0 && size == header + perRow * maxRows
  }

  lemma NeededFits(shape: Shape, words: seq<Word>, size: nat)
    requires Fits(shape, size)
    ensures Needed(shape, words) <= size
  {
    match shape
    case Fixed(_) =>
    case Counted(header, perRow, maxRows) =>
      if words != [] {
        MulMonotone(perRow, Min(words[0], maxRows), maxRows);
      } else {
        MulMonotone(perRow, 0, maxRows);
      }
  }

  lemma MulMonotone(k: nat, a: nat, b: nat)
    requires a <= b
    ensures k * a <= k * b
  {
  }

  /** What a reader of this shape takes out of a record holding `words`. */
  function Content(shape: Shape, words: seq<Word>): seq<Word>
    requires Fits(shape, |words|)
  {
    NeededFits(shape, words, |words|);
    words[..Needed(shape, words)]
  }

  // ---- the writer -----------------------------------------------------------

  datatype Writer =
    | Start(todo: seq<Write>)              // about to load the lock word
    | Claim(s0: nat, todo: seq<Write>)     // about to store s0 + 1 (odd)
    | Store(s0: nat, todo: seq<Write>)     // about to store a word, or s0 + 2 (even)
    | Finished

  predicate InRange(todo: seq<Write>, size: nat) {
    forall i :: 0 <= i < |todo| ==> todo[i].index < size
  }

  predicate WriterFits(w: Writer, size: nat) {
    w.Finished? || InRange(w.todo, size)
  }

  function WriterStep(r: Record, w: Writer): (Record, Writer)
    requires !w.Finished? && WriterFits(w, |r.words|)
  {
    match w
    case Start(todo) => (r, Claim(r.lock, todo))
    case Claim(s0, todo) => (r.(lock := (s0 + 1) % WRAP, begun := r.begun + 1), Store(s0, todo))
    case Store(s0, todo) =>
      if todo == [] then
        (r.(lock := (s0 + 2) % WRAP, versions := r.versions + [r.words]), Finished)
      else
        (r.(words := r.words[todo[0].index := todo[0].value]), Store(s0, todo[1..]))
  }

  /** The words once every pending store has landed. */
  function Apply(words: seq<Word>, todo: seq<Write>): (r: seq<Word>)
    requires InRange(todo, |words|)
    ensures |r| == |words|
    decreases |todo|
  {
    if todo == [] then words
    else Apply(words[todo[0].index := todo[0].value], todo[1..])
  }

  /** Stores of words[0], words[1], ... to consecutive addresses from `at`. */
  function Sequentially(words: seq<Word>, at: nat): (todo: seq<Write>)
    ensures |todo| == |words|
    ensures forall i :: 0 <= i < |words| ==> todo[i] == Write(at + i, words[i])
  {
    seq(|words|, i requires 0 <= i < |words| => Write(at + i, words[i]))
  }

  lemma {:induction false} ApplySequentially(words: seq<Word>, at: nat, base: seq<Word>)
    requires at + |words| <= |base|
    ensures InRange(Sequentially(words, at), |base|)
    ensures forall i :: 0 <= i < |base| ==>
              Apply(base, Sequentially(words, at))[i]
              == if at <= i < at + |words| then words[i - at] else base[i]
    decreases |words|
  {
    var todo := Sequentially(words, at);
    if words != [] {
      assert todo[1..] == Sequentially(words[1..], at + 1);
      ApplySequentially(words[1..], at + 1, base[at := words[0]]);
    }
  }

  /** The lock word is even exactly between publishes, and there the words are the last version. */
  ghost predicate WriterInv(r: Record, w: Writer) {
    && |r.versions| >= 1
    && (forall k :: 0 <= k < |r.versions| ==> |r.versions[k]| == |r.words|)
    && r.lock == (r.begun + |r.versions| - 1) % WRAP
    && WriterFits(w, |r.words|)
    && (if w.Store? then
          r.begun == |r.versions| && r.lock == (w.s0 + 1) % WRAP
        else
          && r.begun == |r.versions| - 1
          && r.words == r.versions[|r.versions| - 1]
          && (w.Claim? ==> w.s0 == r.lock))
  }

  lemma WrapPlus(n: nat, k: nat)
    ensures (n % WRAP + k) % WRAP == (n + k) % WRAP
  {
    var q := n / WRAP;
    assert n + k == n % WRAP + k + q * WRAP;
    WrapMultiple(n % WRAP + k, q);
  }

  lemma {:induction false} WrapMultiple(n: nat, q: nat)
    ensures (n + q * WRAP) % WRAP == n % WRAP
  {
    if q > 0 {
      WrapMultiple(n, q - 1);
      assert n + q * WRAP == n + (q - 1) * WRAP + WRAP;
    }
  }

  lemma WriterKeepsInv(r: Record, w: Writer)
    requires !w.Finished? && WriterInv(r, w)
    ensures var (r', w') := WriterStep(r, w); WriterInv(r', w')
  {
    if w.Claim? {
      WrapPlus(r.begun + |r.versions| - 1, 1);
    }
    if w.Store? {
      if w.todo == [] {
        WrapPlus(r.begun + |r.versions| - 1, 1);
        WrapPlus(w.s0 + 1, 1);
      } else {
        assert w.todo[0].index < |r.words|;
      }
    }
  }

  // ---- the reader -----------------------------------------------------------

  /** `version` is history: the number of publishes completed when s1 was loaded. */
  datatype Reader =
    | Try(tries: nat)
    | Copy(tries: nat, s1: nat, copied: seq<Word>, version: nat)
    | Success(copied: seq<Word>, version: nat, begun: nat)
    | Failure

  function ReaderStep(r: Record, rd: Reader, shape: Shape): Reader
    requires Fits(shape, |r.words|) && |r.versions| >= 1
  {
    match rd
    case Try(tries) =>
      if tries >= MAX_TRIES then Failure
      else if r.lock % 2 == 1 then Try(tries + 1)
      else Copy(tries, r.lock, [], |r.versions| - 1)
    case Copy(tries, s1, copied, version) =>
      if |copied| < Needed(shape, copied) then
        NeededFits(shape, copied, |r.words|);
        Copy(tries, s1, copied + [r.words[|copied|]], version)
      else if r.lock == s1 then Success(copied, version, r.begun)
      else Try(tries + 1)
    case _ => rd
  }

  /** While no publish has begun since s1 was loaded, what was copied is a prefix of the words. */
  ghost predicate ReaderInv(r: Record, rd: Reader, shape: Shape) {
    rd.Copy? ==>
      && |rd.copied| <= Needed(shape, rd.copied)
      && rd.version < |r.versions|
      && rd.version <= r.begun
      && rd.s1 == (2 * rd.version) % WRAP
      && (r.begun == rd.version ==> |rd.copied| <= |r.words| && rd.copied == r.words[..|rd.copied|])
  }

  lemma ReaderStable(r: Record, w: Writer, rd: Reader, shape: Shape)
    requires !w.Finished? && WriterInv(r, w) && ReaderInv(r, rd, shape)
    ensures ReaderInv(WriterStep(r, w).0, rd, shape)
  {
    if rd.Copy? && w.Store? {
      assert r.begun > rd.version;
    }
  }

  lemma ReaderKeepsInv(r: Record, w: Writer, rd: Reader, shape: Shape)
    requires WriterInv(r, w) && ReaderInv(r, rd, shape) && Fits(shape, |r.words|)
    ensures ReaderInv(r, ReaderStep(r, rd, shape), shape)
  {
    if rd.Try? && r.lock % 2 == 0 {
      EvenLock(r, w);
    }
    if rd.Copy? && |rd.copied| < Needed(shape, rd.copied) {
      NeededFits(shape, rd.copied, |r.words|);
      if r.begun == rd.version {
        var n := |rd.copied|;
        assert r.words[..n + 1] == r.words[..n] + [r.words[n]];
      }
    }
  }

  /** An even lock word means no publish is in progress. */
  lemma EvenLock(r: Record, w: Writer)
    requires WriterInv(r, w)
    ensures r.lock % 2 == 0 <==> !w.Store?
    ensures !w.Store? ==> r.lock == (2 * (|r.versions| - 1)) % WRAP
  {
    EvenResidue(r.begun + |r.versions| - 1);
  }

  lemma EvenResidue(n: nat)
    ensures n % WRAP % 2 == n % 2
  {
    var q := n / WRAP;
    assert n == 2 * (0x8000_0000 * q) + n % WRAP;
  }

  /** The second lock load succeeds inside the wrap bound only if nothing was published meanwhile. */
  lemma AcceptedIsCurrent(r: Record, w: Writer, rd: Reader, shape: Shape)
    requires WriterInv(r, w) && ReaderInv(r, rd, shape) && rd.Copy?
    requires r.lock == rd.s1 && r.begun - rd.version < HALF_WRAP
    ensures r.begun == rd.version == |r.versions| - 1
    ensures !w.Store?
  {
    var n, m := r.begun + |r.versions| - 1, 2 * rd.version;
    assert n % WRAP == m % WRAP;
    assert n == WRAP * (n / WRAP) + n % WRAP && m == WRAP * (m / WRAP) + m % WRAP;
    assert |r.versions| <= r.begun + 1;
    assert m <= n < m + WRAP;
  }

  /** A successful read inside the wrap bound is exactly the version that was
      complete when the attempt loaded the lock word. */
  lemma AcceptedIsWhole(r: Record, w: Writer, rd: Reader, shape: Shape)
    requires WriterInv(r, w) && ReaderInv(r, rd, shape) && rd.Copy? && Fits(shape, |r.words|)
    requires ReaderStep(r, rd, shape).Success?
    requires r.begun - rd.version < HALF_WRAP
    ensures r.begun == rd.version == |r.versions| - 1
    ensures rd.copied == Content(shape, r.versions[rd.version])
  {
    AcceptedIsCurrent(r, w, rd, shape);
    WholePrefix(shape, r.words, rd.copied);
  }

  // ---- whole calls ----------------------------------------------------------

  /** How many steps a writer has before it. */
  function StepsLeft(w: Writer): nat {
    match w
    case Start(todo) => |todo| + 3
    case Claim(_, todo) => |todo| + 2
    case Store(_, todo) => |todo| + 1
    case Finished => 0
  }

  /** A publish left alone runs to its end. */
  function RunWriter(r: Record, w: Writer): Record
    requires WriterFits(w, |r.words|)
    decreases StepsLeft(w)
  {
    if w.Finished? then r
    else var (r', w') := WriterStep(r, w); RunWriter(r', w')
  }

  /** What one whole publish does to a record. */
  function Published(r: Record, todo: seq<Write>): Record
    requires InRange(todo, |r.words|)
  {
    var words := Apply(r.words, todo);
    Record((r.lock + 2) % WRAP, words, r.begun + 1, r.versions + [words])
  }

  lemma {:induction false} StoresRun(r: Record, s0: nat, todo: seq<Write>)
    requires InRange(todo, |r.words|)
    ensures RunWriter(r, Store(s0, todo))
            == var words := Apply(r.words, todo);
               r.(lock := (s0 + 2) % WRAP, words := words, versions := r.versions + [words])
    decreases |todo|
  {
    if todo != [] {
      StoresRun(r.(words := r.words[todo[0].index := todo[0].value]), s0, todo[1..]);
    }
  }

  /** The steps of a publish that nothing interrupts amount to Published. */
  lemma PublishAlone(r: Record, todo: seq<Write>)
    requires InRange(todo, |r.words|)
    ensures RunWriter(r, Start(todo)) == Published(r, todo)
  {
    var (r1, w1) := WriterStep(r, Start(todo));
    var (r2, w2) := WriterStep(r1, w1);
    assert RunWriter(r, Start(todo)) == RunWriter(r1, w1) == RunWriter(r2, w2);
    StoresRun(r2, r.lock, todo);
  }

  lemma PublishedKeepsInv(r: Record, todo: seq<Write>)
    requires WriterInv(r, Finished) && InRange(todo, |r.words|)
    ensures WriterInv(Published(r, todo), Finished)
  {
    WrapPlus(r.begun + |r.versions| - 1, 2);
  }

  /** A reader after n steps on a record nobody writes. */
  function ReadAlone(r: Record, rd: Reader, shape: Shape, n: nat): Reader
    requires Fits(shape, |r.words|) && |r.versions| >= 1
    decreases n
  {
    if n == 0 then rd else ReaderStep(r, ReadAlone(r, rd, shape, n - 1), shape)
  }

  /** A prefix of the words as long as it says itself is what a reader takes. */
  lemma WholePrefix(shape: Shape, words: seq<Word>, copied: seq<Word>)
    requires Fits(shape, |words|) && |copied| == Needed(shape, copied)
    requires |copied| <= |words| && copied == words[..|copied|]
    ensures copied == Content(shape, words)
  {
    NeededFits(shape, words, |words|);
    if shape.Counted? {
      assert copied != [];
      assert copied[0] == words[0];
    }
  }

  lemma {:induction false} ReadAloneMore(r: Record, rd: Reader, shape: Shape, n: nat, m: nat)
    requires Fits(shape, |r.words|) && |r.versions| >= 1
    ensures ReadAlone(r, rd, shape, n + m) == ReadAlone(r, ReadAlone(r, rd, shape, n), shape, m)
    decreases m
  {
    if m > 0 {
      ReadAloneMore(r, rd, shape, n, m - 1);
    }
  }

  lemma OneMoreLoad(r: Record, rd: Reader, shape: Shape, n: nat)
    requires Fits(shape, |r.words|) && |r.versions| >= 1
    ensures ReadAlone(r, rd, shape, n + 1) == ReaderStep(r, ReadAlone(r, rd, shape, n), shape)
  {
  }

  lemma {:induction false} CopiesAlone(r: Record, shape: Shape, tries: nat, k: nat)
    requires Fits(shape, |r.words|) && |r.versions| >= 1 && tries < 64 && r.lock % 2 == 0
    requires k <= Needed(shape, r.words) <= |r.words|
    ensures ReadAlone(r, Try(tries), shape, k + 1) == Copy(tries, r.lock, r.words[..k], |r.versions| - 1)
    decreases k
  {
    if k == 0 {
      assert ReadAlone(r, Try(tries), shape, 0) == Try(tries);
    } else {
      CopiesAlone(r, shape, tries, k - 1);
      var copied := r.words[..k - 1];
      assert Needed(shape, copied) > k - 1 by {
        if k > 1 {
          assert copied[0] == r.words[0];
        }
      }
      assert r.words[..k] == copied + [r.words[k - 1]];
    }
  }

  /** A reader left alone with a record that is not being written takes its content, in one load
      for each word and two for the lock word. */
  lemma UndisturbedRead(r: Record, shape: Shape, tries: nat)
    requires Fits(shape, |r.words|) && |r.versions| >= 1 && tries < 64 && r.lock % 2 == 0
    ensures ReadAlone(r, Try(tries), shape, Needed(shape, r.words) + 2)
            == Success(Content(shape, r.words), |r.versions| - 1, r.begun)
    ensures forall k :: 0 < k < Needed(shape, r.words) + 2 ==> ReadAlone(r, Try(tries), shape, k).Copy?
  {
    NeededFits(shape, r.words, |r.words|);
    var n := Needed(shape, r.words);
    CopiesAlone(r, shape, tries, n);
    assert Needed(shape, r.words[..n]) == n by {
      if shape.Counted? {
        assert n > 0 && r.words[..n][0] == r.words[0];
      }
    }
    forall k | 0 < k < n + 2 ensures ReadAlone(r, Try(tries), shape, k).Copy? {
      CopiesAlone(r, shape, tries, k - 1);
    }
  }

  // ---- attempts -------------------------------------------------------------

  ghost predicate AllFit(views: seq<Record>, shape: Shape) {
    forall i :: 0 <= i < |views| ==> Fits(shape, |views[i].words|) && |views[i].versions| >= 1
  }

  /** A reader after a step on each of these states of the record, whatever was done to it between. */
  ghost function ReadOver(views: seq<Record>, shape: Shape): Reader
    requires AllFit(views, shape)
    decreases |views|
  {
    if views == [] then Try(0)
    else ReaderStep(views[|views| - 1], ReadOver(views[..|views| - 1], shape), shape)
  }

  /** At its next step the attempt is given up: the lock word is odd, or has changed. */
  predicate Refuses(r: Record, rd: Reader, shape: Shape) {
    || (rd.Try? && r.lock % 2 == 1)
    || (rd.Copy? && |rd.copied| >= Needed(shape, rd.copied) && r.lock != rd.s1)
  }

  predicate Accepts(r: Record, rd: Reader, shape: Shape) {
    rd.Copy? && |rd.copied| >= Needed(shape, rd.copied) && r.lock == rd.s1
  }

  /** Attempts given up so far, of 64. */
  ghost function Refusals(views: seq<Record>, shape: Shape): nat
    requires AllFit(views, shape)
    decreases |views|
  {
    if views == [] then 0
    else
      var n := |views| - 1;
      var before := Refusals(views[..n], shape);
      if before < 64 && Refuses(views[n], ReadOver(views[..n], shape), shape) then before + 1 else before
  }

  /** 64 attempts were given up, and a step was taken after that. */
  ghost predicate GaveUp(views: seq<Record>, shape: Shape)
    requires AllFit(views, shape)
  {
    exists i :: 0 <= i < |views| && Refusals(views[..i], shape) == 64
  }

  /** Some attempt saw the same lock word at both its loads. */
  ghost predicate SawWhole(views: seq<Record>, shape: Shape)
    requires AllFit(views, shape)
  {
    exists i :: 0 <= i < |views| && Accepts(views[i], ReadOver(views[..i], shape), shape)
  }

  lemma OneMoreGaveUp(views: seq<Record>, shape: Shape)
    requires views != [] && AllFit(views, shape)
    ensures var n := |views| - 1;
            GaveUp(views, shape) <==> GaveUp(views[..n], shape) || Refusals(views[..n], shape) == 64
  {
    hide Refusals;
    var n := |views| - 1;
    var before := views[..n];
    if GaveUp(before, shape) {
      var i :| 0 <= i < n && Refusals(before[..i], shape) == 64;
      assert before[..i] == views[..i];
      assert Refusals(views[..i], shape) == 64;
    }
    if GaveUp(views, shape) {
      var i :| 0 <= i < |views| && Refusals(views[..i], shape) == 64;
      if i < n {
        assert before[..i] == views[..i];
        assert Refusals(before[..i], shape) == 64;
      }
    }
  }

  lemma OneMoreSawWhole(views: seq<Record>, shape: Shape)
    requires views != [] && AllFit(views, shape)
    ensures var n := |views| - 1;
            SawWhole(views, shape)
            <==> SawWhole(views[..n], shape) || Accepts(views[n], ReadOver(views[..n], shape), shape)
  {
    hide ReadOver;
    hide Accepts;
    var n := |views| - 1;
    var before := views[..n];
    if SawWhole(before, shape) {
      var i :| 0 <= i < n && Accepts(before[i], ReadOver(before[..i], shape), shape);
      assert before[..i] == views[..i];
      assert Accepts(views[i], ReadOver(views[..i], shape), shape);
    }
    if SawWhole(views, shape) {
      var i :| 0 <= i < |views| && Accepts(views[i], ReadOver(views[..i], shape), shape);
      if i < n {
        assert before[..i] == views[..i];
        assert Accepts(before[i], ReadOver(before[..i], shape), shape);
      }
    }
  }

  lemma OneMoreView(views: seq<Record>, shape: Shape)
    requires views != [] && AllFit(views, shape)
    ensures var n := |views| - 1;
            && (GaveUp(views, shape) <==> GaveUp(views[..n], shape) || Refusals(views[..n], shape) == 64)
            && (SawWhole(views, shape)
                <==> SawWhole(views[..n], shape) || Accepts(views[n], ReadOver(views[..n], shape), shape))
  {
    hide *;
    OneMoreGaveUp(views, shape);
    OneMoreSawWhole(views, shape);
  }

  lemma {:induction false} TriesAreRefusals(views: seq<Record>, shape: Shape)
    requires AllFit(views, shape)
    ensures var rd := ReadOver(views, shape);
            && Refusals(views, shape) <= 64
            && (rd.Try? || rd.Copy? ==> rd.tries == Refusals(views, shape))
            && (rd.Copy? ==> rd.s1 % 2 == 0)
            && (rd.Copy? || rd.Success? ==> Refusals(views, shape) < 64)
    decreases |views|
  {
    if views != [] {
      TriesAreRefusals(views[..|views| - 1], shape);
    }
  }

  /** A read fails exactly when 64 attempts were given up, and succeeds exactly when one saw the
      same even lock word at both its loads. */
  lemma {:induction false} RetriesExactly(views: seq<Record>, shape: Shape)
    requires AllFit(views, shape)
    ensures ReadOver(views, shape).Failure? <==> GaveUp(views, shape)
    ensures ReadOver(views, shape).Success? <==> SawWhole(views, shape)
    ensures ReadOver(views, shape).Copy? ==> ReadOver(views, shape).s1 % 2 == 0
    decreases |views|
  {
    TriesAreRefusals(views, shape);
    if views != [] {
      var n := |views| - 1;
      RetriesExactly(views[..n], shape);
      TriesAreRefusals(views[..n], shape);
      OneMoreView(views, shape);
      hide GaveUp;
      hide SawWhole;
      hide Refusals;
    }
  }
}
