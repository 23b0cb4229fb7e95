/**
 The recorder's lock-free row queue (src/motor_recorder/recorder.c): one pushing
 thread, one popping thread, each load and each store a step of its own, and the
 row counters the two threads keep around it.
 */
module RowQueue {
  import opened Common

  /** csv_row_t: a timestamp and the row it belongs to. */
  datatype Row = Row(ts: nat, values: seq<int>)

  function Pow2(k: nat): (p: nat)
    ensures p > 0
  {
    if k == 0 then 1 else 2 * Pow2(k - 1)
  }

  /** reader_thread: between blocks, or at the steps of queue_push for todo[0]. */
  datatype PushPc =
    | Ready                       // about to load head
    | HaveHead(h: nat)            // about to load tail
    | HaveTail(h: nat, t: nat)    // about to store buf[h]
    | Stored(h: nat)              // about to store head

  /** writer_thread: at the steps of queue_pop. */
  datatype PopPc =
    | Waiting                     // about to load head
    | SawHead(h: nat)             // about to load tail
    | SawBoth(t: nat)             // about to load buf[t]
    | Taken(t: nat, row: Row)     // about to store tail

  /** `accepted` and `taken` are history: rows whose push stored head, rows whose pop
      stored tail.  The counters are the recorder's. */
  datatype State = State(
    size: nat, buf: seq<Row>, head: nat, tail: nat,
    push: PushPc, todo: seq<Row>, pop: PopPc,
    totalRows: nat, dropped: nat, recRows: nat,
    accepted: seq<Row>, taken: seq<Row>)

  datatype Action =
    | Block(rows: seq<Row>)       // the poll handed over a block
    | PushMove
    | PopMove

  function Init(k: nat, initial: seq<Row>): State
    requires |initial| == Pow2(k)
  {
    State(Pow2(k), initial, 0, 0, Ready, [], Waiting, 0, 0, 0, [], [])
  }

  predicate Shaped(s: State) {
    && s.size > 0
    && |s.buf| == s.size
    && s.head < s.size && s.tail < s.size
    && (s.push.HaveHead? || s.push.HaveTail? || s.push.Stored? ==> s.push.h < s.size && s.todo != [])
    && (s.pop.SawBoth? || s.pop.Taken? ==> s.pop.t < s.size)
  }

  /** `& mask` with mask = 2^k - 1. */
  function Next(s: State, i: nat): (r: nat)
    requires s.size > 0
    ensures r < s.size
  {
    (i + 1) % s.size
  }

  function MovePush(s: State): (t: State)
    requires Shaped(s)
    ensures Shaped(t)
  {
    match s.push
    case Ready => if s.todo == [] then s else s.(push := HaveHead(s.head))
    case HaveHead(h) =>
      if Next(s, h) == s.tail then
        s.(push := Ready, todo := s.todo[1..], dropped := s.dropped + 1)
      else
        s.(push := HaveTail(h, s.tail))
    case HaveTail(h, _) => s.(push := Stored(h), buf := s.buf[h := s.todo[0]])
    case Stored(h) =>
      s.(push := Ready, todo := s.todo[1..], head := Next(s, h), accepted := s.accepted + [s.todo[0]])
  }

  function MovePop(s: State): (t: State)
    requires Shaped(s)
    ensures Shaped(t)
  {
    match s.pop
    case Waiting => s.(pop := SawHead(s.head))
    case SawHead(h) => s.(pop := if h == s.tail then Waiting else SawBoth(s.tail))
    case SawBoth(t) => s.(pop := Taken(t, s.buf[t]))
    case Taken(t, row) =>
      s.(pop := Waiting, tail := Next(s, t), recRows := s.recRows + 1, taken := s.taken + [row])
  }

  function Step(s: State, a: Action): (t: State)
    requires Shaped(s)
    ensures Shaped(t)
  {
    match a
    case Block(rows) =>
      if s.push.Ready? && s.todo == [] then s.(todo := rows, totalRows := s.totalRows + |rows|) else s
    case PushMove => MovePush(s)
    case PopMove => MovePop(s)
  }

  function Exec(s: State, run: seq<Action>): (t: State)
    requires Shaped(s)
    ensures Shaped(t)
    decreases |run|
  {
    if run == [] then s else Exec(Step(s, run[0]), run[1..])
  }

  // ---- the abstract queue ---------------------------------------------------

  /** What is in the queue: accepted and not yet taken. */
  function Contents(s: State): seq<Row>
  {
    if |s.taken| <= |s.accepted| then s.accepted[|s.taken|..] else []
  }

  /** What one step does to a bounded FIFO. */
  datatype Effect =
    | Silent
    | Enqueue(row: Row)
    | RejectFull(row: Row)
    | Dequeue(row: Row)
    | ReportEmpty

  /** A bounded FIFO of `capacity` rows. */
  ghost predicate FifoStep(capacity: nat, q: seq<Row>, e: Effect, q': seq<Row>) {
    match e
    case Silent => q' == q
    case Enqueue(row) => |q| < capacity && q' == q + [row]
    case RejectFull(_) => |q| == capacity && q' == q
    case Dequeue(row) => q != [] && row == q[0] && q' == q[1..]
    case ReportEmpty => q == [] && q' == q
  }

  /** The step at which each operation takes effect: a push at its store of head, or,
      when it is going to fail, at its load of tail; a pop at its store of tail, or,
      when it is going to fail, at its load of head. */
  function EffectOf(s: State, a: Action): Effect
    requires Shaped(s)
  {
    match a
    case Block(_) => Silent
    case PushMove => (
      match s.push
      case HaveHead(h) => if Next(s, h) == s.tail then RejectFull(s.todo[0]) else Silent
      case Stored(_) => Enqueue(s.todo[0])
      case _ => Silent
    )
    case PopMove => (
      match s.pop
      case Waiting => if s.head == s.tail then ReportEmpty else Silent
      case Taken(_, row) => Dequeue(row)
      case _ => Silent
    )
  }

  // ---- the invariant --------------------------------------------------------

  /** The slot that the p-th row ever accepted goes to. */
  function SlotOf(s: State, p: nat): (r: nat)
    requires s.size > 0
    ensures r < s.size
  {
    p % s.size
  }

  ghost predicate Holds(s: State)
    requires Shaped(s)
  {
    forall p :: |s.taken| <= p < |s.accepted| ==> s.buf[SlotOf(s, p)] == s.accepted[p]
  }

  ghost predicate Inv(s: State) {
    && Shaped(s)
    && s.taken <= s.accepted
    && |s.accepted| - |s.taken| < s.size
    && s.head == |s.accepted| % s.size
    && s.tail == |s.taken| % s.size
    && Holds(s)
    && PushGood(s)
    && PopGood(s)
    && s.totalRows == |s.accepted| + s.dropped + |s.todo|
    && s.recRows == |s.taken|
  }

  ghost predicate PushGood(s: State) {
    match s.push
    case Ready => true
    case HaveHead(h) => h == s.head
    case HaveTail(h, _) => h == s.head && |s.accepted| - |s.taken| + 1 < s.size
    case Stored(h) =>
      && h == s.head
      && |s.accepted| - |s.taken| + 1 < s.size
      && s.todo != []
      && h < |s.buf|
      && s.buf[h] == s.todo[0]
  }

  ghost predicate PopGood(s: State) {
    match s.pop
    case Waiting => true
    case SawHead(h) => h == s.tail || |s.taken| < |s.accepted|
    case SawBoth(t) => t == s.tail && |s.taken| < |s.accepted|
    case Taken(t, row) => t == s.tail && |s.taken| < |s.accepted| && row == s.accepted[|s.taken|]
  }

  lemma InitInv(k: nat, initial: seq<Row>)
    requires |initial| == Pow2(k)
    ensures Inv(Init(k, initial))
  {
  }

  /** Equal residues less than one turn apart are the same position. */
  lemma SameResidue(a: nat, b: nat, n: nat)
    requires n > 0 && a <= b < a + n && a % n == b % n
    ensures a == b
  {
    var q, r, d := a / n, a % n, b - a;
    assert a == n * q + r;
    if r + d < n {
      ResidueOf(n, q, r + d);
    } else {
      assert n * (q + 1) == n * q + n;
      ResidueOf(n, q + 1, r + d - n);
    }
  }

  lemma MulAtLeast(n: nat, k: nat)
    requires k >= 1
    ensures n * k >= n
  {
  }

  lemma Distribute(n: nat, a: nat, b: nat)
    ensures n * a - n * b == n * (a - b)
  {
  }

  lemma NextResidue(p: nat, n: nat)
    requires n > 0
    ensures (p % n + 1) % n == (p + 1) % n
  {
    var q, r := p / n, p % n;
    assert p + 1 == n * q + (r + 1);
    if r + 1 == n {
      assert p + 1 == n * (q + 1);
      ResidueOf(n, q + 1, 0);
      ResidueOf(n, 1, 0);
    } else {
      ResidueOf(n, q, r + 1);
      ResidueOf(n, 0, r + 1);
    }
  }

  lemma {:induction false} ResidueOf(n: nat, q: nat, r: nat)
    requires r < n
    ensures (n * q + r) % n == r
  {
    if q > 0 {
      ResidueOf(n, q - 1, r);
      assert n * q + r == (n * (q - 1) + r) + n;
      AddTurn(n * (q - 1) + r, n);
    }
  }

  lemma AddTurn(x: nat, n: nat)
    requires n > 0
    ensures (x + n) % n == x % n
  {
    var k, r := x / n, x % n;
    assert x + n == n * (k + 1) + r;
    var k', r' := (x + n) / n, (x + n) % n;
    assert x + n == n * k' + r';
    if k' > k + 1 {
      Distribute(n, k', k + 1);
      MulAtLeast(n, k' - (k + 1));
    } else if k' < k + 1 {
      Distribute(n, k + 1, k');
      MulAtLeast(n, (k + 1) - k');
    }
  }

  /** head + 1 meets tail exactly when size - 1 rows are queued. */
  lemma FullExactly(taken: nat, accepted: nat, size: nat)
    requires taken <= accepted < taken + size
    ensures (accepted + 1) % size == taken % size <==> accepted - taken == size - 1
  {
    if accepted + 1 == taken + size {
      AddTurn(taken, size);
    } else if (accepted + 1) % size == taken % size {
      SameResidue(taken, accepted + 1, size);
    }
  }

  /** head meets tail exactly when nothing is queued. */
  lemma EmptyExactly(taken: nat, accepted: nat, size: nat)
    requires taken <= accepted < taken + size
    ensures accepted % size == taken % size <==> accepted == taken
  {
    if accepted % size == taken % size {
      SameResidue(taken, accepted, size);
    }
  }

  /** The test of queue_push. */
  lemma FullMeans(s: State)
    requires Inv(s)
    ensures |s.taken| <= |s.accepted|
    ensures Next(s, s.head) == s.tail <==> |Contents(s)| == s.size - 1
    ensures |Contents(s)| <= s.size - 1
  {
    NextResidue(|s.accepted|, s.size);
    FullExactly(|s.taken|, |s.accepted|, s.size);
  }

  lemma SameSlots(s: State, t: State)
    requires Shaped(s) && Shaped(t) && Holds(s)
    requires t.size == s.size && t.buf == s.buf && t.taken == s.taken && t.accepted == s.accepted
    ensures Holds(t)
  {
    assert forall p :: SlotOf(t, p) == SlotOf(s, p);
  }

  lemma PushLoadsTail(s: State)
    requires Inv(s) && s.push.HaveHead?
    ensures Inv(MovePush(s))
    ensures FifoStep(s.size - 1, Contents(s), EffectOf(s, PushMove), Contents(MovePush(s)))
  {
    hide Holds;
    hide Next;
    FullMeans(s);
    SameSlots(s, MovePush(s));
  }

  lemma PushStoresRow(s: State)
    requires Inv(s) && s.push.HaveTail?
    ensures Inv(MovePush(s))
    ensures Contents(MovePush(s)) == Contents(s)
  {
    var t := MovePush(s);
    forall p | |t.taken| <= p < |t.accepted| ensures t.buf[SlotOf(t, p)] == t.accepted[p] {
      if SlotOf(s, p) == s.push.h {
        SameResidue(p, |s.accepted|, s.size);
      }
    }
    PopStays(s, t);
  }

  lemma HoldsMore(s: State)
    requires Inv(s) && s.push.Stored?
    ensures Holds(MovePush(s))
  {
    var t := MovePush(s);
    forall p | |t.taken| <= p < |t.accepted| ensures t.buf[SlotOf(t, p)] == t.accepted[p] {
      if p == |s.accepted| {
        assert SlotOf(t, p) == s.push.h;
      } else {
        assert SlotOf(t, p) == SlotOf(s, p);
      }
    }
  }

  lemma ContentsGrow(accepted: seq<Row>, row: Row, n: nat)
    requires n <= |accepted|
    ensures (accepted + [row])[n..] == accepted[n..] + [row]
  {
  }

  lemma PopGoodAfterStore(s: State)
    requires Inv(s) && s.push.Stored?
    ensures PopGood(MovePush(s))
  {
  }

  lemma PushStoresHead(s: State)
    requires Inv(s) && s.push.Stored?
    ensures Inv(MovePush(s))
    ensures FifoStep(s.size - 1, Contents(s), EffectOf(s, PushMove), Contents(MovePush(s)))
  {
    hide Holds;
    hide PopGood;
    NextResidue(|s.accepted|, s.size);
    HoldsMore(s);
    PopGoodAfterStore(s);
    ContentsGrow(s.accepted, s.todo[0], |s.taken|);
  }

  lemma PushInv(s: State)
    requires Inv(s)
    ensures Inv(MovePush(s))
    ensures FifoStep(s.size - 1, Contents(s), EffectOf(s, PushMove), Contents(MovePush(s)))
  {
    match s.push
    case Ready =>
      assert Holds(MovePush(s)) by {
        assert forall p :: SlotOf(MovePush(s), p) == SlotOf(s, p);
      }
    case HaveHead(_) => PushLoadsTail(s);
    case HaveTail(_, _) => PushStoresRow(s);
    case Stored(_) => PushStoresHead(s);
  }

  /** The pusher never writes the slot the popper is about to read. */
  lemma PopStays(s: State, t: State)
    requires Inv(s) && s.push.HaveTail? && t == MovePush(s)
    ensures PopGood(t)
    ensures |s.taken| < |s.accepted| ==> s.push.h != s.tail
  {
    if |s.taken| < |s.accepted| {
      EmptyExactly(|s.taken|, |s.accepted|, s.size);
    }
  }

  lemma PopInv(s: State)
    requires Inv(s)
    ensures Inv(MovePop(s))
    ensures FifoStep(s.size - 1, Contents(s), EffectOf(s, PopMove), Contents(MovePop(s)))
  {
    var t := MovePop(s);
    var n := |s.taken|;
    match s.pop
    case Waiting =>
      EmptyExactly(n, |s.accepted|, s.size);
    case SawHead(h) =>
    case SawBoth(_) =>
      assert s.buf[SlotOf(s, n)] == s.accepted[n];
    case Taken(_, row) =>
      NextResidue(n, s.size);
      assert t.taken == s.accepted[..n + 1];
  }

  lemma SilentBlock(s: State, a: Action)
    requires Inv(s) && a.Block?
    ensures Inv(Step(s, a))
    ensures FifoStep(s.size - 1, Contents(s), EffectOf(s, a), Contents(Step(s, a)))
  {
    var t := Step(s, a);
    assert forall p :: SlotOf(t, p) == SlotOf(s, p);
  }

  lemma MoveIs(s: State, a: Action)
    requires Inv(s)
    ensures Shaped(s) && Step(s, a).size == s.size
    ensures a.PushMove? ==> Step(s, a) == MovePush(s)
    ensures a.PopMove? ==> Step(s, a) == MovePop(s)
  {
  }

  lemma StepInv(s: State, a: Action)
    requires Inv(s)
    ensures Inv(Step(s, a))
    ensures FifoStep(s.size - 1, Contents(s), EffectOf(s, a), Contents(Step(s, a)))
    ensures Step(s, a).size == s.size
  {
    hide *;
    MoveIs(s, a);
    match a
    case Block(_) => SilentBlock(s, a);
    case PushMove => PushInv(s);
    case PopMove => PopInv(s);
  }

  // ---- the theorems ---------------------------------------------------------

  /** The effects of a whole run, in the order they take place. */
  function History(s: State, run: seq<Action>): (h: seq<Effect>)
    requires Shaped(s)
    ensures |h| == |run|
    decreases |run|
  {
    if run == [] then [] else [EffectOf(s, run[0])] + History(Step(s, run[0]), run[1..])
  }

  /** A history is legal for a FIFO of `capacity` if some queue goes through it. */
  ghost predicate FifoHistory(capacity: nat, q: seq<Row>, h: seq<Effect>, q': seq<Row>)
    decreases |h|
  {
    if h == [] then q' == q
    else exists q1 :: FifoStep(capacity, q, h[0], q1) && FifoHistory(capacity, q1, h[1..], q')
  }

  lemma {:induction false} RunLinearizes(s: State, run: seq<Action>)
    requires Inv(s)
    ensures Inv(Exec(s, run)) && Exec(s, run).size == s.size
    ensures FifoHistory(s.size - 1, Contents(s), History(s, run), Contents(Exec(s, run)))
    decreases |run|
  {
    if run != [] {
      StepInv(s, run[0]);
      var t := Step(s, run[0]);
      RunLinearizes(t, run[1..]);
      assert History(s, run)[1..] == History(t, run[1..]);
    }
  }

  /** Every interleaving of the two threads is a legal history of a FIFO of capacity
      2^k - 1: rejected pushes happen only when it is full, empty pops only when it is empty. */
  lemma QueueLinearizes(k: nat, initial: seq<Row>, run: seq<Action>)
    requires |initial| == Pow2(k)
    ensures var s := Init(k, initial);
            FifoHistory(Pow2(k) - 1, [], History(s, run), Contents(Exec(s, run)))
  {
    InitInv(k, initial);
    RunLinearizes(Init(k, initial), run);
  }

  /** The rows that pushes queued or found no room for, in order. */
  function Offered(h: seq<Effect>): (rows: seq<Row>)
    ensures |rows| <= |h|
  {
    if h == [] then []
    else (if h[0].Enqueue? || h[0].RejectFull? then [h[0].row] else []) + Offered(h[1..])
  }

  function Rejections(h: seq<Effect>): (n: nat)
    ensures n <= |Offered(h)|
  {
    if h == [] then 0 else (if h[0].RejectFull? then 1 else 0) + Rejections(h[1..])
  }

  function Removals(h: seq<Effect>): (n: nat)
    ensures n <= |h|
  {
    if h == [] then 0 else (if h[0].Dequeue? then 1 else 0) + Removals(h[1..])
  }

  /** The rows of the blocks that came when the pusher was idle, one block behind the other. */
  function HandedOver(s: State, run: seq<Action>): (rows: seq<Row>)
    requires Shaped(s)
    decreases |run|
  {
    if run == [] then []
    else (if run[0].Block? && s.push.Ready? && s.todo == [] then run[0].rows else [])
         + HandedOver(Step(s, run[0]), run[1..])
  }

  lemma OneStepOffers(s: State, a: Action)
    requires Shaped(s)
    ensures var e, t := EffectOf(s, a), Step(s, a);
            && s.todo + (if a.Block? && s.push.Ready? && s.todo == [] then a.rows else [])
               == (if e.Enqueue? || e.RejectFull? then [e.row] else []) + t.todo
            && t.dropped == s.dropped + (if e.RejectFull? then 1 else 0)
            && t.recRows == s.recRows + (if e.Dequeue? then 1 else 0)
  {
  }

  lemma {:induction false} FirstStep(s: State, run: seq<Action>)
    requires Shaped(s) && run != []
    ensures var e, t := EffectOf(s, run[0]), Step(s, run[0]);
            && Shaped(t)
            && Exec(s, run) == Exec(t, run[1..])
            && HandedOver(s, run)
               == (if run[0].Block? && s.push.Ready? && s.todo == [] then run[0].rows else []) + HandedOver(t, run[1..])
            && Offered(History(s, run))
               == (if e.Enqueue? || e.RejectFull? then [e.row] else []) + Offered(History(t, run[1..]))
            && Rejections(History(s, run)) == (if e.RejectFull? then 1 else 0) + Rejections(History(t, run[1..]))
            && Removals(History(s, run)) == (if e.Dequeue? then 1 else 0) + Removals(History(t, run[1..]))
  {
    hide Shaped;
    hide Step;
    hide EffectOf;
    assert History(s, run)[1..] == History(Step(s, run[0]), run[1..]);
  }

  lemma JoinBefore(todo: seq<Row>, taken: seq<Row>, offered: seq<Row>, todo': seq<Row>,
                   later: seq<Row>, laterOffered: seq<Row>, left: seq<Row>)
    requires todo + taken == offered + todo' && todo' + later == laterOffered + left
    ensures todo + (taken + later) == (offered + laterOffered) + left
  {
    assert todo + (taken + later) == (todo + taken) + later == offered + (todo' + later);
    assert offered + (laterOffered + left) == (offered + laterOffered) + left;
  }

  /** In every run each row of every block taken over is offered to the queue once and in order, `dropped`
      counts the pushes that found it full, and `recRows` the rows removed from it. */
  lemma {:induction false} EveryRowIsOffered(s: State, run: seq<Action>)
    requires Shaped(s)
    ensures var h, t := History(s, run), Exec(s, run);
            && s.todo + HandedOver(s, run) == Offered(h) + t.todo
            && t.dropped == s.dropped + Rejections(h)
            && t.recRows == s.recRows + Removals(h)
    decreases |run|
  {
    hide Shaped;
    hide Step;
    hide EffectOf;
    if run != [] {
      hide Exec;
      hide History;
      hide HandedOver;
      hide Offered;
      hide Rejections;
      hide Removals;
      var a, t := run[0], Step(s, run[0]);
      FirstStep(s, run);
      OneStepOffers(s, a);
      EveryRowIsOffered(t, run[1..]);
      var e := EffectOf(s, a);
      JoinBefore(s.todo, if a.Block? && s.push.Ready? && s.todo == [] then a.rows else [],
                 if e.Enqueue? || e.RejectFull? then [e.row] else [], t.todo,
                 HandedOver(t, run[1..]), Offered(History(t, run[1..])), Exec(t, run[1..]).todo);
    }
  }

  // ---- effects and results --------------------------------------------------

  /** The step with which a call returns, and what it returns. */
  datatype Outcome = Running | PushReturns(ok: bool) | PopReturns(row: Option<Row>)

  function OutcomeOf(s: State, a: Action): Outcome
    requires Shaped(s)
  {
    match a
    case Block(_) => Running
    case PushMove => (
      match s.push
      case HaveHead(h) => if Next(s, h) == s.tail then PushReturns(false) else Running
      case Stored(_) => PushReturns(true)
      case _ => Running
    )
    case PopMove => (
      match s.pop
      case SawHead(h) => if h == s.tail then PopReturns(None) else Running
      case Taken(_, row) => PopReturns(Some(row))
      case _ => Running
    )
  }

  predicate NoPops(run: seq<Action>) {
    forall i :: 0 <= i < |run| ==> !run[i].PopMove?
  }

  lemma {:induction false} PopperUndisturbed(s: State, run: seq<Action>)
    requires Shaped(s) && NoPops(run)
    ensures Exec(s, run).pop == s.pop && Exec(s, run).tail == s.tail
    decreases |run|
  {
    if run != [] {
      assert !run[0].PopMove?;
      assert forall i :: 0 <= i < |run[1..]| ==> run[1..][i] == run[i + 1];
      PopperUndisturbed(Step(s, run[0]), run[1..]);
    }
  }

  /** Whatever the pusher does between a pop's two loads: the pop returns nothing, at the
      second, exactly if its effect at the first was to find the queue empty. */
  lemma EmptyPopsAreReported(s: State, between: seq<Action>)
    requires Inv(s) && s.pop.Waiting? && NoPops(between)
    ensures var t := Exec(Step(s, PopMove), between);
            && t.pop.SawHead?
            && (OutcomeOf(t, PopMove) == PopReturns(None) <==> EffectOf(s, PopMove) == ReportEmpty)
  {
    PopperUndisturbed(Step(s, PopMove), between);
  }

  /** Every other result is returned at the very step that has its effect. */
  lemma ResultsAreEffects(s: State, a: Action)
    requires Shaped(s)
    ensures OutcomeOf(s, a) == PushReturns(true) <==> EffectOf(s, a).Enqueue?
    ensures OutcomeOf(s, a) == PushReturns(false) <==> EffectOf(s, a).RejectFull?
    ensures EffectOf(s, a).Enqueue? || EffectOf(s, a).RejectFull? ==> EffectOf(s, a).row == s.todo[0]
    ensures forall row :: OutcomeOf(s, a) == PopReturns(Some(row)) <==> EffectOf(s, a) == Dequeue(row)
  {
  }

  /** Rows come out in the order they were accepted, none lost and none invented. */
  lemma TakenIsPrefixOfAccepted(k: nat, initial: seq<Row>, run: seq<Action>)
    requires |initial| == Pow2(k)
    ensures var s := Exec(Init(k, initial), run); s.taken <= s.accepted
  {
    InitInv(k, initial);
    RunLinearizes(Init(k, initial), run);
  }

  /** The slot being written is never one the popping thread is about to read. */
  lemma NoSlotIsSharedWhileWritten(k: nat, initial: seq<Row>, run: seq<Action>)
    requires |initial| == Pow2(k)
    ensures var s := Exec(Init(k, initial), run);
            s.push.HaveTail? && s.pop.SawBoth? ==> s.push.h != s.pop.t
  {
    InitInv(k, initial);
    RunLinearizes(Init(k, initial), run);
    var s := Exec(Init(k, initial), run);
    if s.push.HaveTail? {
      PopStays(s, MovePush(s));
    }
  }

  /** The recorder's ledger: rows seen are rows written, rows dropped on a full queue,
      rows still queued, and rows of the current block not yet pushed. */
  lemma RecorderLedger(k: nat, initial: seq<Row>, run: seq<Action>)
    requires |initial| == Pow2(k)
    ensures var s := Exec(Init(k, initial), run);
            && |s.taken| <= |s.accepted|
            && s.totalRows == s.recRows + s.dropped + |Contents(s)| + |s.todo|
            && |Contents(s)| <= Pow2(k) - 1
  {
    InitInv(k, initial);
    RunLinearizes(Init(k, initial), run);
  }

  // ---- the calls, uninterrupted ---------------------------------------------

  /** queue_push of todo[0] from its first load to its end. */
  function RunPush(s: State): (t: State)
    requires Shaped(s) && s.push.Ready? && s.todo != []
    ensures Shaped(t) && t.push.Ready? && t.todo == s.todo[1..]
  {
    var loaded := MovePush(s);
    var tested := MovePush(loaded);
    if tested.push.Ready? then tested else MovePush(MovePush(tested))
  }

  function RunPushes(s: State): (t: State)
    requires Shaped(s) && s.push.Ready?
    ensures Shaped(t) && t.push.Ready? && t.todo == []
    decreases |s.todo|
  {
    if s.todo == [] then s else RunPushes(RunPush(s))
  }

  /** queue_pop from its first load to its end. */
  function RunPop(s: State): (t: State)
    requires Shaped(s) && s.pop.Waiting?
    ensures Shaped(t) && t.pop.Waiting?
  {
    var tested := MovePop(MovePop(s));
    if tested.pop.Waiting? then tested else MovePop(MovePop(tested))
  }

  /** A whole push, at a glance. */
  lemma RunPushIs(s: State)
    requires Shaped(s) && s.push.Ready? && s.todo != []
    ensures RunPush(s)
            == if Next(s, s.head) == s.tail then s.(todo := s.todo[1..], dropped := s.dropped + 1)
               else s.(todo := s.todo[1..], buf := s.buf[s.head := s.todo[0]], head := Next(s, s.head),
                       accepted := s.accepted + [s.todo[0]])
  {
  }

  lemma RunPushKeepsInv(s: State)
    requires Inv(s) && s.push.Ready? && s.todo != []
    ensures Inv(RunPush(s))
  {
    hide Inv;
    hide FifoStep;
    PushInv(s);
    var loaded := MovePush(s);
    PushInv(loaded);
    var tested := MovePush(loaded);
    if !tested.push.Ready? {
      PushInv(tested);
      PushInv(MovePush(tested));
    }
  }

  lemma RunPushInv(s: State)
    requires Inv(s) && s.push.Ready? && s.todo != []
    ensures Inv(RunPush(s))
    ensures var full := |Contents(s)| == s.size - 1;
            && Contents(RunPush(s)) == (if full then Contents(s) else Contents(s) + [s.todo[0]])
            && RunPush(s).dropped == s.dropped + (if full then 1 else 0)
  {
    hide RunPush;
    RunPushKeepsInv(s);
    RunPushIs(s);
    FullMeans(s);
    hide Inv;
    if |Contents(s)| < s.size - 1 {
      var t := RunPush(s);
      assert t.accepted[|s.taken|..] == s.accepted[|s.taken|..] + [s.todo[0]];
    }
  }

  /** A whole pop, at a glance. */
  lemma RunPopIs(s: State)
    requires Shaped(s) && s.pop.Waiting?
    ensures RunPop(s)
            == if s.head == s.tail then s
               else s.(tail := Next(s, s.tail), recRows := s.recRows + 1, taken := s.taken + [s.buf[s.tail]])
  {
  }

  lemma RunPopInv(s: State)
    requires Inv(s) && s.pop.Waiting?
    ensures Inv(RunPop(s))
    ensures Contents(RunPop(s)) == (if Contents(s) == [] then [] else Contents(s)[1..])
    ensures RunPop(s).taken == (if Contents(s) == [] then s.taken else s.taken + [Contents(s)[0]])
  {
    PopInv(s);
    PopInv(MovePop(s));
    var tested := MovePop(MovePop(s));
    if !tested.pop.Waiting? {
      PopInv(tested);
      PopInv(MovePop(tested));
    }
  }

  lemma InvIsShaped(s: State)
    requires Inv(s)
    ensures Shaped(s)
  {
  }

  lemma BlockInv(s: State, rows: seq<Row>)
    requires Inv(s) && s.push.Ready? && s.todo == []
    ensures Step(s, Block(rows)) == s.(todo := rows, totalRows := s.totalRows + |rows|)
    ensures Inv(Step(s, Block(rows)))
  {
    StepInv(s, Block(rows));
  }

  function Fitting(room: int, n: nat): (k: nat)
    ensures k <= n
  {
    if room < 0 then 0 else if room < n then room else n
  }

  /** One push that nothing interrupts. */
  lemma PushFills(s: State)
    requires Inv(s) && s.push.Ready? && s.todo != []
    ensures Shaped(s)
    ensures var t := RunPush(s);
            && Inv(t) && t.push.Ready? && t.todo == s.todo[1..] && t.size == s.size
            && t.totalRows == s.totalRows && t.recRows == s.recRows
            && |Contents(s)| <= s.size - 1
            && if |Contents(s)| == s.size - 1 then Contents(t) == Contents(s) && t.dropped == s.dropped + 1
               else Contents(t) == Contents(s) + [s.todo[0]] && t.dropped == s.dropped
  {
    InvIsShaped(s);
    RunPushInv(s);
    RunPushIs(s);
    FullMeans(s);
    hide RunPush;
  }

  lemma TakeOneMore(q: seq<Row>, todo: seq<Row>, n: nat)
    requires 0 < n <= |todo|
    ensures q + [todo[0]] + todo[1..][..n - 1] == q + todo[..n]
  {
  }

  lemma NothingToPush(s: State)
    requires Shaped(s) && s.push.Ready? && s.todo == []
    ensures RunPushes(s) == s && Contents(s) + s.todo[..0] == Contents(s)
  {
  }

  lemma PushOneOfMany(s: State)
    requires Shaped(s) && s.push.Ready? && s.todo != []
    ensures RunPushes(s) == RunPushes(RunPush(s))
  {
    hide RunPush;
  }

  /** Pushes that nothing interrupts fill the queue with the first rows and drop the others. */
  lemma {:induction false} PushesFill(s: State)
    requires Inv(s) && Shaped(s) && s.push.Ready?
    ensures var n, t := Fitting(s.size - 1 - |Contents(s)|, |s.todo|), RunPushes(s);
            && Contents(t) == Contents(s) + s.todo[..n]
            && t.dropped == s.dropped + (|s.todo| - n) && t.totalRows == s.totalRows && t.recRows == s.recRows
            && t.size == s.size
    decreases |s.todo|
  {
    hide Inv;
    hide Shaped;
    hide RunPush;
    hide RunPushes;
    hide Contents;
    if s.todo == [] {
      NothingToPush(s);
    } else {
      PushFills(s);
      PushOneOfMany(s);
      var t := RunPush(s);
      InvIsShaped(t);
      PushesFill(t);
      var n := Fitting(s.size - 1 - |Contents(s)|, |s.todo|);
      if n > 0 {
        TakeOneMore(Contents(s), s.todo, n);
      }
    }
  }

  /** reader_thread's work on one block when nothing interrupts it. */
  lemma BlockFills(s: State, rows: seq<Row>)
    requires Inv(s) && s.push.Ready? && s.todo == []
    ensures Shaped(s) && Inv(s.(todo := rows, totalRows := s.totalRows + |rows|))
    ensures Step(s, Block(rows)) == s.(todo := rows, totalRows := s.totalRows + |rows|)
    ensures Shaped(s.(todo := rows, totalRows := s.totalRows + |rows|))
    ensures var n, t := Fitting(s.size - 1 - |Contents(s)|, |rows|),
                        RunPushes(s.(todo := rows, totalRows := s.totalRows + |rows|));
            && Contents(t) == Contents(s) + rows[..n]
            && t.dropped == s.dropped + (|rows| - n) && t.totalRows == s.totalRows + |rows|
            && t.recRows == s.recRows
  {
    hide RunPushes;
    hide Fitting;
    BlockInv(s, rows);
    hide Step;
    InvIsShaped(s);
    var b := s.(todo := rows, totalRows := s.totalRows + |rows|);
    InvIsShaped(b);
    PushesFill(b);
    hide Inv;
    assert Contents(b) == Contents(s);
  }

  /** The slot at tail holds the oldest row, if there is one. */
  lemma PopIsHead(s: State)
    requires Inv(s)
    ensures s.head != s.tail <==> Contents(s) != []
    ensures s.head != s.tail ==> s.buf[s.tail] == Contents(s)[0]
  {
    EmptyExactly(|s.taken|, |s.accepted|, s.size);
    if |s.taken| < |s.accepted| {
      assert s.buf[SlotOf(s, |s.taken|)] == s.accepted[|s.taken|];
    }
  }

  /** writer_thread's turn when nothing interrupts it. */
  lemma PopTakes(s: State)
    requires Inv(s) && s.pop.Waiting?
    ensures Shaped(s) && Inv(RunPop(s))
    ensures RunPop(s)
            == if s.head == s.tail then s
               else s.(tail := Next(s, s.tail), recRows := s.recRows + 1, taken := s.taken + [s.buf[s.tail]])
    ensures s.head == s.tail <==> Contents(s) == []
    ensures s.head != s.tail ==> Contents(s) == [s.buf[s.tail]] + Contents(RunPop(s))
  {
    RunPopInv(s);
    RunPopIs(s);
    InvIsShaped(s);
    PopIsHead(s);
    hide Inv;
    hide RunPop;
    hide Contents;
  }

  /** The queue and the two threads' counters, as one thread sees them between calls. */
  class Recorder {
    const buf: array<Row>
    var head: nat
    var tail: nat
    var totalRows: nat
    var dropped: nat
    var recRows: nat
    ghost var accepted: seq<Row>
    ghost var taken: seq<Row>

    /** queue_alloc. */
    constructor (k: nat, blank: Row)
      ensures Valid() && buf.Length == Pow2(k) && Queue() == [] && fresh(buf)
      ensures AsState([]) == Init(k, buf[..])
    {
      buf := new Row[Pow2(k)](_ => blank);
      head, tail, totalRows, dropped, recRows := 0, 0, 0, 0, 0;
      accepted, taken := [], [];
    }

    ghost function AsState(todo: seq<Row>): State
      reads this, buf
    {
      State(buf.Length, buf[..], head, tail, Ready, todo, Waiting, totalRows, dropped, recRows, accepted, taken)
    }

    ghost predicate Valid()
      reads this, buf
    {
      Inv(AsState([]))
    }

    ghost function Queue(): seq<Row>
      reads this, buf
    {
      Contents(AsState([]))
    }

    /** queue_push. */
    method QueuePush(r: Row) returns (ok: bool)
      requires buf.Length > 0 && head < buf.Length && tail < buf.Length
      modifies `head, `accepted, buf
      ensures ok == ((old(head) + 1) % buf.Length != tail)
      ensures ok ==> buf[..] == old(buf[..])[old(head) := r] && head == (old(head) + 1) % buf.Length
                     && accepted == old(accepted) + [r]
      ensures !ok ==> buf[..] == old(buf[..]) && head == old(head) && accepted == old(accepted)
    {
      var h, t := head, tail;
      var nxt := (h + 1) % buf.Length;
      if nxt == t {
        return false;
      }
      buf[h] := r;
      head := nxt;
      accepted := accepted + [r];
      return true;
    }

    /** queue_pop. */
    method QueuePop() returns (ok: bool, r: Row)
      requires buf.Length > 0 && head < buf.Length && tail < buf.Length
      modifies `tail, `taken
      ensures ok == (head != old(tail))
      ensures ok ==> r == buf[old(tail)] && tail == (old(tail) + 1) % buf.Length && taken == old(taken) + [r]
      ensures !ok ==> tail == old(tail) && taken == old(taken)
    {
      r := Row(0, []);
      var h, t := head, tail;
      if h == t {
        return false, r;
      }
      r := buf[t];
      tail := (t + 1) % buf.Length;
      taken := taken + [r];
      return true, r;
    }

    /** One row of a block, `rest` being those behind it. */
    method PushRow(row: Row, ghost rest: seq<Row>)
      requires Inv(AsState([row] + rest))
      modifies this, buf
      ensures Inv(AsState(rest)) && AsState(rest) == RunPush(old(AsState([row] + rest)))
    {
      ghost var s := AsState([row] + rest);
      assert s.todo[1..] == rest && s.todo[0] == row;
      RunPushKeepsInv(s);
      RunPushIs(s);
      InvIsShaped(s);
      hide Inv;
      hide RunPush;
      var ok := QueuePush(row);
      if !ok {
        dropped := dropped + 1;
      }
      assert AsState(rest) == RunPush(s);
    }

    /** The loop over the rows of a block: the machine's pushes, one after the other. */
    method PushRows(rows: seq<Row>)
      requires Inv(AsState(rows)) && Shaped(AsState(rows))
      modifies this, buf
      ensures Inv(AsState([])) && AsState([]) == RunPushes(old(AsState(rows)))
    {
      hide RunPush;
      ghost var s0 := AsState(rows);
      var j: nat := 0;
      assert rows[0..] == rows;
      while j < |rows|
        invariant j <= |rows| && Inv(AsState(rows[j..])) && Shaped(AsState(rows[j..]))
        invariant RunPushes(AsState(rows[j..])) == RunPushes(s0)
      {
        assert [rows[j]] + rows[j + 1..] == rows[j..];
        PushRow(rows[j], rows[j + 1..]);
        j := j + 1;
      }
      assert rows[j..] == [];
    }

    /** reader_thread's work on one block: the first rows that fit are queued, the others are dropped and counted. */
    method PushBlock(rows: seq<Row>)
      requires Valid()
      modifies this, buf
      ensures Valid()
      ensures AsState([]) == RunPushes(Step(old(AsState([])), Block(rows)))
      ensures var n := Fitting(buf.Length - 1 - |old(Queue())|, |rows|);
              && Queue() == old(Queue()) + rows[..n]
              && dropped == old(dropped) + (|rows| - n) && totalRows == old(totalRows) + |rows|
              && recRows == old(recRows)
    {
      hide Step;
      hide Inv;
      hide Shaped;
      hide Contents;
      hide RunPushes;
      hide Fitting;
      BlockFills(AsState([]), rows);
      totalRows := totalRows + |rows|;
      PushRows(rows);
    }

    /** writer_thread's turn: take one row, if there is one, and count it. */
    method TakeRow() returns (ok: bool, row: Row)
      requires Valid()
      modifies this
      ensures Valid()
      ensures AsState([]) == RunPop(old(AsState([])))
      ensures ok <==> old(Queue()) != []
      ensures ok ==> old(Queue()) == [row] + Queue()
      ensures recRows == old(recRows) + (if ok then 1 else 0) && totalRows == old(totalRows) && dropped == old(dropped)
    {
      hide Inv;
      hide RunPop;
      hide Contents;
      ghost var s := AsState([]);
      PopTakes(s);
      ok, row := QueuePop();
      if ok {
        recRows := recRows + 1;
      }
      assert AsState([]) == RunPop(s);
    }
  }
}
