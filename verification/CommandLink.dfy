/**
 The SET_CONFIG command machine of src/giga_spi_8adc/motor_controller.c, run
 against a peer that keeps the contract of src/giga_spi_8adc/motor_wire.h: the
 echo in `_reserved` names the last command processed, and ACK bits tell the
 truth about it.  Transfers may be lost or corrupted either way, reloads may
 supersede a command in flight, and the bus may be reopened at any time.
 */
module CommandLink {
  import opened Common

  const WRAP16: nat := 0x1_0000       // cmd_seq is a uint16_t
  const MAX_RETRIES: nat := 32        // CMD_MAX_RETRIES
  const MAX_ROWS: nat := 200          // MOTOR_MAX_ROWS_PER_BLOCK

  /** config_payload_t; `reserved` stands for its padding bytes. */
  datatype Payload = Payload(blockRows: nat, source: nat, runState: nat, sampleRate: nat, imuRate: nat, reserved: nat)

  const UNKNOWN: Payload := Payload(0, 0, 0, 0, 0, 0)

  /** A command frame.  `number` is history: the count of commands queued, of which
      the wire carries only the low 16 bits. */
  datatype Command = Command(number: nat, seqNo: nat, payload: Payload)

  /** A received frame_header_t, with `about`, history, the command the echo stands for. */
  datatype Header = Header(echo: nat, nRows: nat, ackOk: bool, nack: bool, applied: bool, about: nat)

  /** g_cmd, cfg.stm, active_stm and the counters; from `number` on, history. */
  datatype Controller = Controller(
    pending: bool, seqNo: nat, retriesLeft: nat, frame: Command, payload: Payload,
    cfgStm: Payload, activeStm: Payload, acksOk: nat, nacks: nat,
    number: nat, superseded: nat, exchanges: nat)

  function WithoutPadding(p: Payload): Payload {
    p.(reserved := 0)
  }

  function QueueSetConfig(c: Controller, p: Payload): Controller {
    var seqNo := (c.seqNo + 1) % WRAP16;
    c.(payload := p,
       seqNo := seqNo,
       frame := Command(c.number + 1, seqNo, WithoutPadding(p)),
       pending := true,
       retriesLeft := MAX_RETRIES,
       number := c.number + 1,
       superseded := c.superseded + (if c.pending then 1 else 0),
       exchanges := 0)
  }

  function CountAttempt(c: Controller): Controller {
    c.(retriesLeft := if c.pending && c.retriesLeft > 0 then c.retriesLeft - 1 else c.retriesLeft,
       exchanges := c.exchanges + 1)
  }

  function RefreshAfterReinit(c: Controller): Controller {
    if c.pending then c.(retriesLeft := MAX_RETRIES, exchanges := 0) else c
  }

  /** cmd_observe. */
  function Observe(c: Controller, h: Header): Controller {
    if !c.pending then c
    else if h.echo != c.seqNo then
      if c.retriesLeft == 0 then c.(nacks := c.nacks + 1, pending := false) else c
    else if h.ackOk then c.(activeStm := c.payload, pending := false, acksOk := c.acksOk + 1)
    else if h.nack then c.(nacks := c.nacks + 1, pending := false)
    else c
  }

  /** The row-count checks a frame with good magic, version and CRC still has to pass. */
  predicate RowsAccepted(c: Controller, h: Header) {
    && 0 < h.nRows <= MAX_ROWS
    && (c.activeStm.blockRows != 0 && h.nRows != c.activeStm.blockRows ==> h.applied)
  }

  /** What config_load_file hands over: padding zeroed. */
  function HandleReload(c: Controller, loaded: Payload, busReopened: bool): Controller {
    var next := WithoutPadding(loaded);
    var c1 := if busReopened then RefreshAfterReinit(c) else c;
    if next != c1.cfgStm then QueueSetConfig(c1.(cfgStm := next), next) else c1
  }

  function Startup(loaded: Payload): Controller {
    var stm := WithoutPadding(loaded);
    QueueSetConfig(
      Controller(false, 0, 0, Command(0, 0, UNKNOWN), UNKNOWN, stm, UNKNOWN, 0, 0, 0, 0, 0), stm)
  }

  // ---- the peer ---------------------------------------------------------------

  /** `latest` and `decided` are history: the last command processed, and the verdict on
      every one that was; the STM32 itself latches only the 16 bits it was sent. */
  datatype Peer = Peer(
    inbox: Option<Command>, latestSeq: nat, latest: nat, decided: map<nat, bool>, outgoing: Header)

  /** At a block boundary: apply or reject the queued command, a repeat like the first time. */
  function Process(p: Peer, accept: bool): Peer {
    match p.inbox
    case None => p
    case Some(cmd) =>
      var verdict := if cmd.number in p.decided then p.decided[cmd.number] else accept;
      p.(inbox := None, latestSeq := cmd.seqNo, latest := cmd.number, decided := p.decided[cmd.number := verdict])
  }

  /** Prepare the next outbound header; ACK bits may lag but never lie. */
  function Prepare(p: Peer, bits: bool, applied: bool, nRows: nat): Peer {
    var known := p.latest in p.decided;
    p.(outgoing := Header(p.latestSeq, nRows, bits && known && p.decided[p.latest],
                          bits && known && !p.decided[p.latest], applied, p.latest))
  }

  // ---- the link -----------------------------------------------------------------

  /** An ACK_OK taken: the command in flight, the command the header was about. */
  datatype Activation = Activation(number: nat, about: nat, payload: Payload, accepted: bool)

  /** `asked` is history: the payload of every command queued. */
  datatype State = State(ctl: Controller, peer: Peer, asked: seq<Payload>, activations: seq<Activation>)

  datatype Action =
    | Reload(loaded: Payload, busReopened: bool)       // top of the loop, file accepted
    | Idle                                             // timeout, or reload rejected: nothing changes
    | SpiFails(delivered: bool)                        // no frame in, the command perhaps out
    | Exchange(delivered: bool, intact: bool)          // frame in; `intact`: magic, version, CRC
    | PeerProcesses(accept: bool)
    | PeerPrepares(bits: bool, applied: bool, nRows: nat)

  function Init(loaded: Payload, nRows: nat): State {
    State(Startup(loaded), Peer(None, 0, 0, map[], Header(0, nRows, false, false, false, 0)),
          [WithoutPadding(loaded)], [])
  }

  /** The command rides the transfer when one is pending. */
  function Deliver(s: State, delivered: bool): Peer {
    if delivered && s.ctl.pending then s.peer.(inbox := Some(s.ctl.frame)) else s.peer
  }

  /** One completed exchange: the header in is the one prepared before the command went out. */
  function Receive(s: State, delivered: bool, intact: bool): State {
    var h := s.peer.outgoing;
    var c := CountAttempt(s.ctl);
    var c' := if intact && RowsAccepted(c, h) then Observe(c, h) else c;
    s.(ctl := c',
       peer := Deliver(s, delivered),
       activations :=
         if c'.acksOk > c.acksOk
         then s.activations + [Activation(c.number, h.about, c'.activeStm,
                                          c.number in s.peer.decided && s.peer.decided[c.number])]
         else s.activations)
  }

  function Step(s: State, a: Action): State {
    match a
    case Reload(loaded, busReopened) =>
      var c := HandleReload(s.ctl, loaded, busReopened);
      s.(ctl := c, asked := if c.number > s.ctl.number then s.asked + [c.frame.payload] else s.asked)
    case Idle => s
    case SpiFails(delivered) => s.(peer := Deliver(s, delivered))
    case Exchange(delivered, intact) => Receive(s, delivered, intact)
    case PeerProcesses(accept) => s.(peer := Process(s.peer, accept))
    case PeerPrepares(bits, applied, nRows) => s.(peer := Prepare(s.peer, bits, applied, nRows))
  }

  function Exec(s: State, run: seq<Action>): State
    decreases |run|
  {
    if run == [] then s else Exec(Step(s, run[0]), run[1..])
  }

  // ---- the invariant ------------------------------------------------------------

  ghost predicate ControllerGood(c: Controller, asked: seq<Payload>) {
    && c.number == |asked| >= 1
    && c.seqNo == c.number % WRAP16
    && c.payload == c.cfgStm == asked[c.number - 1]
    && c.frame == Command(c.number, c.seqNo, c.payload)
    && c.number == c.acksOk + c.nacks + c.superseded + (if c.pending then 1 else 0)
    && (c.pending ==> c.retriesLeft == if c.exchanges <= MAX_RETRIES then MAX_RETRIES - c.exchanges else 0)
  }

  ghost predicate PeerGood(p: Peer, asked: seq<Payload>) {
    && (p.inbox.Some? ==> 1 <= p.inbox.value.number <= |asked|
                          && p.inbox.value == Command(p.inbox.value.number, p.inbox.value.number % WRAP16,
                                                      asked[p.inbox.value.number - 1]))
    && p.latestSeq == p.latest % WRAP16
    && (forall n :: n in p.decided ==> 1 <= n <= |asked|)
    && (p.latest == 0 || p.latest in p.decided)
    && HeaderGood(p.outgoing, p)
  }

  ghost predicate HeaderGood(h: Header, p: Peer) {
    && h.echo == h.about % WRAP16
    && (h.about == 0 || h.about in p.decided)
    && (h.ackOk ==> h.about in p.decided && p.decided[h.about])
    && (h.nack ==> h.about in p.decided && !p.decided[h.about])
  }

  /** An activation is of a command queued; it is genuine exactly when fewer than 65536
      commands were queued since the one the header was about. */
  ghost predicate ActivationGood(a: Activation, asked: seq<Payload>) {
    && 1 <= a.about <= a.number <= |asked|
    && a.payload == asked[a.number - 1]
    && (a.number - a.about < WRAP16 <==> a.about == a.number)
    && (a.about == a.number ==> a.accepted)
  }

  ghost predicate Inv(s: State) {
    && ControllerGood(s.ctl, s.asked)
    && PeerGood(s.peer, s.asked)
    && (forall k :: 0 <= k < |s.activations| ==> ActivationGood(s.activations[k], s.asked))
    && (s.activations != [] && s.ctl.acksOk > 0 ==> s.ctl.activeStm == s.activations[|s.activations| - 1].payload)
  }

  lemma InitInv(loaded: Payload, nRows: nat)
    ensures Inv(Init(loaded, nRows))
  {
  }

  lemma SameEcho(n: nat, m: nat)
    requires m <= n && n % WRAP16 == m % WRAP16
    ensures n - m < WRAP16 <==> n == m
  {
    assert n == WRAP16 * (n / WRAP16) + n % WRAP16;
    assert m == WRAP16 * (m / WRAP16) + m % WRAP16;
  }

  lemma ReloadInv(s: State, loaded: Payload, busReopened: bool)
    requires Inv(s)
    ensures Inv(Step(s, Reload(loaded, busReopened)))
  {
    var t := Step(s, Reload(loaded, busReopened));
    assert (s.ctl.number % WRAP16 + 1) % WRAP16 == (s.ctl.number + 1) % WRAP16;
    assert s.asked <= t.asked;
  }

  lemma ReceiveInv(s: State, delivered: bool, intact: bool)
    requires Inv(s)
    ensures Inv(Receive(s, delivered, intact))
  {
    ObserveInv(CountAttempt(s.ctl), s.peer.outgoing, s.asked);
    DeliverInv(s, delivered);
    hide PeerGood;
    var c := CountAttempt(s.ctl);
    var h := s.peer.outgoing;
    var t := Receive(s, delivered, intact);
    assert ControllerGood(t.ctl, s.asked);
    hide ControllerGood;
    if t.ctl.acksOk > c.acksOk {
      TakenInv(s, delivered);
    }
  }

  lemma ObserveInv(c: Controller, h: Header, asked: seq<Payload>)
    requires ControllerGood(c, asked)
    ensures ControllerGood(Observe(c, h), asked)
  {
  }

  lemma DeliverInv(s: State, delivered: bool)
    requires ControllerGood(s.ctl, s.asked) && PeerGood(s.peer, s.asked)
    ensures PeerGood(Deliver(s, delivered), s.asked)
  {
  }

  /** An ACK taken is an activation as it should be. */
  lemma TakenInv(s: State, delivered: bool)
    requires Inv(s)
    requires var c := CountAttempt(s.ctl); Observe(c, s.peer.outgoing).acksOk > c.acksOk
    ensures var c, h := CountAttempt(s.ctl), s.peer.outgoing;
            ActivationGood(Activation(c.number, h.about, Observe(c, h).activeStm,
                                      c.number in s.peer.decided && s.peer.decided[c.number]), s.asked)
  {
    SameEcho(s.ctl.number, s.peer.outgoing.about);
  }

  lemma StepInv(s: State, a: Action)
    requires Inv(s)
    ensures Inv(Step(s, a))
  {
    match a
    case Reload(loaded, busReopened) => ReloadInv(s, loaded, busReopened);
    case Exchange(delivered, intact) => ReceiveInv(s, delivered, intact);
    case _ =>
  }

  lemma {:induction false} ExecInv(s: State, run: seq<Action>)
    requires Inv(s)
    ensures Inv(Exec(s, run))
    decreases |run|
  {
    if run != [] {
      StepInv(s, run[0]);
      ExecInv(Step(s, run[0]), run[1..]);
    }
  }

  // ---- the theorems ---------------------------------------------------------------

  /** Over all runs: every ACK_OK taken sets active_stm to the payload of the command in
      flight, and the STM32 had accepted that very command unless 65536 or more
      commands were queued since the one it was echoing. */
  lemma ActivationsAreAccepted(loaded: Payload, nRows: nat, run: seq<Action>)
    ensures var s := Exec(Init(loaded, nRows), run);
            forall k :: 0 <= k < |s.activations| ==>
              var a := s.activations[k];
              && 1 <= a.about <= a.number <= |s.asked|
              && a.payload == s.asked[a.number - 1]
              && (a.number - a.about < WRAP16 <==> a.about == a.number)
              && (a.number - a.about < WRAP16 ==> a.accepted)
  {
    InitInv(loaded, nRows);
    ExecInv(Init(loaded, nRows), run);
    var s := Exec(Init(loaded, nRows), run);
    forall k | 0 <= k < |s.activations| ensures ActivationGood(s.activations[k], s.asked) {
    }
  }

  /** At the loop head the payload in flight is the configured one, so the exchange that
      takes an ACK_OK leaves active_stm equal to cfg.stm. */
  lemma AckMakesConfigActive(loaded: Payload, nRows: nat, run: seq<Action>, delivered: bool, intact: bool)
    ensures var s := Exec(Init(loaded, nRows), run);
            var t := Step(s, Exchange(delivered, intact));
            && s.ctl.payload == s.ctl.cfgStm == s.ctl.frame.payload
            && (t.ctl.acksOk > s.ctl.acksOk ==> t.ctl.activeStm == t.ctl.cfgStm && !t.ctl.pending)
  {
    InitInv(loaded, nRows);
    ExecInv(Init(loaded, nRows), run);
  }

  /** Every SET_CONFIG queued is acknowledged, given up or refused, superseded, or pending. */
  lemma CommandLedger(loaded: Payload, nRows: nat, run: seq<Action>)
    ensures var c := Exec(Init(loaded, nRows), run).ctl;
            c.number == c.acksOk + c.nacks + c.superseded + (if c.pending then 1 else 0)
  {
    InitInv(loaded, nRows);
    ExecInv(Init(loaded, nRows), run);
  }

  /** The budget of a pending command is 32 less the exchanges completed since it was
      queued or the bus reopened; once it is spent, the next frame that passes every
      check and echoes another command ends the wait. */
  lemma RetryBudget(loaded: Payload, nRows: nat, run: seq<Action>, delivered: bool)
    ensures var s := Exec(Init(loaded, nRows), run);
            var t := Step(s, Exchange(delivered, true));
            s.ctl.pending ==>
              && s.ctl.retriesLeft == (if s.ctl.exchanges <= 32 then 32 - s.ctl.exchanges else 0)
              && (s.ctl.retriesLeft <= 1 && s.peer.outgoing.echo != s.ctl.seqNo
                  && RowsAccepted(s.ctl, s.peer.outgoing) ==>
                    !t.ctl.pending && t.ctl.nacks == s.ctl.nacks + 1 && t.ctl.activeStm == s.ctl.activeStm)
  {
    InitInv(loaded, nRows);
    ExecInv(Init(loaded, nRows), run);
  }

  /** Only the attempt is counted: the command, the configurations and the counters stay. */
  ghost predicate OnlyAttempted(c: Controller, c': Controller) {
    && c'.pending == c.pending && c'.activeStm == c.activeStm && c'.cfgStm == c.cfgStm
    && c'.acksOk == c.acksOk && c'.nacks == c.nacks && SameCommand(c, c')
  }

  ghost predicate SameCommand(c: Controller, c': Controller) {
    c'.number == c.number && c'.seqNo == c.seqNo && c'.frame == c.frame && c'.payload == c.payload
  }

  /** What every completed exchange does, in every reachable state.  A frame that is damaged, or
      whose row count is not one to 200 or, once a configuration is active, not the configured one
      without the mark of a change, only costs an attempt.  So does one without a command pending.
      Otherwise the echo decides: of the pending command, ACK_OK makes the payload active, a NACK
      alone refuses it, neither leaves it pending; of any other, it is given up once 32 exchanges
      are spent. */
  lemma ExchangeOutcome(loaded: Payload, nRows: nat, run: seq<Action>, delivered: bool, intact: bool)
    ensures var s := Exec(Init(loaded, nRows), run);
            var c, c', h := s.ctl, Step(s, Exchange(delivered, intact)).ctl, s.peer.outgoing;
            var rowsFit := 1 <= h.nRows <= 200
                           && (c.activeStm.blockRows == 0 || h.nRows == c.activeStm.blockRows || h.applied);
            && SameCommand(c, c') && c'.cfgStm == c.cfgStm && c'.exchanges == c.exchanges + 1
            && (!intact || !rowsFit || !c.pending ==> OnlyAttempted(c, c'))
            && (intact && rowsFit && c.pending ==>
                  if h.echo == c.seqNo then
                    if h.ackOk then
                      !c'.pending && c'.acksOk == c.acksOk + 1 && c'.nacks == c.nacks && c'.activeStm == c.payload
                    else if h.nack then
                      !c'.pending && c'.nacks == c.nacks + 1 && c'.acksOk == c.acksOk && c'.activeStm == c.activeStm
                    else OnlyAttempted(c, c')
                  else if c.exchanges + 1 < 32 then OnlyAttempted(c, c')
                  else !c'.pending && c'.nacks == c.nacks + 1 && c'.acksOk == c.acksOk && c'.activeStm == c.activeStm)
  {
    InitInv(loaded, nRows);
    ExecInv(Init(loaded, nRows), run);
  }

  /** In particular a command that the peer decided, and says so, is settled by the next good frame
      the way the peer decided it. */
  lemma VerdictSettles(loaded: Payload, nRows: nat, run: seq<Action>, delivered: bool)
    ensures var s := Exec(Init(loaded, nRows), run);
            var c, c', h := s.ctl, Step(s, Exchange(delivered, true)).ctl, s.peer.outgoing;
            var rowsFit := 1 <= h.nRows <= 200
                           && (c.activeStm.blockRows == 0 || h.nRows == c.activeStm.blockRows || h.applied);
            c.pending && rowsFit && h.about == c.number && (h.ackOk || h.nack) ==>
              && !c'.pending && c.number in s.peer.decided
              && if s.peer.decided[c.number] then c'.acksOk == c.acksOk + 1 && c'.activeStm == c.payload
                 else c'.nacks == c.nacks + 1 && c'.activeStm == c.activeStm
  {
    InitInv(loaded, nRows);
    ExecInv(Init(loaded, nRows), run);
    ExchangeOutcome(loaded, nRows, run, delivered, true);
  }

  /** What a reload does, in every reachable state: another configuration is queued as the next
      command with its padding zeroed and 32 retries, the pending one superseded; with the same
      configuration a reopened bus gives the pending command 32 retries again; nothing else. */
  lemma ReloadOutcome(loaded: Payload, nRows: nat, run: seq<Action>, next: Payload, busReopened: bool)
    ensures var s := Exec(Init(loaded, nRows), run);
            var c, c' := s.ctl, Step(s, Reload(next, busReopened)).ctl;
            var bare := next.(reserved := 0);
            && c'.activeStm == c.activeStm && c'.acksOk == c.acksOk && c'.nacks == c.nacks && c'.cfgStm == bare
            && (bare != c.cfgStm ==>
                  && c'.pending && c'.number == c.number + 1 && c'.seqNo == (c.seqNo + 1) % 65536
                  && c'.payload == bare && c'.frame == Command(c'.number, c'.seqNo, bare)
                  && c'.retriesLeft == 32 && c'.exchanges == 0
                  && c'.superseded == c.superseded + (if c.pending then 1 else 0))
            && (bare == c.cfgStm ==>
                  && SameCommand(c, c') && c'.pending == c.pending && c'.superseded == c.superseded
                  && c'.retriesLeft == (if busReopened && c.pending then 32 else c.retriesLeft)
                  && c'.exchanges == (if busReopened && c.pending then 0 else c.exchanges))
  {
    InitInv(loaded, nRows);
    ExecInv(Init(loaded, nRows), run);
  }

  /** Start-up has queued the loaded configuration as command 1. */
  lemma FirstCommand(loaded: Payload, nRows: nat)
    ensures var c, bare := Init(loaded, nRows).ctl, loaded.(reserved := 0);
            && c.pending && c.number == 1 == c.seqNo && c.retriesLeft == 32
            && c.payload == c.cfgStm == bare && c.frame == Command(1, 1, bare)
            && c.activeStm.blockRows == 0 && c.acksOk == c.nacks == c.superseded == 0
  {
  }

  /** The pending command, and nothing else, rides every transfer that gets through. */
  lemma PendingCommandIsSent(loaded: Payload, nRows: nat, run: seq<Action>, intact: bool)
    ensures var s := Exec(Init(loaded, nRows), run);
            && 1 <= s.ctl.number <= |s.asked|
            && s.ctl.frame == Command(s.ctl.number, s.ctl.number % 65536, s.asked[s.ctl.number - 1])
            && Step(s, Exchange(true, intact)).peer.inbox == (if s.ctl.pending then Some(s.ctl.frame) else s.peer.inbox)
            && Step(s, SpiFails(true)).peer.inbox == (if s.ctl.pending then Some(s.ctl.frame) else s.peer.inbox)
            && Step(s, Exchange(false, intact)).peer == s.peer
            && Step(s, SpiFails(false)) == s == Step(s, Idle)
            && Step(s, SpiFails(true)).ctl == s.ctl
  {
    InitInv(loaded, nRows);
    ExecInv(Init(loaded, nRows), run);
  }

  // ---- without the bound -------------------------------------------------------------

  const CONFIG_A: Payload := Payload(100, 1, 1, 1000, 100, 0)
  const CONFIG_B: Payload := Payload(150, 1, 1, 1000, 100, 0)

  lemma {:induction false} ExecAppend(s: State, a: seq<Action>, b: seq<Action>)
    ensures Exec(s, a + b) == Exec(Exec(s, a), b)
    decreases |a|
  {
    hide Step;
    if a == [] {
      assert a + b == b;
    } else {
      ExecAppend(Step(s, a[0]), a[1..], b);
      assert (a + b)[1..] == a[1..] + b;
    }
  }

  lemma ExecNone(s: State)
    ensures Exec(s, []) == s
  {
  }

  lemma ExecOne(s: State, a: Action)
    ensures Exec(s, [a]) == Step(s, a)
  {
    assert [a][1..] == [];
  }

  /** n reloads in a row, back and forth between two configurations, no exchange between. */
  function Reloads(n: nat): seq<Action> {
    if n == 0 then []
    else Reloads(n - 1) + [Reload(if n % 2 == 1 then CONFIG_B else CONFIG_A, false)]
  }

  lemma ReloadsLast(n: nat)
    ensures n == 0 ==> Reloads(n) == []
    ensures n > 0 ==> Reloads(n) == Reloads(n - 1) + [Reload(if n % 2 == 1 then CONFIG_B else CONFIG_A, false)]
  {
  }

  /** A reload that changes the configuration supersedes the pending command. */
  lemma ReloadSupersedes(s: State, p: Payload)
    requires s.ctl.pending && s.ctl.seqNo == s.ctl.number % WRAP16 && p.reserved == 0 && p != s.ctl.cfgStm
    ensures var t := Step(s, Reload(p, false));
            && t.peer == s.peer && t.activations == s.activations
            && t.ctl.pending && t.ctl.number == s.ctl.number + 1
            && t.ctl.seqNo == t.ctl.number % WRAP16
            && t.ctl.cfgStm == p == t.ctl.payload
            && t.ctl.activeStm == s.ctl.activeStm && t.ctl.acksOk == s.ctl.acksOk
  {
    assert (s.ctl.number % WRAP16 + 1) % WRAP16 == (s.ctl.number + 1) % WRAP16;
  }

  /** What n reloads in a row, none of them like the one before, leave. */
  ghost predicate Superseded(s: State, t: State, n: nat) {
    && t.peer == s.peer && t.activations == s.activations
    && t.ctl.pending && t.ctl.number == s.ctl.number + n
    && t.ctl.seqNo == t.ctl.number % WRAP16
    && t.ctl.cfgStm == (if n % 2 == 1 then CONFIG_B else CONFIG_A)
    && t.ctl.activeStm == s.ctl.activeStm
    && t.ctl.acksOk == s.ctl.acksOk
    && (n > 0 ==> t.ctl.payload == t.ctl.cfgStm)
  }

  lemma OneMoreSuperseded(s: State, t: State, n: nat)
    requires Superseded(s, t, n)
    ensures Superseded(s, Step(t, Reload(if n % 2 == 0 then CONFIG_B else CONFIG_A, false)), n + 1)
  {
    var p := if n % 2 == 0 then CONFIG_B else CONFIG_A;
    assert p.reserved == 0 && p != t.ctl.cfgStm;
    hide Step;
    ReloadSupersedes(t, if n % 2 == 0 then CONFIG_B else CONFIG_A);
  }

  lemma {:induction false} ReloadsSupersede(s: State, n: nat)
    requires s.ctl.cfgStm == CONFIG_A && s.ctl.pending && s.ctl.seqNo == s.ctl.number % WRAP16
    ensures Superseded(s, Exec(s, Reloads(n)), n)
  {
    assert n == 0 ==> Superseded(s, s, n);
    hide Exec;
    hide Step;
    hide Reloads;
    hide Superseded;
    ReloadsLast(n);
    ExecNone(s);
    if n > 0 {
      ReloadsSupersede(s, n - 1);
      var r := Reload(if n % 2 == 1 then CONFIG_B else CONFIG_A, false);
      ExecAppend(s, Reloads(n - 1), [r]);
      ExecOne(Exec(s, Reloads(n - 1)), r);
      OneMoreSuperseded(s, Exec(s, Reloads(n - 1)), n - 1);
    }
  }

  /** Command 1 reaches the STM32 and is accepted; the header saying so is prepared. */
  function FirstAccepted(): seq<Action> {
    [Exchange(true, false), PeerProcesses(true), PeerPrepares(true, false, 100)]
  }

  lemma FirstIsAccepted()
    ensures var s := Exec(Init(CONFIG_A, 100), FirstAccepted());
            && s.ctl.cfgStm == CONFIG_A && s.ctl.pending && s.ctl.number == 1 == s.ctl.seqNo
            && s.ctl.activeStm == UNKNOWN && s.ctl.acksOk == 0 && s.activations == []
            && s.peer.outgoing == Header(1, 100, true, false, false, 1)
            && s.peer.decided == map[1 := true]
  {
    var s0 := Init(CONFIG_A, 100);
    var run := FirstAccepted();
    var s1 := Step(s0, run[0]);
    assert run[1..] == [run[1], run[2]];
    assert Exec(s0, run) == Exec(s1, [run[1], run[2]]);
    var s2 := Step(s1, run[1]);
    assert [run[1], run[2]][1..] == [run[2]];
    assert Exec(s1, [run[1], run[2]]) == Exec(s2, [run[2]]);
    assert [run[2]][1..] == [];
    assert Exec(s2, [run[2]]) == Step(s2, run[2]);
    assert s1.peer.inbox == Some(Command(1, 1, CONFIG_A));
    assert s2.peer.decided == map[1 := true];
  }

  /** 65536 superseding reloads with no exchange between them bring cmd_seq round, and the
      old ACK then activates a configuration the STM32 was never sent. */
  lemma AliasedAck()
    ensures var s := Exec(Init(CONFIG_A, 100), FirstAccepted() + (Reloads(WRAP16) + [Exchange(false, true)]));
            && |s.activations| == 1
            && var a := s.activations[0];
               a.number == WRAP16 + 1 && a.about == 1 && !a.accepted && a.number !in s.peer.decided
  {
    hide Exec;
    hide Reloads;
    FirstIsAccepted();
    var s := Exec(Init(CONFIG_A, 100), FirstAccepted());
    ReloadsSupersede(s, WRAP16);
    var t := Exec(s, Reloads(WRAP16));
    var last := [Exchange(false, true)];
    ExecAppend(Init(CONFIG_A, 100), FirstAccepted(), Reloads(WRAP16) + last);
    ExecAppend(s, Reloads(WRAP16), last);
    ExecOne(t, last[0]);
  }

  // ---- the code -----------------------------------------------------------------------

  /** g_cmd and the main loop's variables it works with. */
  class MotorController {
    var pending: bool
    var seqNo: nat
    var retriesLeft: nat
    var frameSeq: nat
    var framePayload: Payload
    var payload: Payload
    var cfgStm: Payload
    var activeStm: Payload
    var cfgAcksOk: nat
    var cfgNacks: nat
    ghost var frameNumber: nat
    ghost var number: nat
    ghost var superseded: nat
    ghost var exchanges: nat

    /** Start-up: the loaded configuration is queued as the first command. */
    constructor (loaded: Payload)
      ensures AsModel() == Startup(loaded)
    {
      pending, seqNo, retriesLeft := false, 0, 0;
      frameSeq, framePayload, payload := 0, UNKNOWN, UNKNOWN;
      cfgStm, activeStm := loaded.(reserved := 0), UNKNOWN;
      cfgAcksOk, cfgNacks := 0, 0;
      frameNumber, number, superseded, exchanges := 0, 0, 0, 0;
      new;
      SetConfig(cfgStm);
    }

    ghost function AsModel(): Controller
      reads this
    {
      Controller(pending, seqNo, retriesLeft, Command(frameNumber, frameSeq, framePayload), payload, cfgStm, activeStm, cfgAcksOk, cfgNacks,
                 number, superseded, exchanges)
    }

    /** cmd_build_set_config. */
    method BuildFrame(p: Payload)
      modifies this`frameNumber, this`frameSeq, this`framePayload
      ensures frameNumber == number && frameSeq == seqNo && framePayload == p.(reserved := 0)
    {
      frameNumber := number;
      frameSeq := seqNo;
      framePayload := p.(reserved := 0);
    }

    /** cmd_queue_set_config. */
    method SetConfig(p: Payload)
      modifies this
      ensures AsModel() == QueueSetConfig(old(AsModel()), p)
    {
      superseded := if pending then superseded + 1 else superseded;
      number := number + 1;
      exchanges := 0;
      payload := p;
      seqNo := (seqNo + 1) % WRAP16;
      BuildFrame(p);
      pending := true;
      retriesLeft := MAX_RETRIES;
    }

    /** cmd_observe: the result is whether this frame made the configuration active. */
    method ObserveHeader(h: Header) returns (applied: bool)
      modifies this
      ensures AsModel() == Observe(old(AsModel()), h)
      ensures applied <==> cfgAcksOk == old(cfgAcksOk) + 1
    {
      if !pending {
        return false;
      }
      if h.echo != seqNo {
        if retriesLeft == 0 {
          cfgNacks := cfgNacks + 1;
          pending := false;
        }
        return false;
      }
      if h.ackOk {
        activeStm := payload;
        pending := false;
        cfgAcksOk := cfgAcksOk + 1;
        return true;
      }
      if h.nack {
        cfgNacks := cfgNacks + 1;
        pending := false;
        return false;
      }
      return false;
    }

    /** handle_reload with a file that was accepted: the parts that touch the command. */
    method Reload(loaded: Payload, busReopened: bool)
      modifies this
      ensures AsModel() == HandleReload(old(AsModel()), loaded, busReopened)
    {
      var next := loaded.(reserved := 0);
      if busReopened {
        if pending {
          retriesLeft := MAX_RETRIES;
          exchanges := 0;
        }
      }
      if next != cfgStm {
        cfgStm := next;
        SetConfig(cfgStm);
      }
    }

    /** The main loop from a completed exchange to cmd_observe; `intact` says whether magic,
        version and CRC are those of a frame.  On a link step the model takes the same step. */
    method CompleteExchange(h: Header, intact: bool)
      modifies this
      ensures AsModel() == (var c := CountAttempt(old(AsModel()));
                            if intact && RowsAccepted(c, h) then Observe(c, h) else c)
      ensures forall s: State :: s.ctl == old(AsModel()) && s.peer.outgoing == h ==>
                forall delivered :: Receive(s, delivered, intact).ctl == AsModel()
    {
      if pending && retriesLeft > 0 {
        retriesLeft := retriesLeft - 1;
      }
      exchanges := exchanges + 1;
      if h.nRows == 0 || h.nRows > MAX_ROWS {
        return;
      }
      if activeStm.blockRows != 0 && h.nRows != activeStm.blockRows && !h.applied {
        return;
      }
      if !intact {
        return;
      }
      var _ := ObserveHeader(h);
    }
  }
}
