/**
 * The host and the device, joined by a channel that loses, duplicates, delays and reorders in both
 * directions: a message that was sent once may be delivered at any later time, any number of times,
 * or never.
 */
module NetbootSystem {
  import opened Machine
  import opened NetbootWire
  import opened NetbootSender
  import opened NetbootReceiver

  /** One transfer: the file, how it is read, its name on the wire and the value of the static cookie. */
  datatype Config = Config(file: seq<Byte>, isFile: bool, name: seq<Byte>, cookie: U32) {
    ghost predicate Valid() {
      |file| < 0x1_0000_0000 && name != []
    }
  }

  /** `up` and `down` hold every message sent so far; `started` is set by the first NB_SEND_FILE handled. */
  datatype System = System(sender: Sender, rx: Receiver, up: set<Message>, down: set<Reply>, started: bool)

  datatype Step = HostStart(received: Option<Reply>) | HostTurn(e: Event) | Deliver(m: Message, accepts: bool)

  function StartMessage(c: Config): (m: Message)
    requires c.Valid()
  {
    Message(c.cookie, NB_SEND_FILE, |c.file|, c.name)
  }

  /** The host has just sent NB_SEND_FILE and waits for the answer. */
  ghost predicate Init(c: Config, s: System)
    requires c.Valid()
  {
    s == System(Sender(Starting, 0, 0, 0, Next32(c.cookie)), FRESH, {StartMessage(c)}, {}, false)
  }

  /** A host can only read what the device sent. */
  ghost predicate Readable(s: System, received: Option<Reply>) {
    received.Some? ==> received.value in s.down
  }

  ghost function Started(c: Config, s: System, received: Option<Reply>): (t: System) {
    s.(sender := s.sender.(phase := if IoRcv(received, Some(c.cookie)).ok then Running else Failed))
  }

  ghost function Turned(c: Config, s: System, e: Event): (t: System) {
    var o := Turn(c.file, c.isFile, s.sender, e);
    s.(sender := o.sender, up := if o.sent.Some? then s.up + {o.sent.value} else s.up)
  }

  ghost function Delivered(s: System, m: Message, accepts: bool): (t: System)
    requires s.rx.offset < 0x1_0000_0000
  {
    var h := Handle(s.rx, m, accepts);
    s.(rx := h.rx,
       down := if h.reply.Some? then s.down + {h.reply.value} else s.down,
       started := s.started || m.cmd == NB_SEND_FILE)
  }

  ghost predicate NextBy(c: Config, s: System, step: Step, t: System) {
    match step
    case HostStart(received) =>
      s.sender.phase == Starting && Readable(s, received) && t == Started(c, s, received)
    case HostTurn(e) => // select reports at least one direction
      && s.sender.phase == Running && Readable(s, e.io.received) && (e.io.readable || e.io.writable)
      && t == Turned(c, s, e)
    case Deliver(m, accepts) =>
      && m in s.up
      && s.rx.offset < 0x1_0000_0000
      && t == Delivered(s, m, accepts)
  }

  ghost predicate Next(c: Config, s: System, t: System) {
    exists step :: NextBy(c, s, step, t)
  }

  /** `run` is a run of the system, from any state. */
  ghost predicate IsRun(c: Config, run: seq<System>) {
    && run != []
    && forall i :: 0 <= i < |run| - 1 ==> Next(c, run[i], run[i + 1])
  }

  ghost predicate Leads(c: Config, s: System, t: System) {
    exists run :: IsRun(c, run) && run[0] == s && run[|run| - 1] == t
  }

  ghost predicate Reachable(c: Config, s: System)
    requires c.Valid()
  {
    exists s0 :: Init(c, s0) && Leads(c, s0, s)
  }

  /** The device holds exactly the file. */
  ghost predicate Whole(c: Config, s: System) {
    s.rx.active && s.rx.offset == |c.file| && s.rx.data == c.file
  }

  // ---------------------------------------------------------------------------------------------
  // Safety
  // ---------------------------------------------------------------------------------------------

  ghost predicate GoodAck(c: Config, cmd: U32, arg: U32) {
    || (cmd == NB_ACK && arg <= |c.file|)
    || cmd == NB_FILE_RECEIVED
    || cmd == NB_ERROR_BAD_FILE
  }

  ghost predicate GoodReply(c: Config, r: Reply) {
    r.magic == NB_MAGIC && GoodAck(c, r.cmd, r.arg)
  }

  ghost predicate GoodReceiver(c: Config, rx: Receiver) {
    && GoodAck(c, rx.lastAckCmd, rx.lastAckArg)
    && rx.offset <= |rx.data|
    && (rx.active ==> |rx.data| == |c.file| && rx.data[..rx.offset] == c.file[..rx.offset])
    && (!rx.active ==> rx.data == [])
    && (rx.active && rx.lastCmd == NB_SEND_FILE ==> rx.offset == 0)
  }

  ghost predicate GoodSender(c: Config, s: Sender) {
    s.phase == Starting || s.phase == Running ==> Agrees(s) && s.offset <= |c.file|
  }

  ghost predicate GoodUp(c: Config, up: set<Message>)
    requires c.Valid()
  {
    forall m :: m in up ==> m == StartMessage(c) || GoodData(c.file, m)
  }

  ghost predicate GoodDown(c: Config, down: set<Reply>) {
    forall r :: r in down ==> GoodReply(c, r)
  }

  ghost predicate Received(down: set<Reply>) {
    exists r :: r in down && r.cmd == NB_FILE_RECEIVED
  }

  /** A report was put on the wire before the host or the device refer to it. */
  ghost predicate GoodReport(c: Config, s: System) {
    && (s.rx.lastAckCmd == NB_FILE_RECEIVED ==> Received(s.down))
    && (s.sender.phase == Done ==> Received(s.down))
    && (Received(s.down) ==> c.file != [])
    && (!s.started ==> s.down == {} && s.rx == FRESH)
  }

  ghost predicate Inv(c: Config, s: System)
    requires c.Valid()
  {
    && GoodSender(c, s.sender)
    && GoodReceiver(c, s.rx)
    && GoodUp(c, s.up)
    && GoodDown(c, s.down)
    && GoodReport(c, s)
  }

  lemma InitInv(c: Config, s: System)
    requires c.Valid() && Init(c, s)
    ensures Inv(c, s)
  {
  }

  lemma TurnedInv(c: Config, s: System, e: Event)
    requires c.Valid() && Inv(c, s)
    requires s.sender.phase == Running && Readable(s, e.io.received)
    ensures Inv(c, Turned(c, s, e))
  {
    TurnAgrees(c.file, c.isFile, s.sender, e);
  }

  /** Only the operating system or a refused file makes a turn fail, never an acknowledgement. */
  lemma FailureHasCause(c: Config, s: System, e: Event)
    requires c.Valid() && Inv(c, s)
    requires s.sender.phase == Running && Readable(s, e.io.received)
    requires Turned(c, s, e).sender.phase == Failed
    ensures || (c.isFile && (e.read.Broken? || e.seekError))
            || e.io.received.None? || e.io.received.value.cmd == NB_ERROR_BAD_FILE
            || !e.io.selectOk || !e.io.sendOk
  {
  }

  /** The handling of a data packet keeps the prefix and never overruns the buffer. */
  lemma DataKept(c: Config, rx: Receiver, m: Message)
    requires c.Valid() && GoodReceiver(c, rx) && rx.active && GoodData(c.file, m)
    ensures var h := HandleData(rx, m);
            && GoodReceiver(c, h.rx) && h.rx.active
            && (h.reply.Some? ==> GoodReply(c, h.reply.value))
            && h.rx.offset >= rx.offset
            && h.rx.lastAckCmd != NB_ERROR_TOO_LARGE
            && (h.rx.lastAckCmd == NB_FILE_RECEIVED ==> h.rx.offset == |c.file| && h.reply.Some?)
            && (h.reply.Some? ==> h.reply.value.cmd == h.rx.lastAckCmd)
  {
    var h := HandleData(rx, m);
    if m.arg == rx.offset {
      var n := |m.payload|;
      assert c.file[..rx.offset + n] == c.file[..rx.offset] + c.file[rx.offset..rx.offset + n];
    }
  }

  lemma DeliveredInv(c: Config, s: System, m: Message, accepts: bool)
    requires c.Valid() && Inv(c, s)
    requires m in s.up
    ensures Inv(c, Delivered(s, m, accepts))
  {
    if GoodData(c.file, m) && s.rx.active {
      DataKept(c, s.rx, m);
    }
    var h := Handle(s.rx, m, accepts);
    var t := Delivered(s, m, accepts);
    if h.reply.Some? {
      assert h.reply.value in t.down;
    }
    if Received(s.down) {
      var r :| r in s.down && r.cmd == NB_FILE_RECEIVED;
      assert r in t.down;
    }
  }

  lemma NextInv(c: Config, s: System, t: System)
    requires c.Valid() && Inv(c, s) && Next(c, s, t)
    ensures Inv(c, t)
  {
    var step :| NextBy(c, s, step, t);
    match step
    case HostStart(received) =>
    case HostTurn(e) => TurnedInv(c, s, e);
    case Deliver(m, accepts) => DeliveredInv(c, s, m, accepts);
  }

  lemma {:induction false} RunInv(c: Config, run: seq<System>)
    requires c.Valid() && IsRun(c, run) && Inv(c, run[0])
    ensures Inv(c, run[|run| - 1])
    decreases |run|
  {
    if |run| > 1 {
      var init := run[..|run| - 1];
      RunInv(c, init);
      assert Next(c, run[|run| - 2], run[|run| - 2 + 1]);
      NextInv(c, run[|run| - 2], run[|run| - 1]);
    }
  }

  lemma ReachableInv(c: Config, s: System)
    requires c.Valid() && Reachable(c, s)
    ensures Inv(c, s)
  {
    var s0 :| Init(c, s0) && Leads(c, s0, s);
    var run :| IsRun(c, run) && run[0] == s0 && run[|run| - 1] == s;
    InitInv(c, s0);
    RunInv(c, run);
  }

  /** In every reachable state the device holds a prefix of the file, and every packet on the wire is true. */
  lemma DeviceHoldsPrefix(c: Config, s: System)
    requires c.Valid() && Reachable(c, s)
    ensures s.rx.active ==> s.rx.offset <= |s.rx.data| && s.rx.data[..s.rx.offset] <= c.file
    ensures forall m :: m in s.up ==> m == StartMessage(c) || GoodData(c.file, m)
    ensures forall r :: r in s.down ==> r.cmd != NB_ERROR_TOO_LARGE
  {
    ReachableInv(c, s);
  }

  // ---------------------------------------------------------------------------------------------
  // The promise of status 0
  // ---------------------------------------------------------------------------------------------

  /** A step that opens the file again although its receipt was reported. */
  ghost predicate Reopens(s: System, step: Step) {
    Received(s.down) && step.Deliver? && step.m.cmd == NB_SEND_FILE
  }

  ghost predicate CalmStep(c: Config, s: System, t: System) {
    exists step :: NextBy(c, s, step, t) && !Reopens(s, step)
  }

  /** Once the receipt is reported, the run delivers no further copy of NB_SEND_FILE. */
  ghost predicate Calm(c: Config, run: seq<System>) {
    forall i :: 0 <= i < |run| - 1 ==> CalmStep(c, run[i], run[i + 1])
  }

  /** From the report on, the device holds the whole file. */
  ghost predicate TrueReport(c: Config, s: System) {
    Received(s.down) ==> Whole(c, s)
  }

  ghost predicate TrueThroughout(c: Config, run: seq<System>) {
    forall i :: 0 <= i < |run| ==> TrueReport(c, run[i])
  }

  /** A device that is at the end of the file holds it. */
  lemma WholeAtEnd(c: Config, rx: Receiver)
    requires c.Valid() && GoodReceiver(c, rx) && rx.active && rx.offset == |c.file|
    ensures rx.data == c.file
  {
    assert rx.data[..rx.offset] == rx.data && c.file[..rx.offset] == c.file;
  }

  lemma ReceivedStays(c: Config, s: System, t: System)
    requires Next(c, s, t) && Received(s.down)
    ensures Received(t.down)
  {
    var r :| r in s.down && r.cmd == NB_FILE_RECEIVED;
    assert r in t.down;
  }

  /** The step that first puts the report on the wire is the one that completes the buffer. */
  lemma ReportIsWhole(c: Config, s: System, t: System)
    requires c.Valid() && Inv(c, s) && Next(c, s, t) && !Received(s.down) && Received(t.down)
    ensures Whole(c, t)
  {
    var step :| NextBy(c, s, step, t);
    if step.Deliver? {
      DataKept(c, s.rx, step.m);
      WholeAtEnd(c, t.rx);
    }
  }

  lemma CalmKeepsTrue(c: Config, s: System, t: System)
    requires c.Valid() && Inv(c, s) && CalmStep(c, s, t) && TrueReport(c, s)
    ensures TrueReport(c, t)
  {
    var step :| NextBy(c, s, step, t) && !Reopens(s, step);
    assert Next(c, s, t);
    if Received(s.down) {
      if step.Deliver? {
        DataKept(c, s.rx, step.m);
        WholeAtEnd(c, t.rx);
      }
    } else if Received(t.down) {
      ReportIsWhole(c, s, t);
    }
  }

  /** A late NB_SEND_FILE is never taken for a repeated one: the device opens the file again, empty. */
  lemma ReopeningEmpties(c: Config, s: System, step: Step, t: System)
    requires c.Valid() && Inv(c, s) && Whole(c, s) && NextBy(c, s, step, t) && Reopens(s, step)
    ensures !TrueReport(c, t)
  {
    assert Next(c, s, t);
    ReceivedStays(c, s, t);
  }

  lemma {:induction false} CalmIsTrue(c: Config, run: seq<System>)
    requires c.Valid() && IsRun(c, run) && Init(c, run[0]) && Calm(c, run)
    ensures Inv(c, run[|run| - 1]) && TrueThroughout(c, run)
    decreases |run|
  {
    InitInv(c, run[0]);
    if |run| > 1 {
      var init, k := run[..|run| - 1], |run| - 2;
      forall i | 0 <= i < |init| - 1
        ensures CalmStep(c, init[i], init[i + 1]) && Next(c, init[i], init[i + 1])
      {
        assert CalmStep(c, run[i], run[i + 1]) && Next(c, run[i], run[i + 1]);
      }
      CalmIsTrue(c, init);
      assert init[k] == run[k] && CalmStep(c, run[k], run[k + 1]) && Next(c, run[k], run[k + 1]);
      assert TrueReport(c, init[k]);
      CalmKeepsTrue(c, run[k], run[k + 1]);
      NextInv(c, run[k], run[k + 1]);
      forall i | 0 <= i < |run|
        ensures TrueReport(c, run[i])
      {
        assert i < |init| ==> run[i] == init[i];
      }
    }
  }

  lemma TrueStepIsCalm(c: Config, s: System, t: System)
    requires c.Valid() && Inv(c, s) && Next(c, s, t) && TrueReport(c, s) && TrueReport(c, t)
    ensures CalmStep(c, s, t)
  {
    var step :| NextBy(c, s, step, t);
    if Reopens(s, step) {
      ReopeningEmpties(c, s, step, t);
    }
  }

  /** Every state of a run from an initial state satisfies the invariant. */
  lemma InvThroughout(c: Config, run: seq<System>, i: nat)
    requires c.Valid() && IsRun(c, run) && Init(c, run[0]) && i < |run|
    ensures Inv(c, run[i])
  {
    var front := run[..i + 1];
    forall k | 0 <= k < |front| - 1
      ensures Next(c, front[k], front[k + 1])
    {
      assert Next(c, run[k], run[k + 1]);
    }
    InitInv(c, run[0]);
    RunInv(c, front);
  }

  /**
   * For every run over any channel: the device holds the whole file in every state in which the
   * receipt is reported if and only if no NB_SEND_FILE is delivered after the report.
   */
  lemma ReportTrueExactly(c: Config, run: seq<System>)
    requires c.Valid() && IsRun(c, run) && Init(c, run[0])
    ensures TrueThroughout(c, run) <==> Calm(c, run)
  {
    if Calm(c, run) {
      CalmIsTrue(c, run);
    }
    if TrueThroughout(c, run) {
      forall i | 0 <= i < |run| - 1
        ensures CalmStep(c, run[i], run[i + 1])
      {
        assert Next(c, run[i], run[i + 1]) && TrueReport(c, run[i]) && TrueReport(c, run[i + 1]);
        InvThroughout(c, run, i);
        TrueStepIsCalm(c, run[i], run[i + 1]);
      }
    }
  }

  /** A run that ends with status 0, and with no NB_SEND_FILE after the report, leaves the whole file. */
  lemma SuccessMeansWhole(c: Config, run: seq<System>)
    requires c.Valid() && IsRun(c, run) && Init(c, run[0]) && Calm(c, run)
    requires run[|run| - 1].sender.phase == Done
    ensures Whole(c, run[|run| - 1])
  {
    CalmIsTrue(c, run);
    assert TrueReport(c, run[|run| - 1]);
  }

  /** On every channel, a report means that the device held the whole file at some point of the run. */
  lemma {:induction false} StatusZeroWasTrue(c: Config, run: seq<System>) returns (i: nat)
    requires c.Valid() && IsRun(c, run) && Init(c, run[0]) && Received(run[|run| - 1].down)
    ensures i < |run| && Whole(c, run[i])
    decreases |run|
  {
    var last := |run| - 1;
    var init := run[..last];
    assert Next(c, run[last - 1], run[last - 1 + 1]);
    if Received(run[last - 1].down) {
      i := StatusZeroWasTrue(c, init);
    } else {
      InitInv(c, run[0]);
      RunInv(c, init);
      ReportIsWhole(c, run[last - 1], run[last]);
      i := last;
    }
  }
}
