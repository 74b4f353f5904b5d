/** Which transfers can still complete, and which channels keep the promise of status 0. */
module NetbootProgress {
  import opened Machine
  import opened NetbootWire
  import opened NetbootSender
  import opened NetbootReceiver
  import opened NetbootSystem

  ghost predicate HasData(up: set<Message>) {
    exists m :: m in up && IsData(m)
  }

  /** A data packet whose answers the host can tell from an empty acknowledgement buffer. */
  ghost predicate HasTagged(up: set<Message>) {
    exists m :: m in up && IsData(m) && m.cookie != 0
  }

  /** A data packet that carries the whole file. */
  ghost predicate HasWhole(c: Config, up: set<Message>) {
    exists m :: m in up && IsData(m) && |m.payload| == |c.file|
  }

  /** What the device remembers of the last message, while a file is active. */
  ghost predicate GoodMemory(c: Config, rx: Receiver)
    requires c.Valid()
  {
    || (Repeats(rx, StartMessage(c)) && rx.lastAckCmd == NB_ACK && rx.lastAckArg == |c.file| && rx.offset == 0)
    || (&& IsDataCmd(rx.lastCmd) && rx.lastArg != rx.offset
        && (rx.lastAckCmd == NB_ACK ==> rx.lastAckArg == rx.offset || rx.lastAckArg == 0)
        && (rx.lastAckCmd == NB_ACK || rx.offset == |c.file|))
  }

  /** The host has not tried to send a packet, and any answer to NB_SEND_FILE would move it. */
  ghost predicate FirstTurn(c: Config, s: System) {
    s.sender.cookie == Next32(c.cookie) && c.cookie != 0 && s.sender.offset == 0 && !HasData(s.up)
  }

  /**
   * Before the first tagged packet: the only packet on the wire is one with cookie 0 at position 0, an
   * acknowledgement that the host obeys names the end of the file, and the cookie has not wrapped.
   */
  ghost predicate Untagged(c: Config, s: System) {
    && (forall m :: m in s.up && IsData(m) ==> m.arg == 0 && (s.rx.offset == 0 || s.rx.offset == |m.payload|))
    && (forall m, m' :: m in s.up && m' in s.up && IsData(m) && IsData(m') ==> m == m')
    && (forall r :: r in s.down && r.cmd == NB_ACK && r.cookie != 0 ==> r.arg == |c.file|)
    && ((s.sender.phase == Starting || s.sender.phase == Running) && s.sender.offset < |c.file| ==>
          || 1 <= s.sender.cookie <= 1 + s.sender.offset
          || FirstTurn(c, s))
  }

  ghost predicate ProgressInv(c: Config, s: System)
    requires c.Valid()
  {
    && (s.rx.active ==> GoodMemory(c, s.rx))
    && (s.started && (!s.rx.active || !HasData(s.up)) ==> Repeats(s.rx, StartMessage(c)))
    && (s.started && !s.rx.active ==> s.rx.lastAckCmd == NB_ERROR_BAD_FILE)
    && (!HasData(s.up) ==> forall r :: r in s.down ==> r.cookie == c.cookie && r.cmd != NB_FILE_RECEIVED)
    && (!HasTagged(s.up) ==> Untagged(c, s))
    && (s.rx.active && s.rx.offset == |c.file| && c.file != [] ==> Received(s.down))
    && (s.sender.phase == Running ==> s.started)
  }

  /** Before the first packet the device is at 0. */
  lemma NothingReceived(c: Config, s: System)
    requires c.Valid() && Inv(c, s) && ProgressInv(c, s) && !HasData(s.up)
    ensures s.rx.offset == 0
  {
  }

  /** Where the host stands after a turn without a tagged packet: past the end, or one cookie further. */
  lemma TurnKeepsPace(c: Config, s: System, e: Event)
    requires c.Valid() && Inv(c, s) && ProgressInv(c, s) && !HasTagged(s.up)
    requires s.sender.phase == Running && Readable(s, e.io.received) && (e.io.readable || e.io.writable)
    requires var o := Turn(c.file, c.isFile, s.sender, e); o.sent.Some? ==> o.sent.value.cookie == 0
    ensures var o := Turn(c.file, c.isFile, s.sender, e);
            && (o.sender.phase == Running && o.sender.offset < |c.file| ==> 1 <= o.sender.cookie <= 1 + o.sender.offset)
            && (o.sent.Some? ==> FirstTurn(c, s))
  {
    if e.io.received.Some? && !HasData(s.up) {
      assert e.io.received.value in s.down;
    }
  }

  /** The first packet is the only one on the wire. */
  lemma FirstPacketAlone(c: Config, s: System, t: System, m: Message)
    requires !HasData(s.up) && s.rx.offset == 0 && Untagged(c, s)
    requires t.rx == s.rx && t.down == s.down && t.up == s.up + {m} && m.arg == 0
    requires t.sender.phase == Running && t.sender.offset < |c.file| ==> 1 <= t.sender.cookie <= 1 + t.sender.offset
    requires t.sender.phase != Starting
    ensures Untagged(c, t)
  {
  }

  lemma NoPacketMore(c: Config, s: System, t: System)
    requires Untagged(c, s) && t.rx == s.rx && t.down == s.down && t.up == s.up
    requires t.sender.phase == Running && t.sender.offset < |c.file| ==> 1 <= t.sender.cookie <= 1 + t.sender.offset
    requires t.sender.phase != Starting
    ensures Untagged(c, t)
  {
  }

  /** The same for the whole turn. */
  lemma TurnKeepsUntagged(c: Config, s: System, e: Event)
    requires c.Valid() && Inv(c, s) && ProgressInv(c, s)
    requires s.sender.phase == Running && Readable(s, e.io.received) && (e.io.readable || e.io.writable)
    requires !HasTagged(Turned(c, s, e).up)
    ensures Untagged(c, Turned(c, s, e))
  {
    var t, o := Turned(c, s, e), Turn(c.file, c.isFile, s.sender, e);
    assert forall m :: m in s.up ==> m in t.up;
    if o.sent.Some? {
      TurnAgrees(c.file, c.isFile, s.sender, e);
      assert o.sent.value in t.up && IsData(o.sent.value);
      TurnKeepsPace(c, s, e);
      NothingReceived(c, s);
      FirstPacketAlone(c, s, t, o.sent.value);
    } else {
      TurnKeepsPace(c, s, e);
      NoPacketMore(c, s, t);
    }
  }

  lemma TurnedProgressInv(c: Config, s: System, e: Event)
    requires c.Valid() && Inv(c, s) && ProgressInv(c, s)
    requires s.sender.phase == Running && Readable(s, e.io.received) && (e.io.readable || e.io.writable)
    ensures ProgressInv(c, Turned(c, s, e))
  {
    var t := Turned(c, s, e);
    if HasData(s.up) {
      var m :| m in s.up && IsData(m);
      assert m in t.up;
    }
    if !HasTagged(t.up) {
      TurnKeepsUntagged(c, s, e);
    }
  }

  lemma DeliveryKeepsUntagged(c: Config, s: System, m: Message, accepts: bool)
    requires c.Valid() && Inv(c, s) && ProgressInv(c, s) && m in s.up && !HasTagged(s.up)
    ensures Untagged(c, Delivered(s, m, accepts))
  {
  }

  lemma DeliveredProgressInv(c: Config, s: System, m: Message, accepts: bool)
    requires c.Valid() && Inv(c, s) && ProgressInv(c, s) && m in s.up
    ensures ProgressInv(c, Delivered(s, m, accepts))
  {
    var t := Delivered(s, m, accepts);
    var h := Handle(s.rx, m, accepts);
    if !HasTagged(s.up) {
      DeliveryKeepsUntagged(c, s, m, accepts);
    }
    if h.reply.Some? {
      assert h.reply.value in t.down;
    }
    if Received(s.down) {
      var r :| r in s.down && r.cmd == NB_FILE_RECEIVED;
      assert r in t.down;
    }
    if GoodData(c.file, m) && s.rx.active {
      DataKept(c, s.rx, m);
    }
  }

  lemma NextProgressInv(c: Config, s: System, t: System)
    requires c.Valid() && Inv(c, s) && ProgressInv(c, s) && Next(c, s, t)
    ensures ProgressInv(c, t)
  {
    var step :| NextBy(c, s, step, t);
    match step
    case HostStart(received) =>
    case HostTurn(e) => TurnedProgressInv(c, s, e);
    case Deliver(m, accepts) => DeliveredProgressInv(c, s, m, accepts);
  }

  lemma {:induction false} RunProgressInv(c: Config, run: seq<System>)
    requires c.Valid() && IsRun(c, run) && Inv(c, run[0]) && ProgressInv(c, run[0])
    ensures Inv(c, run[|run| - 1]) && ProgressInv(c, run[|run| - 1])
    decreases |run|
  {
    if |run| > 1 {
      RunProgressInv(c, run[..|run| - 1]);
      var s, t := run[|run| - 2], run[|run| - 2 + 1];
      assert Next(c, s, t);
      NextInv(c, s, t);
      NextProgressInv(c, s, t);
    }
  }

  lemma ReachableProgressInv(c: Config, s: System)
    requires c.Valid() && Reachable(c, s)
    ensures Inv(c, s) && ProgressInv(c, s)
  {
    var s0 :| Init(c, s0) && Leads(c, s0, s);
    var run :| IsRun(c, run) && run[0] == s0 && run[|run| - 1] == s;
    InitInv(c, s0);
    RunProgressInv(c, run);
  }

  // ---------------------------------------------------------------------------------------------
  // Runs compose
  // ---------------------------------------------------------------------------------------------

  lemma LeadsRefl(c: Config, s: System)
    ensures Leads(c, s, s)
  {
    assert IsRun(c, [s]);
  }

  lemma LeadsStep(c: Config, s: System, step: Step, t: System)
    requires NextBy(c, s, step, t)
    ensures Leads(c, s, t)
  {
    var run := [s, t];
    assert Next(c, run[0], run[0 + 1]);
    assert IsRun(c, run);
  }

  lemma LeadsTrans(c: Config, s: System, t: System, u: System)
    requires Leads(c, s, t) && Leads(c, t, u)
    ensures Leads(c, s, u)
  {
    var a :| IsRun(c, a) && a[0] == s && a[|a| - 1] == t;
    var b :| IsRun(c, b) && b[0] == t && b[|b| - 1] == u;
    var run := a + b[1..];
    forall i | 0 <= i < |run| - 1
      ensures Next(c, run[i], run[i + 1])
    {
      if i < |a| - 1 {
        assert Next(c, a[i], a[i + 1]);
      } else {
        var j := i - |a| + 1;
        assert Next(c, b[j], b[j + 1]);
      }
    }
    assert IsRun(c, run);
  }

  // ---------------------------------------------------------------------------------------------
  // Progress
  // ---------------------------------------------------------------------------------------------

  /** A running transfer, all invariants, with the device at `n`. */
  ghost predicate Going(c: Config, s: System, n: nat) {
    && c.Valid() && Inv(c, s) && ProgressInv(c, s)
    && s.sender.phase == Running && s.rx.active && s.rx.offset == n
  }

  /** The event in which the host reads `r` and cannot write. */
  function Reads(r: Reply): (e: Event) {
    Event(Full, false, Io(true, true, false, Some(r), true))
  }

  /** The event in which the host can only write. */
  const WRITES := Event(Full, false, Io(true, false, true, None, true))

  /** The host obeys an acknowledgement. */
  lemma Obeys(c: Config, s: System, r: Reply, n: nat) returns (t: System)
    requires Going(c, s, n) && r in s.down && r.cmd == NB_ACK && r.cookie != 0
    ensures Going(c, t, n) && Leads(c, s, t)
    ensures t.rx == s.rx && t.up == s.up && t.down == s.down
    ensures t.sender.offset == r.arg
    ensures s.sender.offset < |c.file| ==> t.sender.cookie == Next32(s.sender.cookie)
  {
    var e := Reads(r);
    t := Turned(c, s, e);
    TurnedInv(c, s, e);
    TurnedProgressInv(c, s, e);
    LeadsStep(c, s, HostTurn(e), t);
  }

  /** The host sends the packet at its position. */
  lemma Sends(c: Config, s: System, n: nat) returns (t: System, m: Message)
    requires Going(c, s, n) && s.sender.offset < |c.file|
    ensures Going(c, t, n) && Leads(c, s, t)
    ensures t.rx == s.rx && t.down == s.down && s.up <= t.up
    ensures m in t.up && GoodData(c.file, m) && m.arg == s.sender.offset && m.cookie == s.sender.cookie
    ensures t.sender.offset == s.sender.offset + |m.payload| && t.sender.cookie == Next32(s.sender.cookie)
  {
    t := Turned(c, s, WRITES);
    m := Packet(c.file, s.sender, ReadLen(|c.file|, s.sender.offset));
    TurnAgrees(c.file, c.isFile, s.sender, WRITES);
    TurnedInv(c, s, WRITES);
    TurnedProgressInv(c, s, WRITES);
    LeadsStep(c, s, HostTurn(WRITES), t);
  }

  /** A packet at the device's own position is always appended. */
  lemma Appends(c: Config, s: System, m: Message, n: nat) returns (t: System)
    requires Going(c, s, n) && m in s.up && GoodData(c.file, m) && m.arg == n
    ensures exists k :: k > n && Going(c, t, k)
    ensures Leads(c, s, t) && t.up == s.up
    ensures t.sender == s.sender
  {
    t := Delivered(s, m, true);
    DeliveredInv(c, s, m, true);
    DeliveredProgressInv(c, s, m, true);
    LeadsStep(c, s, Deliver(m, true), t);
    DataKept(c, s.rx, m);
    assert Going(c, t, n + |m.payload|);
  }

  /** Any other packet is answered: with the device's position, or with zero when it repeats the last append. */
  lemma Answers(c: Config, s: System, m: Message, n: nat) returns (t: System, r: Reply)
    requires Going(c, s, n) && n < |c.file| && m in s.up && GoodData(c.file, m) && m.arg != n
    ensures Going(c, t, n) && Leads(c, s, t) && t.sender == s.sender && t.up == s.up
    ensures r in t.down && r.cmd == NB_ACK && r.cookie == m.cookie
    ensures r.arg == n || r.arg == 0
    ensures !Repeats(s.rx, m) ==> r.arg == n
  {
    t := Delivered(s, m, true);
    DeliveredInv(c, s, m, true);
    DeliveredProgressInv(c, s, m, true);
    LeadsStep(c, s, Deliver(m, true), t);
    r := Handle(s.rx, m, true).reply.value;
    assert r in t.down;
  }

  /** With an acknowledgement that rewinds to 0, the host can skip cookies until its packet is new and tagged. */
  lemma {:induction false} SkipsCookies(c: Config, s: System, r: Reply, n: nat, budget: nat) returns (t: System)
    requires Going(c, s, n) && r in s.down && r.cmd == NB_ACK && r.cookie != 0 && r.arg == 0
    requires s.sender.offset == 0 < |c.file|
    requires budget == 0 ==> s.sender.cookie != 0 && s.sender.cookie != s.rx.lastCookie
    requires budget == 1 ==>
               Next32(s.sender.cookie) != 0 && Next32(s.sender.cookie) != s.rx.lastCookie
    requires budget <= 2
    ensures Going(c, t, n) && Leads(c, s, t) && t.rx == s.rx && t.up == s.up && t.down == s.down
    ensures t.sender.offset == 0
    ensures t.sender.cookie != 0 && t.sender.cookie != t.rx.lastCookie
    decreases budget
  {
    var x := s.sender.cookie;
    if x != 0 && x != s.rx.lastCookie {
      t := s;
      LeadsRefl(c, s);
    } else {
      var u := Obeys(c, s, r, n);
      if budget == 1 {
        t := SkipsCookies(c, u, r, n, 0);
      } else {
        t := SkipsCookies(c, u, r, n, if Next32(x) != 0 && Next32(x) != s.rx.lastCookie then 0 else 1);
      }
      LeadsTrans(c, s, u, t);
    }
  }

  /** The host at 0 while the device is further on: it learns the device's position. */
  lemma LearnsFromZero(c: Config, s: System, r: Reply, n: nat) returns (t: System, r': Reply)
    requires Going(c, s, n) && r in s.down && r.cmd == NB_ACK && r.cookie != 0 && r.arg == 0
    requires s.sender.offset == 0 < n < |c.file|
    ensures Going(c, t, n) && Leads(c, s, t)
    ensures r' in t.down && r'.cmd == NB_ACK && r'.cookie != 0 && r'.arg == n
  {
    var u := SkipsCookies(c, s, r, n, 2);
    var v, m := Sends(c, u, n);
    t, r' := Answers(c, v, m, n);
    LeadsTrans(c, s, u, v);
    LeadsTrans(c, s, v, t);
  }

  /** With any tagged packet on the wire the host learns the device's position, or the device moves on. */
  lemma Learns(c: Config, s: System, m: Message, n: nat) returns (t: System, r: Reply)
    requires Going(c, s, n) && n < |c.file|
    requires m in s.up && IsData(m) && m.cookie != 0 && m.arg != n
    ensures Going(c, t, n) && Leads(c, s, t)
    ensures r in t.down && r.cmd == NB_ACK && r.cookie != 0 && r.arg == n
  {
    assert GoodData(c.file, m);
    t, r := Answers(c, s, m, n);
    if r.arg != n {
      var u := Obeys(c, t, r, n);
      var v, r' := LearnsFromZero(c, u, r, n);
      LeadsTrans(c, s, t, u);
      LeadsTrans(c, s, u, v);
      t, r := v, r';
    }
  }

  /** A tagged packet on the wire is enough to move the device on. */
  lemma AdvancesTagged(c: Config, s: System, n: nat) returns (t: System)
    requires Going(c, s, n) && n < |c.file| && HasTagged(s.up)
    ensures exists k :: k > n && Going(c, t, k)
    ensures Leads(c, s, t) && HasTagged(t.up)
  {
    var m :| m in s.up && IsData(m) && m.cookie != 0;
    assert GoodData(c.file, m);
    if m.arg == n {
      t := Appends(c, s, m, n);
    } else {
      var v, r := Learns(c, s, m, n);
      var w := Obeys(c, v, r, n);
      var x, m' := Sends(c, w, n);
      t := Appends(c, x, m', n);
      LeadsTrans(c, s, v, w);
      LeadsTrans(c, s, w, x);
      LeadsTrans(c, s, x, t);
      assert HasTagged(v.up) && HasTagged(t.up);
    }
  }

  /** The host has a packet to send, or one on the wire that can be answered or needs no answer. */
  ghost predicate Lively(c: Config, s: System) {
    s.sender.offset < |c.file| || HasTagged(s.up) || HasWhole(c, s.up)
  }

  /** A host before the end of the file can send a tagged packet, or the whole file in one. */
  lemma SendsEnough(c: Config, s: System, n: nat) returns (t: System)
    requires Going(c, s, n) && s.sender.offset < |c.file|
    ensures Going(c, t, n) && Leads(c, s, t)
    ensures HasTagged(t.up) || HasWhole(c, t.up)
  {
    if HasTagged(s.up) {
      t := s;
      LeadsRefl(c, s);
      return;
    }
    var m;
    t, m := Sends(c, s, n);
    if m.cookie == 0 && |m.payload| < |c.file| {
      assert FirstTurn(c, s);
      var u, m' := Sends(c, t, n);
      LeadsTrans(c, s, t, u);
      t := u;
    }
  }

  /** The device can always be moved on. */
  lemma Advances(c: Config, s: System, n: nat) returns (t: System)
    requires Going(c, s, n) && n < |c.file| && Lively(c, s)
    ensures exists k :: k > n && Going(c, t, k)
    ensures Leads(c, s, t) && Lively(c, t)
  {
    var u := s;
    LeadsRefl(c, s);
    if !HasTagged(s.up) && !HasWhole(c, s.up) {
      u := SendsEnough(c, s, n);
    }
    if HasTagged(u.up) {
      t := AdvancesTagged(c, u, n);
    } else {
      var m :| m in u.up && IsData(m) && |m.payload| == |c.file|;
      t := Appends(c, u, m, n);
    }
    LeadsTrans(c, s, u, t);
  }

  /** The device can always be brought to report the file. */
  lemma {:induction false} Reports(c: Config, s: System, n: nat) returns (t: System)
    requires Going(c, s, n) && c.file != [] && Lively(c, s)
    requires n <= |c.file|
    ensures Going(c, t, |c.file|) && Leads(c, s, t) && Received(t.down)
    decreases |c.file| - n
  {
    if n == |c.file| {
      t := s;
      LeadsRefl(c, s);
    } else {
      var u := Advances(c, s, n);
      var k :| k > n && Going(c, u, k);
      t := Reports(c, u, k);
      LeadsTrans(c, s, u, t);
    }
  }

  /** A host that finds the report finishes with status 0. */
  lemma Finishes(c: Config, s: System) returns (t: System)
    requires c.Valid() && Inv(c, s) && s.sender.phase == Running && Received(s.down)
    ensures Leads(c, s, t) && t.sender.phase == Done && t.rx == s.rx
  {
    var r :| r in s.down && r.cmd == NB_FILE_RECEIVED;
    var e := Reads(r);
    t := Turned(c, s, e);
    LeadsStep(c, s, HostTurn(e), t);
  }

  // ---------------------------------------------------------------------------------------------
  // Dead transfers
  // ---------------------------------------------------------------------------------------------

  /**
   * No report is under way and none can come: the device has no file, or the host waits at the end of
   * the file and no packet on the wire can change that.
   */
  ghost predicate Dead(c: Config, s: System) {
    || s.sender.phase == Failed
    || (s.sender.phase == Running && !Received(s.down) && (!s.rx.active || !Lively(c, s)))
  }

  /** A waiting host sends nothing and is never sent back. */
  lemma DeadTurn(c: Config, s: System, e: Event)
    requires c.Valid() && Inv(c, s) && ProgressInv(c, s) && Dead(c, s)
    requires NextBy(c, s, HostTurn(e), Turned(c, s, e))
    ensures Dead(c, Turned(c, s, e))
  {
  }

  /** No delivery brings a report. */
  lemma DeadDelivery(c: Config, s: System, m: Message, accepts: bool)
    requires c.Valid() && Inv(c, s) && ProgressInv(c, s) && Dead(c, s) && m in s.up
    ensures Dead(c, Delivered(s, m, accepts))
  {
    if s.sender.phase == Running && s.rx.active && IsData(m) {
      assert m.arg == 0;
    }
  }

  lemma DeadStays(c: Config, s: System, t: System)
    requires c.Valid() && Inv(c, s) && ProgressInv(c, s) && Dead(c, s) && Next(c, s, t)
    ensures Dead(c, t)
  {
    var step :| NextBy(c, s, step, t);
    match step
    case HostStart(received) =>
    case HostTurn(e) => DeadTurn(c, s, e);
    case Deliver(m, accepts) => DeadDelivery(c, s, m, accepts);
  }

  lemma {:induction false} DeadRun(c: Config, run: seq<System>)
    requires c.Valid() && IsRun(c, run) && Inv(c, run[0]) && ProgressInv(c, run[0]) && Dead(c, run[0])
    ensures Dead(c, run[|run| - 1])
    decreases |run|
  {
    if |run| > 1 {
      var init := run[..|run| - 1];
      DeadRun(c, init);
      RunProgressInv(c, init);
      assert Next(c, run[|run| - 2], run[|run| - 2 + 1]);
      DeadStays(c, run[|run| - 2], run[|run| - 1]);
    }
  }

  ghost predicate CanFinish(c: Config, s: System) {
    exists t :: Leads(c, s, t) && t.sender.phase == Done
  }

  /**
   * Exactly the running transfers that can still end with status 0: the report is already on the wire,
   * or the device has the file open and the host has a packet to send, has sent one with a cookie other
   * than 0, or has sent the whole file in one packet.
   */
  lemma CanFinishExactly(c: Config, s: System)
    requires c.Valid() && Reachable(c, s) && s.sender.phase == Running
    ensures CanFinish(c, s) <==> Received(s.down) || (s.rx.active && Lively(c, s))
  {
    ReachableProgressInv(c, s);
    if Received(s.down) {
      var t := Finishes(c, s);
    } else if s.rx.active && Lively(c, s) {
      assert c.file != [] by {
        if m :| m in s.up && IsData(m) {
          assert GoodData(c.file, m);
        }
      }
      var t := Reports(c, s, s.rx.offset);
      var u := Finishes(c, t);
      LeadsTrans(c, s, t, u);
    } else {
      forall t | Leads(c, s, t)
        ensures t.sender.phase != Done
      {
        var run :| IsRun(c, run) && run[0] == s && run[|run| - 1] == t;
        DeadRun(c, run);
      }
    }
  }

  /** The state in which the device has accepted the file and the host has read its answer. */
  lemma Begins(c: Config) returns (s: System, r: Reply)
    requires c.Valid()
    ensures Reachable(c, s) && Going(c, s, 0) && s.sender.offset == 0 && !HasData(s.up)
    ensures r in s.down && r.cmd == NB_ACK && r.cookie == c.cookie && r.arg == |c.file|
  {
    var s0 := System(Sender(Starting, 0, 0, 0, Next32(c.cookie)), FRESH, {StartMessage(c)}, {}, false);
    var m := StartMessage(c);
    var s1 := Delivered(s0, m, true);
    LeadsStep(c, s0, Deliver(m, true), s1);
    r := Reply(NB_MAGIC, c.cookie, NB_ACK, |c.file|);
    assert r in s1.down;
    s := Started(c, s1, Some(r));
    LeadsStep(c, s1, HostStart(Some(r)), s);
    LeadsTrans(c, s0, s1, s);
    assert Init(c, s0);
    ReachableProgressInv(c, s);
  }

  /** A host that reads answers with cookie 0 instead of writing drops its packets, one after the other. */
  lemma {:induction false} Drifts(c: Config, s: System, r: Reply) returns (t: System)
    requires Going(c, s, 0) && !HasData(s.up) && r in s.down && r.cmd == NB_ACK && r.cookie == 0
    ensures Going(c, t, 0) && Leads(c, s, t) && t.up == s.up && t.sender.offset >= |c.file|
    decreases |c.file| - s.sender.offset
  {
    if s.sender.offset >= |c.file| {
      t := s;
      LeadsRefl(c, s);
    } else {
      var e := Reads(r);
      var u := Turned(c, s, e);
      TurnedInv(c, s, e);
      TurnedProgressInv(c, s, e);
      LeadsStep(c, s, HostTurn(e), u);
      t := Drifts(c, u, r);
      LeadsTrans(c, s, u, t);
    }
  }

  /** Every transfer can get stuck: a further copy of the first answer sends the host past all its packets. */
  lemma Stuck(c: Config) returns (s: System)
    requires c.Valid()
    ensures Reachable(c, s) && s.sender.phase == Running && !CanFinish(c, s)
  {
    var a, r := Begins(c);
    if c.cookie == 0 {
      s := Drifts(c, a, r);
    } else {
      s := Obeys(c, a, r, 0);
    }
    var s0 :| Init(c, s0) && Leads(c, s0, a);
    LeadsTrans(c, s0, a, s);
    assert !HasData(s.up);
    CanFinishExactly(c, s);
  }

  /** The transfer of an empty file never ends with status 0. */
  lemma EmptyNeverFinishes(c: Config, s: System)
    requires c.Valid() && c.file == [] && Reachable(c, s) && s.sender.phase == Running
    ensures !CanFinish(c, s)
  {
    ReachableInv(c, s);
    CanFinishExactly(c, s);
    assert forall m :: m in s.up ==> !GoodData(c.file, m);
  }

  // ---------------------------------------------------------------------------------------------
  // The promise of status 0, over channels
  // ---------------------------------------------------------------------------------------------

  /** Messages stay available. */
  lemma {:induction false} UpGrows(c: Config, run: seq<System>)
    requires IsRun(c, run)
    ensures run[0].up <= run[|run| - 1].up
    decreases |run|
  {
    if |run| > 1 {
      UpGrows(c, run[..|run| - 1]);
      assert Next(c, run[|run| - 2], run[|run| - 2 + 1]);
    }
  }

  lemma StartStays(c: Config, s0: System, s: System)
    requires c.Valid() && Init(c, s0) && Leads(c, s0, s)
    ensures StartMessage(c) in s.up
  {
    var run :| IsRun(c, run) && run[0] == s0 && run[|run| - 1] == s;
    UpGrows(c, run);
  }

  /** A whole run that ends with status 0. */
  ghost predicate Succeeds(c: Config, run: seq<System>)
    requires c.Valid()
  {
    IsRun(c, run) && Init(c, run[0]) && run[|run| - 1].sender.phase == Done
  }

  /**
   * A channel that may deliver NB_SEND_FILE after the report can end any transfer with status 0 while
   * the device holds nothing.
   */
  lemma RestartLosesTheFile(c: Config) returns (run: seq<System>)
    requires c.Valid() && c.file != []
    ensures Succeeds(c, run)
    ensures run[|run| - 1].rx.offset == 0 && !Whole(c, run[|run| - 1])
  {
    var a, first := Begins(c);
    var b := Reports(c, a, 0);
    var m := StartMessage(c);
    var s0 :| Init(c, s0) && Leads(c, s0, a);
    LeadsTrans(c, s0, a, b);
    StartStays(c, s0, b);
    var d := Delivered(b, m, true);
    LeadsStep(c, b, Deliver(m, true), d);
    LeadsTrans(c, s0, b, d);
    assert Reachable(c, d);
    ReachableProgressInv(c, d);
    var r :| r in b.down && r.cmd == NB_FILE_RECEIVED;
    assert r in d.down;
    var s := Finishes(c, d);
    LeadsTrans(c, s0, d, s);
    run :| IsRun(c, run) && run[0] == s0 && run[|run| - 1] == s;
  }

  /**
   * Over all runs of a channel: status 0 means that the device holds the whole file if and only if the
   * channel delivers no NB_SEND_FILE after the report.
   */
  lemma StatusZeroIsTrueExactly(c: Config, late: bool)
    requires c.Valid() && c.file != []
    ensures (forall run :: Succeeds(c, run) && (late || Calm(c, run)) ==> Whole(c, run[|run| - 1])) <==> !late
  {
    if late {
      var run := RestartLosesTheFile(c);
    } else {
      forall run | Succeeds(c, run) && Calm(c, run)
        ensures Whole(c, run[|run| - 1])
      {
        SuccessMeansWhole(c, run);
      }
    }
  }
}
