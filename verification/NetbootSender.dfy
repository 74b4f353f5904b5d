/** The messages exchanged by the netboot host tool and the bootloader on the device. */
module NetbootWire {
  import opened Machine

  const PAYLOAD_SIZE: nat := 1280

  const NB_SERVER_PORT: nat := 33330

  const NB_MAGIC: U32 := 0xAA774217

  const NB_COMMAND: U32 := 1
  const NB_SEND_FILE: U32 := 2
  const NB_DATA: U32 := 3
  const NB_BOOT: U32 := 4
  const NB_LAST_DATA: U32 := 11
  const NB_REBOOT: U32 := 12

  const NB_ACK: U32 := 0
  const NB_FILE_RECEIVED: U32 := 0x70000001

  const NB_ERROR_TOO_LARGE: U32 := 0x80000003
  const NB_ERROR_BAD_FILE: U32 := 0x80000004

  /** A message of the host; its magic is always NB_MAGIC. */
  datatype Message = Message(cookie: U32, cmd: U32, arg: U32, payload: seq<Byte>)

  /** A message of the peer, as the host reads it into its acknowledgement buffer. */
  datatype Reply = Reply(magic: U32, cookie: U32, cmd: U32, arg: U32)

  predicate IsDataCmd(cmd: U32) {
    cmd == NB_DATA || cmd == NB_LAST_DATA
  }

  predicate IsData(m: Message) {
    IsDataCmd(m.cmd)
  }

  /** A data packet that carries a true, non-empty slice of `file` and is marked last exactly at its end. */
  ghost predicate GoodData(file: seq<Byte>, m: Message) {
    && IsData(m)
    && 1 <= |m.payload| <= PAYLOAD_SIZE
    && m.arg + |m.payload| <= |file|
    && m.payload == file[m.arg..m.arg + |m.payload|]
    && (m.cmd == NB_LAST_DATA <==> m.arg + |m.payload| == |file|)
  }
}

/** The host side: xread, xseek, io_rcv, io and the loop of netboot_xfer. */
module NetbootSender {
  import opened Machine
  import opened NetbootWire

  /**
   * What the operating system does during one call of `io`: whether select succeeds, which directions
   * it reports ready, what a read of the socket yields (None is an error or a short read) and whether
   * a write is accepted.
   */
  datatype Io = Io(selectOk: bool, readable: bool, writable: bool, received: Option<Reply>, sendOk: bool)

  /** What fread does: it reads all that is asked for or left, or breaks off after at most `n` bytes. */
  datatype Fread = Full | Broken(n: nat)

  /** One turn of the transfer loop; `seekError` is a failing fseek. */
  datatype Event = Event(read: Fread, seekError: bool, io: Io)

  datatype IoResult = IoResult(ok: bool, ack: Reply, sent: bool)

  datatype Phase = Starting | Running | Done | Failed

  /**
   * The variables of netboot_xfer: the position of the reader, `current_pos`, `msg->arg`
   * and the next value of the static `cookie`.
   */
  datatype Sender = Sender(phase: Phase, offset: nat, currentPos: nat, msgArg: U32, cookie: U32)

  datatype Outcome = Outcome(sender: Sender, sent: Option<Message>)

  const NO_REPLY := Reply(0, 0, 0, 0)

  function Next32(x: U32): (r: U32) {
    if x == 0xFFFF_FFFF then 0 else x + 1
  }

  function Truncate32(x: nat): (r: U32) {
    x % 0x1_0000_0000
  }

  /** How many bytes there are to read at `offset`; a reader beyond the end yields nothing. */
  function ReadLen(size: nat, offset: nat): (n: nat)
    ensures n <= PAYLOAD_SIZE
    ensures n > 0 <==> offset < size
    ensures n > 0 ==> offset + n <= size
    ensures 0 < n < PAYLOAD_SIZE ==> offset + n == size
  {
    if offset >= size then 0
    else if size - offset < PAYLOAD_SIZE then size - offset
    else PAYLOAD_SIZE
  }

  /** What xread returns, None is an error: an fread that breaks off is one only when it yields nothing. */
  function Xread(size: nat, isFile: bool, offset: nat, read: Fread): (r: Option<nat>)
    ensures r.None? <==> isFile && read.Broken? && (read.n == 0 || offset >= size)
    ensures r.Some? ==> r.value <= ReadLen(size, offset)
    ensures r.Some? && r.value < ReadLen(size, offset) ==> isFile && read == Broken(r.value)
    ensures r.Some? && isFile && read.Broken? ==> r.value <= read.n
  {
    var n := ReadLen(size, offset);
    if !isFile || read.Full? then Some(n)
    else if n == 0 || read.n == 0 then None
    else Some(Min(n, read.n))
  }

  /** A read that yields a message is accepted when the checks fail on magic or cookie, or the command is benign. */
  predicate Accepted(reply: Reply, msgCookie: Option<U32>) {
    || reply.magic != NB_MAGIC
    || (msgCookie.Some? && reply.cookie > msgCookie.value)
    || reply.cmd == NB_ACK
    || reply.cmd == NB_FILE_RECEIVED
  }

  function IoRcv(received: Option<Reply>, msgCookie: Option<U32>): (r: IoResult) {
    match received
    case None => IoResult(false, NO_REPLY, false)
    case Some(reply) => IoResult(Accepted(reply, msgCookie), reply, false)
  }

  /** The condition under which the host treats a reply as a negative acknowledgement. */
  predicate IsNack(ack: Reply) {
    ack.cookie > 0 && ack.cmd == NB_ACK
  }

  /** `msgCookie` is the cookie of the message to send, or None when there is nothing to send. */
  function IoCall(msgCookie: Option<U32>, waitReply: bool, e: Io): (r: IoResult) {
    if waitReply && msgCookie.None? then
      IoRcv(e.received, None)
    else if !e.selectOk then
      IoResult(false, NO_REPLY, false)
    else
      var first := if !waitReply && e.readable then IoRcv(e.received, msgCookie)
                   else IoResult(true, NO_REPLY, false);
      if !first.ok then first
      else
        var sends := msgCookie.Some? && e.writable && !IsNack(first.ack);
        if sends && !e.sendOk then IoResult(false, first.ack, false)
        else if !waitReply then first.(sent := sends)
        else IoRcv(e.received, msgCookie).(sent := sends)
  }

  /** How the loop body reacts to the acknowledgement buffer after `n` bytes were read. */
  function HandleAck(size: nat, isFile: bool, seekError: bool, s: Sender, n: nat, ack: Reply): (t: Sender) {
    if IsNack(ack) then
      if (if isFile then seekError else ack.arg > size) then
        s.(phase := Failed, currentPos := ack.arg)
      else
        s.(offset := ack.arg, currentPos := ack.arg, msgArg := ack.arg)
    else
      var t := s.(currentPos := s.currentPos + n, offset := s.offset + n,
                  msgArg := Truncate32(s.currentPos + n));
      if ack.cmd == NB_FILE_RECEIVED then t.(phase := Done) else t
  }

  /** The packet that one turn of the loop prepares. */
  function Packet(file: seq<Byte>, s: Sender, n: nat): (m: Message)
    requires s.offset + n <= |file|
  {
    Message(s.cookie,
            if s.currentPos + n >= |file| then NB_LAST_DATA else NB_DATA,
            s.msgArg,
            file[s.offset..s.offset + n])
  }

  /** One turn of the transfer loop, after `n` bytes were read. */
  function Exchange(file: seq<Byte>, isFile: bool, s: Sender, n: nat, e: Event): (o: Outcome)
    requires n > 0 ==> s.offset + n <= |file|
  {
    if n == 0 then
      var r := IoCall(None, true, e.io);
      if r.ok then Outcome(HandleAck(|file|, isFile, e.seekError, s, 0, r.ack), None)
      else Outcome(s.(phase := Failed), None)
    else
      var r := IoCall(Some(s.cookie), false, e.io);
      var s' := s.(cookie := Next32(s.cookie));
      if r.ok then
        Outcome(HandleAck(|file|, isFile, e.seekError, s', n, r.ack), if r.sent then Some(Packet(file, s, n)) else None)
      else
        Outcome(s'.(phase := Failed), None)
  }

  /** One turn of the transfer loop. */
  function Turn(file: seq<Byte>, isFile: bool, s: Sender, e: Event): (o: Outcome) {
    var read := Xread(|file|, isFile, s.offset, e.read);
    if read.None? then Outcome(s.(phase := Failed), None)
    else Exchange(file, isFile, s, read.value, e)
  }

  /** The turns for a whole script of events; nothing happens once the loop has ended. */
  ghost function Turns(file: seq<Byte>, isFile: bool, s: Sender, events: seq<Event>): (r: (Sender, seq<Message>))
    decreases |events|
  {
    if events == [] then (s, [])
    else
      var (t, sent) := Turns(file, isFile, s, events[..|events| - 1]);
      if t.phase != Running then (t, sent)
      else
        var o := Turn(file, isFile, t, events[|events| - 1]);
        (o.sender, if o.sent.Some? then sent + [o.sent.value] else sent)
  }

  /** At the head of the loop the reader, `current_pos` and `msg->arg` agree. */
  predicate Agrees(s: Sender) {
    s.offset == s.currentPos == s.msgArg
  }

  // ---------------------------------------------------------------------------------------------
  // One turn, against any reply
  // ---------------------------------------------------------------------------------------------

  /** A turn reads the socket when it has nothing to send, or when there is something to read. */
  predicate Listens(n: nat, e: Event) {
    n == 0 || e.io.readable
  }

  /** The turn reads an acknowledgement with a cookie, whatever its magic and however large the cookie. */
  predicate IsNacked(n: nat, e: Event) {
    Listens(n, e) && e.io.received.Some? && e.io.received.value.cookie > 0 && e.io.received.value.cmd == 0
  }

  /** The turn reads nothing, or an error that answers no later message than the one it is about to send. */
  predicate HearsError(n: nat, cookie: U32, e: Event) {
    && Listens(n, e)
    && (e.io.received.Some? ==>
          var ack := e.io.received.value;
          ack.magic == 0xAA774217 && (n > 0 ==> ack.cookie <= cookie) && ack.cmd != 0 && ack.cmd != 0x70000001)
  }

  /** The turn gets to write its packet. */
  predicate Writes(n: nat, e: Event) {
    n > 0 && e.io.writable && !IsNacked(n, e)
  }

  /** Exactly the turns that end the transfer with an error. */
  lemma TurnFailsExactly(file: seq<Byte>, isFile: bool, s: Sender, e: Event)
    requires s.phase == Running
    ensures var read := Xread(|file|, isFile, s.offset, e.read);
            Turn(file, isFile, s, e).sender.phase == Failed <==>
            || read.None?
            || (read.value > 0 && !e.io.selectOk)
            || HearsError(read.value, s.cookie, e)
            || (Writes(read.value, e) && !e.io.sendOk)
            || (IsNacked(read.value, e) && if isFile then e.seekError else e.io.received.value.arg > |file|)
  {
  }

  /** What every other turn sends, where it leaves the three positions, and when it is the last. */
  lemma TurnDoes(file: seq<Byte>, isFile: bool, s: Sender, e: Event)
    requires s.phase == Running && Turn(file, isFile, s, e).sender.phase != Failed
    ensures var n, t := Xread(|file|, isFile, s.offset, e.read).value, Turn(file, isFile, s, e).sender;
            && (Turn(file, isFile, s, e).sent.Some? <==> Writes(n, e))
            && t.offset == (if IsNacked(n, e) then e.io.received.value.arg else s.offset + n)
            && t.currentPos == (if IsNacked(n, e) then e.io.received.value.arg else s.currentPos + n)
            && t.cookie == (if n == 0 then s.cookie else if s.cookie == 0xFFFF_FFFF then 0 else s.cookie + 1)
            && (t.phase == Done <==> Listens(n, e) && e.io.received.value.cmd == 0x70000001)
  {
  }

  /** The states of the loop under a script, one after the other. */
  ghost predicate IsTrace(file: seq<Byte>, isFile: bool, events: seq<Event>, trace: seq<Sender>) {
    && |trace| == |events| + 1
    && forall i :: 0 <= i < |events| ==>
         trace[i + 1] == if trace[i].phase == Running then Turn(file, isFile, trace[i], events[i]).sender else trace[i]
  }

  /** Some running state of the trace sends `m`. */
  ghost predicate SentBy(file: seq<Byte>, isFile: bool, events: seq<Event>, trace: seq<Sender>, m: Message)
    requires |trace| >= |events|
  {
    exists i :: 0 <= i < |events| && trace[i].phase == Running && Turn(file, isFile, trace[i], events[i]).sent == Some(m)
  }

  lemma SentByLast(file: seq<Byte>, isFile: bool, events: seq<Event>, trace: seq<Sender>, m: Message)
    requires |trace| == |events| + 1 && events != []
    ensures var k := |events| - 1;
            SentBy(file, isFile, events, trace, m) <==>
            || SentBy(file, isFile, events[..k], trace[..k + 1], m)
            || (trace[k].phase == Running && Turn(file, isFile, trace[k], events[k]).sent == Some(m))
  {
    var k := |events| - 1;
    if SentBy(file, isFile, events[..k], trace[..k + 1], m) {
      var i :| 0 <= i < k && trace[..k + 1][i].phase == Running &&
               Turn(file, isFile, trace[..k + 1][i], events[..k][i]).sent == Some(m);
      assert trace[i].phase == Running && Turn(file, isFile, trace[i], events[i]).sent == Some(m);
    }
    if SentBy(file, isFile, events, trace, m) {
      var i :| 0 <= i < |events| && trace[i].phase == Running && Turn(file, isFile, trace[i], events[i]).sent == Some(m);
      if i < k {
        assert trace[..k + 1][i] == trace[i] && events[..k][i] == events[i];
      }
    }
  }

  lemma TracePrefix(file: seq<Byte>, isFile: bool, events: seq<Event>, trace: seq<Sender>)
    requires IsTrace(file, isFile, events, trace) && events != []
    ensures IsTrace(file, isFile, events[..|events| - 1], trace[..|events|])
  {
  }

  /** The loop ends in the last state of the trace, and has sent what the running states of the trace send. */
  lemma {:induction false} TurnsTrace(file: seq<Byte>, isFile: bool, events: seq<Event>, trace: seq<Sender>, m: Message)
    requires IsTrace(file, isFile, events, trace)
    ensures var (t, sent) := Turns(file, isFile, trace[0], events);
            t == trace[|events|] && (m in sent <==> SentBy(file, isFile, events, trace, m))
    decreases |events|
  {
    if events != [] {
      var k := |events| - 1;
      TracePrefix(file, isFile, events, trace);
      TurnsTrace(file, isFile, events[..k], trace[..k + 1], m);
      SentByLast(file, isFile, events, trace, m);
    }
  }

  /** The packet prepared at an agreeing state is a true slice of the file. */
  lemma PacketGood(file: seq<Byte>, s: Sender, n: nat)
    requires |file| < 0x1_0000_0000 && Agrees(s) && 0 < n <= ReadLen(|file|, s.offset)
    ensures GoodData(file, Packet(file, s, n))
  {
  }

  lemma HandleAckAgrees(size: nat, isFile: bool, seekError: bool, s: Sender, n: nat, ack: Reply)
    requires Agrees(s) && s.offset + n < 0x1_0000_0000
    ensures var t := HandleAck(size, isFile, seekError, s, n, ack); t.phase == Failed || Agrees(t)
  {
  }

  /** One turn, whatever it reads: the positions still agree, and what it sends is a true slice of the file. */
  lemma TurnAgrees(file: seq<Byte>, isFile: bool, s: Sender, e: Event)
    requires |file| < 0x1_0000_0000
    requires s.phase == Running && Agrees(s)
    ensures var o := Turn(file, isFile, s, e);
            && (o.sender.phase != Failed ==> Agrees(o.sender))
            && (o.sent.Some? ==> GoodData(file, o.sent.value) && o.sent.value.arg == s.offset)
  {
    var read := Xread(|file|, isFile, s.offset, e.read);
    if read == Some(0) {
      HandleAckAgrees(|file|, isFile, e.seekError, s, 0, IoCall(None, true, e.io).ack);
    } else if read.Some? {
      var n, s' := read.value, s.(cookie := Next32(s.cookie));
      PacketGood(file, s, n);
      HandleAckAgrees(|file|, isFile, e.seekError, s', n, IoCall(Some(s.cookie), false, e.io).ack);
    }
  }

  /**
   * Against any sequence of replies: while the loop runs (and when it ends with success) the three
   * positions agree, and every packet that was ever sent is a true slice of the file.
   */
  lemma {:induction false} TurnsAgree(file: seq<Byte>, isFile: bool, s: Sender, events: seq<Event>)
    requires |file| < 0x1_0000_0000
    requires s.phase == Running && Agrees(s)
    ensures var (t, sent) := Turns(file, isFile, s, events);
            && (t.phase != Failed ==> Agrees(t))
            && forall m :: m in sent ==> GoodData(file, m)
    decreases |events|
  {
    if events != [] {
      var init := events[..|events| - 1];
      TurnsAgree(file, isFile, s, init);
      var (t, sent) := Turns(file, isFile, s, init);
      if t.phase == Running {
        TurnAgrees(file, isFile, t, events[|events| - 1]);
      }
    }
  }

  /** Once the loop has ended, the rest of the script changes nothing. */
  lemma {:induction false} TurnsStop(file: seq<Byte>, isFile: bool, s: Sender, events: seq<Event>, i: nat)
    requires i <= |events|
    requires Turns(file, isFile, s, events[..i]).0.phase != Running || i == |events|
    ensures Turns(file, isFile, s, events) == Turns(file, isFile, s, events[..i])
    decreases |events| - i
  {
    if i == |events| {
      assert events[..i] == events;
    } else {
      assert events[..i + 1][..i] == events[..i];
      TurnsStop(file, isFile, s, events, i + 1);
    }
  }

  /** The xferdata structure: an in-memory buffer with `ptr` and `avail`, or an open file. */
  class XferData {
    const isFile: bool
    const data: seq<Byte>
    var ptr: nat
    var avail: nat
    var filePos: nat

    ghost predicate Valid()
      reads this
    {
      !isFile ==> ptr + avail == |data|
    }

    ghost function Offset(): (r: nat)
      reads this
    {
      if isFile then filePos else ptr
    }

    constructor (isFile: bool, data: seq<Byte>)
      ensures Valid() && Offset() == 0
      ensures this.isFile == isFile && this.data == data
    {
      this.isFile := isFile;
      this.data := data;
      ptr, avail, filePos := 0, |data|, 0;
    }

    /** Reads the next PAYLOAD_SIZE bytes, or what is left, or less when fread breaks off. */
    method XRead(read: Fread) returns (r: Option<seq<Byte>>)
      requires Valid()
      modifies this
      ensures Valid()
      ensures r.None? ==> Xread(|data|, isFile, old(Offset()), read) == None && Offset() == old(Offset())
      ensures r.Some? ==>
                && Xread(|data|, isFile, old(Offset()), read) == Some(|r.value|)
                && Offset() == old(Offset()) + |r.value|
                && (r.value != [] ==> r.value == data[old(Offset())..Offset()])
    {
      if !isFile {
        var n := if PAYLOAD_SIZE > avail then avail else PAYLOAD_SIZE;
        r := Some(data[ptr..ptr + n]);
        avail := avail - n;
        ptr := ptr + n;
      } else {
        var n := if filePos >= |data| then 0 else Min(PAYLOAD_SIZE, |data| - filePos);
        if read.Broken? {
          n := Min(n, read.n);
        }
        if n == 0 {
          return if read.Broken? then None else Some([]);
        }
        r := Some(data[filePos..filePos + n]);
        filePos := filePos + n;
      }
    }

    method XSeek(off: nat, seekError: bool) returns (ok: bool)
      requires Valid()
      modifies this
      ensures Valid()
      ensures ok <==> if isFile then !seekError else off <= |data|
      ensures Offset() == if ok then off else old(Offset())
    {
      if !isFile {
        if off > |data| {
          return false;
        }
        ptr := off;
        avail := |data| - off;
      } else {
        if seekError {
          return false;
        }
        filePos := off;
      }
      ok := true;
    }
  }

  /** What the body does with the acknowledgement buffer, after `n` bytes were read. */
  method ReactTo(
    xd: XferData, phase: Phase, currentPos: nat, msgArg: U32, ghost cookie: U32, n: nat, ack: Reply, seekError: bool)
    returns (phase': Phase, currentPos': nat, msgArg': U32)
    requires xd.Valid() && n <= xd.Offset()
    modifies xd
    ensures xd.Valid()
    ensures var s := Sender(phase, old(xd.Offset()) - n, currentPos, msgArg, cookie);
            var t := HandleAck(|xd.data|, xd.isFile, seekError, s, n, ack);
            && phase' == t.phase && currentPos' == t.currentPos
            && (phase' != Failed ==> msgArg' == t.msgArg && xd.Offset() == t.offset)
  {
    phase', currentPos', msgArg' := phase, currentPos, msgArg;
    if IsNack(ack) {
      currentPos' := ack.arg;
      var ok := xd.XSeek(currentPos', seekError);
      if !ok {
        phase' := Failed;
        return;
      }
    } else {
      currentPos' := currentPos + n;
      if ack.cmd == NB_FILE_RECEIVED {
        phase' := Done;
      }
    }
    msgArg' := Truncate32(currentPos');
  }

  /** The body of the transfer loop after the read, on the variables of netboot_xfer. */
  method SendAndReact(
    xd: XferData, data: seq<Byte>, phase: Phase, currentPos: nat, msgArg: U32, cookie: U32, e: Event)
    returns (phase': Phase, currentPos': nat, msgArg': U32, cookie': U32, sent: Option<Message>)
    requires xd.Valid() && |data| <= xd.Offset()
    requires data != [] ==> xd.Offset() <= |xd.data| && data == xd.data[xd.Offset() - |data|..xd.Offset()]
    modifies xd
    ensures xd.Valid()
    ensures var s := Sender(phase, old(xd.Offset()) - |data|, currentPos, msgArg, cookie);
            var o := Exchange(xd.data, xd.isFile, s, |data|, e);
            && sent == o.sent
            && phase' == o.sender.phase && currentPos' == o.sender.currentPos && cookie' == o.sender.cookie
            && (phase' != Failed ==> msgArg' == o.sender.msgArg && xd.Offset() == o.sender.offset)
  {
    phase', currentPos', msgArg', cookie', sent := phase, currentPos, msgArg, cookie, None;
    var n := |data|;
    var r;
    if n == 0 {
      r := IoCall(None, true, e.io);
    } else {
      var cmd := if currentPos + n >= |xd.data| then NB_LAST_DATA else NB_DATA;
      var m := Message(cookie, cmd, msgArg, data);
      cookie' := Next32(cookie);
      r := IoCall(Some(m.cookie), false, e.io);
      if r.ok && r.sent {
        sent := Some(m);
      }
    }
    if !r.ok {
      phase' := Failed;
      return;
    }
    phase', currentPos', msgArg' := ReactTo(xd, phase, currentPos, msgArg, cookie', n, r.ack, e.seekError);
  }

  /** The body of the transfer loop. */
  method OneTurn(xd: XferData, phase: Phase, currentPos: nat, msgArg: U32, cookie: U32, e: Event)
    returns (phase': Phase, currentPos': nat, msgArg': U32, cookie': U32, sent: Option<Message>)
    requires xd.Valid()
    modifies xd
    ensures xd.Valid()
    ensures var o := Turn(xd.data, xd.isFile, Sender(phase, old(xd.Offset()), currentPos, msgArg, cookie), e);
            && sent == o.sent
            && phase' == o.sender.phase && currentPos' == o.sender.currentPos && cookie' == o.sender.cookie
            && (phase' != Failed ==> msgArg' == o.sender.msgArg && xd.Offset() == o.sender.offset)
  {
    phase', currentPos', msgArg', cookie', sent := phase, currentPos, msgArg, cookie, None;
    var data := xd.XRead(e.read);
    if data.None? {
      phase' := Failed;
      return;
    }
    phase', currentPos', msgArg', cookie', sent :=
      SendAndReact(xd, data.value, phase, currentPos, msgArg, cookie, e);
  }

  /**
   * The transfer loop of netboot_xfer, run against a script of events. The loop of the source has no
   * bound of its own; a result in phase Running is a transfer that is still going when the script ends.
   */
  method TransferLoop(isFile: bool, file: seq<Byte>, firstCookie: U32, events: seq<Event>)
    returns (phase: Phase, sent: seq<Message>, currentPos: nat, cookie: U32)
    requires |file| < 0x1_0000_0000
    ensures var (t, log) := Turns(file, isFile, Sender(Running, 0, 0, 0, firstCookie), events);
            phase == t.phase && sent == log && currentPos == t.currentPos && cookie == t.cookie
    ensures forall m :: m in sent ==> GoodData(file, m)
  {
    var xd := new XferData(isFile, file);
    ghost var s0 := Sender(Running, 0, 0, 0, firstCookie);
    var msgArg: U32 := 0;
    phase, sent, currentPos, cookie := Running, [], 0, firstCookie;
    var i := 0;
    while i < |events| && phase == Running
      invariant 0 <= i <= |events|
      invariant xd.Valid() && xd.data == file && xd.isFile == isFile
      invariant var (t, log) := Turns(file, isFile, s0, events[..i]);
                && phase == t.phase && sent == log && currentPos == t.currentPos && cookie == t.cookie
                && (phase != Failed ==> t.offset == xd.Offset() && t.msgArg == msgArg)
    {
      assert events[..i + 1][..i] == events[..i];
      var m;
      phase, currentPos, msgArg, cookie, m := OneTurn(xd, phase, currentPos, msgArg, cookie, events[i]);
      if m.Some? {
        sent := sent + [m.value];
      }
      i := i + 1;
    }
    TurnsStop(file, isFile, s0, events, i);
    TurnsAgree(file, isFile, s0, events);
  }
}
