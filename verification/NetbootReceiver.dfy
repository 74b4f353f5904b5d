/** The device side: the file-transfer part of the bootloader's packet handler. */
module NetbootReceiver {
  import opened Machine
  import opened NetbootWire

  /**
   * The static variables of the handler: the active file (its buffer and write offset) and the last
   * message handled together with the acknowledgement computed for it.
   */
  datatype Receiver = Receiver(
    active: bool, data: seq<Byte>, offset: nat,
    lastCookie: U32, lastCmd: U32, lastArg: U32, lastAckCmd: U32, lastAckArg: U32)

  datatype Handled = Handled(rx: Receiver, reply: Option<Reply>)

  const FRESH := Receiver(false, [], 0, 0, 0, 0, 0, 0)

  /** `m` repeats the header of the last handled message. */
  predicate Repeats(rx: Receiver, m: Message) {
    rx.lastCookie == m.cookie && rx.lastCmd == m.cmd && rx.lastArg == m.arg
  }

  function Remember(rx: Receiver, m: Message, ackCmd: U32, ackArg: U32): (r: Receiver) {
    rx.(lastCookie := m.cookie, lastCmd := m.cmd, lastArg := m.arg, lastAckCmd := ackCmd, lastAckArg := ackArg)
  }

  function Answer(rx: Receiver, m: Message, ackCmd: U32, ackArg: U32): (h: Handled) {
    Handled(Remember(rx, m, ackCmd, ackArg), Some(Reply(NB_MAGIC, m.cookie, ackCmd, ackArg)))
  }

  /** Writes `payload` into `data` at `offset`. */
  function Blit(data: seq<Byte>, offset: nat, payload: seq<Byte>): (r: seq<Byte>)
    requires offset + |payload| <= |data|
    ensures |r| == |data|
    ensures r[..offset + |payload|] == data[..offset] + payload
  {
    data[..offset] + payload + data[offset + |payload|..]
  }

  /** The handling of a data packet while a file is active. */
  function HandleData(rx: Receiver, m: Message): (h: Handled)
    requires rx.offset < 0x1_0000_0000
  {
    if m.arg != rx.offset then
      Answer(rx, m, NB_ACK, rx.offset)
    else if rx.offset + |m.payload| > |rx.data| then
      Answer(rx, m, NB_ERROR_TOO_LARGE, m.arg)
    else
      var rx' := rx.(data := Blit(rx.data, rx.offset, m.payload), offset := rx.offset + |m.payload|);
      if m.cmd == NB_LAST_DATA then Answer(rx', m, NB_FILE_RECEIVED, 0)
      else Handled(Remember(rx', m, NB_ACK, 0), None)
  }

  /** `accepts` is whether a buffer could be set up for the file of an NB_SEND_FILE message. */
  function Handle(rx: Receiver, m: Message, accepts: bool): (h: Handled)
    requires rx.offset < 0x1_0000_0000
  {
    if Repeats(rx, m) then
      Handled(rx, Some(Reply(NB_MAGIC, rx.lastCookie, rx.lastAckCmd, rx.lastAckArg)))
    else if m.cmd == NB_SEND_FILE then
      if m.payload == [] then Handled(rx, None)
      else if accepts then
        Answer(rx.(active := true, data := Zeros(m.arg), offset := 0), m, NB_ACK, m.arg)
      else
        Answer(rx.(active := false, data := [], offset := 0), m, NB_ERROR_BAD_FILE, 0)
    else if IsData(m) then
      if rx.active then HandleData(rx, m) else Handled(rx, None)
    else if m.cmd == NB_COMMAND && m.payload == [] then
      Handled(rx, None)
    else if m.cmd == NB_COMMAND || m.cmd == NB_BOOT || m.cmd == NB_REBOOT then
      Answer(rx, m, NB_ACK, 0)
    else
      Handled(Remember(rx, m, NB_ACK, 0), None)
  }

  /** What the device does besides answering. */
  datatype Action = Stay | Boot | Reboot

  /** Only a new NB_BOOT or NB_REBOOT acts, and only when the paver did not fail. */
  function ActionOn(rx: Receiver, m: Message, paverOk: bool): (a: Action) {
    if Repeats(rx, m) || !paverOk then Stay
    else if m.cmd == NB_BOOT then Boot
    else if m.cmd == NB_REBOOT then Reboot
    else Stay
  }

  /** A data packet, whatever it carries: the buffer, the answer and what is remembered. */
  lemma DataExactly(rx: Receiver, m: Message)
    requires rx.offset < 0x1_0000_0000 && IsData(m)
    ensures var h, n := HandleData(rx, m), |m.payload|;
            var fits := m.arg == rx.offset && rx.offset + n <= |rx.data|;
            && h.rx.active == rx.active && h.rx.offset == (if fits then rx.offset + n else rx.offset)
            && |h.rx.data| == |rx.data|
            && (forall k :: 0 <= k < |rx.data| ==>
                  h.rx.data[k] == if fits && rx.offset <= k < rx.offset + n then m.payload[k - rx.offset] else rx.data[k])
            && h.reply == (if fits && m.cmd == 3 then None
                           else if fits then Some(Reply(0xAA774217, m.cookie, 0x70000001, 0))
                           else if m.arg != rx.offset then Some(Reply(0xAA774217, m.cookie, 0, rx.offset))
                           else Some(Reply(0xAA774217, m.cookie, 0x80000003, m.arg)))
            && (h.rx.lastCookie, h.rx.lastCmd, h.rx.lastArg) == (m.cookie, m.cmd, m.arg)
  {
  }

  /** Every other message: what becomes of the file, and which answer it gets. */
  lemma OthersExactly(rx: Receiver, m: Message, accepts: bool)
    requires rx.offset < 0x1_0000_0000
    ensures var h := Handle(rx, m, accepts);
            if (rx.lastCookie, rx.lastCmd, rx.lastArg) == (m.cookie, m.cmd, m.arg) then
              h.rx == rx && h.reply == Some(Reply(0xAA774217, m.cookie, rx.lastAckCmd, rx.lastAckArg))
            else if m.cmd == 2 && m.payload != [] then
              && h.rx.active == accepts && h.rx.offset == 0 && h.rx.data == Zeros(if accepts then m.arg else 0)
              && h.reply == Some(Reply(0xAA774217, m.cookie, if accepts then 0 else 0x80000004, if accepts then m.arg else 0))
            else if m.cmd == 3 || m.cmd == 11 then
              h == if rx.active then HandleData(rx, m) else Handled(rx, None)
            else
              && (h.rx.active, h.rx.data, h.rx.offset) == (rx.active, rx.data, rx.offset)
              && h.reply == (if m.cmd == 4 || m.cmd == 12 || (m.cmd == 1 && m.payload != [])
                             then Some(Reply(0xAA774217, m.cookie, 0, 0)) else None)
  {
  }

  /** The device boots on a new NB_BOOT and reboots on a new NB_REBOOT, unless the paver failed. */
  lemma ActsExactly(rx: Receiver, m: Message, paverOk: bool)
    ensures var acts := paverOk && (rx.lastCookie, rx.lastCmd, rx.lastArg) != (m.cookie, m.cmd, m.arg);
            && (ActionOn(rx, m, paverOk) == Boot <==> acts && m.cmd == 4)
            && (ActionOn(rx, m, paverOk) == Reboot <==> acts && m.cmd == 12)
  {
  }

  class Bootloader {
    var active: bool
    var data: array<Byte>
    var offset: nat
    var lastCookie: U32
    var lastCmd: U32
    var lastArg: U32
    var lastAckCmd: U32
    var lastAckArg: U32

    ghost predicate Valid()
      reads this
    {
      offset <= data.Length < 0x1_0000_0000
    }

    ghost function View(): (r: Receiver)
      reads this, data
    {
      Receiver(active, data[..], offset, lastCookie, lastCmd, lastArg, lastAckCmd, lastAckArg)
    }

    constructor ()
      ensures Valid() && View() == FRESH && fresh(data)
    {
      data := new Byte[0];
      active, offset := false, 0;
      lastCookie, lastCmd, lastArg, lastAckCmd, lastAckArg := 0, 0, 0, 0, 0;
    }

    /** The data branch of the handler: a copy at the write offset, or an answer that names that offset. */
    method Append(m: Message) returns (ackCmd: U32, ackArg: U32, transmit: bool)
      requires Valid() && IsData(m)
      modifies this`offset, data
      ensures Valid()
      ensures var h := HandleData(old(View()), m);
              && h.rx == Remember(View(), m, ackCmd, ackArg)
              && h.reply == if transmit then Some(Reply(NB_MAGIC, m.cookie, ackCmd, ackArg)) else None
    {
      if m.arg != offset {
        return NB_ACK, offset, true;
      }
      if offset + |m.payload| > data.Length {
        return NB_ERROR_TOO_LARGE, m.arg, true;
      }
      ghost var was := data[..];
      var n := |m.payload|;
      forall i | 0 <= i < n {
        data[offset + i] := m.payload[i];
      }
      assert data[..] == Blit(was, offset, m.payload);
      offset := offset + n;
      if m.cmd == NB_LAST_DATA {
        return NB_FILE_RECEIVED, 0, true;
      }
      return NB_ACK, 0, false;
    }

    /** The file-opening branch of the handler. */
    method OpenFile(m: Message, accepts: bool) returns (ackCmd: U32, ackArg: U32)
      requires Valid()
      modifies this`active, this`offset, this`data
      ensures Valid() && fresh(data)
      ensures active == accepts && offset == 0 && data[..] == if accepts then Zeros(m.arg) else []
      ensures ackCmd == (if accepts then NB_ACK else NB_ERROR_BAD_FILE) && ackArg == if accepts then m.arg else 0
    {
      active := accepts;
      offset := 0;
      ackCmd, ackArg := NB_ACK, 0;
      if active {
        data := new Byte[m.arg](_ => 0);
        assert data[..] == Zeros(m.arg);
        ackArg := m.arg;
      } else {
        data := new Byte[0];
        ackCmd := NB_ERROR_BAD_FILE;
      }
    }

    /** A message that does not repeat the last one. */
    method HandleNew(m: Message, accepts: bool, paverOk: bool) returns (reply: Option<Reply>, action: Action)
      requires Valid() && !Repeats(View(), m)
      modifies this, data
      ensures Valid() && (fresh(data) || data == old(data))
      ensures Handled(View(), reply) == Handle(old(View()), m, accepts)
      ensures action == ActionOn(old(View()), m, paverOk)
    {
      reply, action := None, Stay;
      var ackCmd: U32, ackArg: U32, transmit := NB_ACK, 0, true;
      if m.cmd == NB_COMMAND {
        if |m.payload| == 0 {
          return;
        }
      } else if m.cmd == NB_SEND_FILE {
        if |m.payload| == 0 {
          return;
        }
        ackCmd, ackArg := OpenFile(m, accepts);
      } else if m.cmd == NB_DATA || m.cmd == NB_LAST_DATA {
        if !active {
          return;
        }
        ackCmd, ackArg, transmit := Append(m);
      } else if m.cmd == NB_BOOT || m.cmd == NB_REBOOT {
        if paverOk {
          action := if m.cmd == NB_BOOT then Boot else Reboot;
        }
      } else {
        transmit := false;
      }
      lastCookie, lastCmd, lastArg := m.cookie, m.cmd, m.arg;
      lastAckCmd, lastAckArg := ackCmd, ackArg;
      reply := if transmit then Some(Reply(NB_MAGIC, m.cookie, ackCmd, ackArg)) else None;
    }

    /** A datagram that is too short to hold a message comes as None. */
    method BootloaderRecv(port: nat, datagram: Option<Message>, accepts: bool, paverOk: bool)
      returns (reply: Option<Reply>, action: Action)
      requires Valid()
      modifies this, data
      ensures Valid() && (fresh(data) || data == old(data))
      ensures if port == NB_SERVER_PORT && datagram.Some? then
                && Handled(View(), reply) == Handle(old(View()), datagram.value, accepts)
                && action == ActionOn(old(View()), datagram.value, paverOk)
              else
                View() == old(View()) && reply == None && action == Stay
    {
      reply, action := None, Stay;
      if port != NB_SERVER_PORT || datagram.None? {
        return;
      }
      var m := datagram.value;
      if lastCookie == m.cookie && lastCmd == m.cmd && lastArg == m.arg {
        reply := Some(Reply(NB_MAGIC, lastCookie, lastAckCmd, lastAckArg));
      } else {
        reply, action := HandleNew(m, accepts, paverOk);
      }
    }
  }
}
