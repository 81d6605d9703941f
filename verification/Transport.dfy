/** fcd_io of lib/fcd_common.c on top of hid_write and hid_read of hidapi/hid-libusb.c, against a model of the
    dongle and of what can go wrong in one session with it. */
module Transport {
  import opened Bytes
  import opened ReadProtocol
  import opened ReportQueue

  const CMD_RESET_APPLICATION: Byte := 8
  const CMD_ERASE_APPLICATION: Byte := 24
  const CMD_SET_BYTE_ADDR: Byte := 25
  const CMD_GET_BYTE_ADDR_RANGE: Byte := 26
  const CMD_WRITE_BLOCK: Byte := 27
  const CMD_READ_BLOCK: Byte := 28
  const CMD_RESET_BOOTLOADER: Byte := 255

  const COMMAND_DATA_LEN := 63
  const RESPONSE_DATA_LEN := 62
  const BLOCK := 48

  // ---------------------------------------------------------------------------------------------
  // The dongle
  // ---------------------------------------------------------------------------------------------

  datatype Mode = Bootloader | Application

  /** mem is the flash, blank its contents after an erase, pointer the byte address of the next block command,
      [first, last) the range the bootloader reports. Packets outside the bootloader protocol are answered
      from answers, and bootloader commands only in the bootloader. */
  datatype Device = Device(mode: Mode, mem: seq<Byte>, blank: seq<Byte>, pointer: nat,
                           first: Word32, last: Word32, answers: map<seq<Byte>, seq<Byte>>)

  datatype Reply = Ack(data: seq<Byte>) | Nak

  /** The device executes a packet. The block commands advance the address, which the flasher relies on. */
  function Exec(d: Device, packet: seq<Byte>): (Device, Reply) {
    if packet == [] then (d, Nak)
    else if packet[0] == CMD_RESET_BOOTLOADER then (d.(mode := Bootloader), Ack([]))
    else if packet[0] == CMD_RESET_APPLICATION then (d.(mode := Application), Ack([]))
    else if packet[0] < CMD_ERASE_APPLICATION || packet[0] > CMD_READ_BLOCK then
      (d, if packet in d.answers then Ack(d.answers[packet]) else Nak)
    else if d.mode == Application then (d, Nak)
    else if packet[0] == CMD_ERASE_APPLICATION && |d.blank| == |d.mem| then (d.(mem := d.blank), Ack([]))
    else if packet[0] == CMD_SET_BYTE_ADDR && |packet| >= 5 then
      (d.(pointer := FromLe32(packet[1..5])), Ack([]))
    else if packet[0] == CMD_GET_BYTE_ADDR_RANGE then (d, Ack(Le32(d.first) + Le32(d.last)))
    else if packet[0] == CMD_WRITE_BLOCK && |packet| >= 2 + BLOCK && d.pointer + BLOCK <= |d.mem| then
      (d.(mem := d.mem[..d.pointer] + packet[2..2 + BLOCK] + d.mem[d.pointer + BLOCK..],
          pointer := d.pointer + BLOCK), Ack([]))
    else if packet[0] == CMD_READ_BLOCK && d.pointer + BLOCK <= |d.mem| then
      (d.(pointer := d.pointer + BLOCK), Ack(d.mem[d.pointer..d.pointer + BLOCK]))
    else (d, Nak)
  }

  /** data cut or padded with zeros to n bytes. */
  function Fill(data: seq<Byte>, n: nat): (r: seq<Byte>)
    ensures |r| == n
  {
    if |data| >= n then data[..n] else data + Zeros(n - |data|)
  }

  /** The 64-byte input report that carries a reply. */
  function ReportOf(command: Byte, reply: Reply): Report {
    match reply
    case Ack(data) => [command, 1] + Fill(data, RESPONSE_DATA_LEN)
    case Nak => [command, 0] + Zeros(RESPONSE_DATA_LEN)
  }

  // ---------------------------------------------------------------------------------------------
  // Sessions
  // ---------------------------------------------------------------------------------------------

  /** The input report a session sees: the device's own, cut after so many bytes; another one; or none. */
  datatype Arrival = Genuine(length: nat) | Other(report: Report) | Nothing

  /** One session between hid_open_path and hid_close. opens: the open succeeds. control: there is no interrupt
      OUT endpoint. sent: the bytes the transfer reports as sent, negative for an error. acts: the device
      executes the packet, which does not depend on what the host is told. lost: the device goes away and
      read_thread sets its flag; otherwise a device that sends nothing only makes transfers time out, which
      are submitted again. */
  datatype Session = Session(opens: bool, control: bool, sent: int, acts: bool, arrival: Arrival, lost: bool)

  const PERFECT := Session(true, false, 64, true, Genuine(64), false)

  /** The dongle takes the request, stays connected and never answers. */
  const SILENT := Session(true, false, 64, true, Nothing, false)

  /** faults: how the next sessions go; every session after them is perfect. */
  datatype World = World(dev: Device, faults: seq<Session>)

  function Next(w: World): Session {
    if w.faults == [] then PERFECT else w.faults[0]
  }

  function Rest(w: World): seq<Session> {
    if w.faults == [] then [] else w.faults[1..]
  }

  function Acted(s: Session, d: Device, packet: seq<Byte>): Device {
    if s.acts then Exec(d, packet).0 else d
  }

  predicate Acknowledges(r: Report, command: Byte) {
    |r| >= 2 && r[0] == command && r[1] == 1
  }

  /** No session forges an acknowledgement: a report that would be one and is not the device's does not
      arrive, and a device that did not act, or was sent nothing, does not reply. */
  predicate NothingArrives(s: Session, packet: seq<Byte>) {
    match s.arrival
    case Genuine(_) => !s.acts || packet == []
    case Other(r) => packet != [] && Acknowledges(r, packet[0])
    case Nothing => true
  }

  /** What arrives. */
  function Seen(s: Session, d: Device, packet: seq<Byte>): Option<Report> {
    if NothingArrives(s, packet) then None
    else match s.arrival
         case Genuine(n) => Some(ReportOf(packet[0], Exec(d, packet).1)[..Min(n, 64)])
         case Other(r) => Some(r)
  }

  /** The bytes of n that hid_write reports as written. A control transfer counts as complete if it succeeds. */
  function Written(s: Session, n: nat): int {
    if s.sent < 0 then -1 else if s.control then n else Min(s.sent, n)
  }

  /** An exchange never returns: the request was reported as sent in full, so that hid_read is called, and it
      waits for a report that does not arrive on a device that stays connected. */
  predicate Hangs(s: Session, packet: seq<Byte>) {
    s.opens && Written(s, |packet|) >= |packet| && NothingArrives(s, packet) && !s.lost
  }

  // ---------------------------------------------------------------------------------------------
  // Specification of fcd_io
  // ---------------------------------------------------------------------------------------------

  /** The bytes on the wire: the command, the skipped bytes as zeros, and as much input as fits. */
  function Packet(command: Byte, skip: nat, data: seq<Byte>): (p: seq<Byte>)
    requires skip <= COMMAND_DATA_LEN
    ensures 1 <= |p| <= 1 + COMMAND_DATA_LEN
  {
    [command] + Zeros(skip) + data[..Min(|data|, COMMAND_DATA_LEN - skip)]
  }

  datatype Errno = NoError | EFAULT | ENODEV | EIO | EOVERFLOW

  /** hung: the call is still waiting in hid_read. result and errno are then what it would return if that wait
      came to nothing, and world is where it waits. */
  datatype IoResult = IoResult(result: int, errno: Errno, out: seq<Byte>, world: World, hung: bool)

  /** The request was sent in full and executed, and enough of the device's acknowledgement arrived. */
  predicate Acknowledged(s: Session, d: Device, packet: seq<Byte>, olen: nat) {
    && Written(s, |packet|) >= |packet| && s.acts && Exec(d, packet).1.Ack?
    && s.arrival.Genuine? && s.arrival.length >= olen + 2
  }

  /** One exchange. olen is already trimmed to what a response holds. */
  function Io(w: World, command: Byte, skip: nat, data: seq<Byte>, olen: nat): IoResult
    requires skip <= COMMAND_DATA_LEN && olen <= RESPONSE_DATA_LEN
  {
    var s, packet := Next(w), Packet(command, skip, data);
    if !s.opens then IoResult(-1, ENODEV, [], World(w.dev, Rest(w)), false)
    else
      var after := World(Acted(s, w.dev, packet), Rest(w));
      if Acknowledged(s, w.dev, packet, olen)
      then IoResult(0, NoError, Fill(Exec(w.dev, packet).1.data, olen), after, false)
      else IoResult(-1, EIO, [], after, Hangs(s, packet))
  }

  /** What the host checks: every byte sent, a report that is long enough and carries the command and status 1. */
  predicate Validated(written: int, seen: Option<Report>, packet: seq<Byte>, olen: nat) {
    && packet != [] && written >= |packet|
    && seen.Some? && |seen.value| >= olen + 2 && Acknowledges(seen.value, packet[0])
  }

  /** On the wire the host's check passes exactly if the device acknowledged, and what it then takes from the
      report is the start of the device's data. */
  lemma WireMeaning(s: Session, d: Device, packet: seq<Byte>, olen: nat)
    requires packet != [] && olen <= RESPONSE_DATA_LEN
    ensures var seen := Seen(s, d, packet);
            && (Validated(Written(s, |packet|), seen, packet, olen) <==> Acknowledged(s, d, packet, olen))
            && (Validated(Written(s, |packet|), seen, packet, olen) ==>
                  seen.value[2..2 + olen] == Fill(Exec(d, packet).1.data, olen))
  {
    var seen := Seen(s, d, packet);
    if seen.Some? && s.arrival.Genuine? {
      var reply := Exec(d, packet).1;
      var full := ReportOf(packet[0], reply);
      assert seen.value == full[..Min(s.arrival.length, 64)];
      if reply.Ack? && |seen.value| >= olen + 2 {
        assert seen.value[2..2 + olen] == full[2..2 + olen] == Fill(reply.data, RESPONSE_DATA_LEN)[..olen];
      }
    }
  }

  /** The whole meaning of an exchange, on the bytes of the first report that arrives. It succeeds exactly if
      the session opens, the request was reported as sent in full, and the report is long enough and starts with
      the command and a 1; the output then is what follows. errno is ENODEV exactly if the session does not open,
      EIO for every other failure. */
  lemma IoMeaning(w: World, command: Byte, skip: nat, data: seq<Byte>, olen: nat)
    requires skip <= COMMAND_DATA_LEN && olen <= RESPONSE_DATA_LEN
    ensures var io, s, packet := Io(w, command, skip, data, olen), Next(w), Packet(command, skip, data);
            var seen := Seen(s, w.dev, packet);
            var sent := s.sent >= |packet| || (s.control && s.sent >= 0);
            && (io.result == 0 <==> s.opens && sent && seen.Some? && |seen.value| >= olen + 2
                                    && seen.value[0] == command && seen.value[1] == 1)
            && (io.result == 0 ==> io.errno == NoError && io.out == seen.value[2..2 + olen])
            && (io.result != 0 ==> io.result == -1 && io.out == [])
            && (io.errno == ENODEV <==> !s.opens)
            && (io.errno == EIO <==> s.opens && io.result != 0)
            && (io.hung <==> s.opens && sent && seen == None && !s.lost)
            && io.world.faults == Rest(w)
            && io.world.dev == if s.opens && s.acts then Exec(w.dev, packet).0 else w.dev
  {
    WireMeaning(Next(w), w.dev, Packet(command, skip, data), olen);
  }

  /** The bytes of a request: the command, then zeros for the skipped ones, then the data that fits. */
  lemma PacketLayout(command: Byte, skip: nat, data: seq<Byte>)
    requires skip <= COMMAND_DATA_LEN
    ensures var packet := Packet(command, skip, data);
            && |packet| == Min(1 + skip + |data|, 64) && packet[0] == command
            && (forall i :: 0 < i <= skip ==> packet[i] == 0)
            && forall i :: skip < i < |packet| ==> packet[i] == data[i - skip - 1]
  {
  }

  /** A report of another command, or one with another status, that comes first makes the exchange fail,
      whatever follows it. */
  lemma OtherReportFails(w: World, command: Byte, skip: nat, data: seq<Byte>, olen: nat)
    requires skip <= COMMAND_DATA_LEN && olen <= RESPONSE_DATA_LEN
    requires Next(w).opens && Next(w).arrival.Other?
    requires var r := Next(w).arrival.report; |r| < 2 || r[0] != command || r[1] != 1
    ensures var io := Io(w, command, skip, data, olen); io.result == -1 && io.errno == EIO && !io.hung
  {
  }

  /** Success is proof: the transfer reported every byte sent, the device executed exactly this packet and
      acknowledged it, and the output is the start of its data. */
  lemma IoSound(w: World, command: Byte, skip: nat, data: seq<Byte>, olen: nat)
    requires skip <= COMMAND_DATA_LEN && olen <= RESPONSE_DATA_LEN
    ensures var io := Io(w, command, skip, data, olen);
            var (dev, reply) := Exec(w.dev, Packet(command, skip, data));
            io.result == 0 ==>
              && !io.hung && Next(w).opens
              && Written(Next(w), |Packet(command, skip, data)|) >= |Packet(command, skip, data)|
              && reply.Ack? && io.world == World(dev, Rest(w)) && io.out == Fill(reply.data, olen)
  {
  }

  /** Failure, or a wait without end, leaves the device as it was, or having executed the packet once. */
  lemma IoFailure(w: World, command: Byte, skip: nat, data: seq<Byte>, olen: nat)
    requires skip <= COMMAND_DATA_LEN && olen <= RESPONSE_DATA_LEN
    ensures var io := Io(w, command, skip, data, olen);
            && io.world.faults == Rest(w)
            && (io.world.dev == w.dev || io.world.dev == Exec(w.dev, Packet(command, skip, data)).0)
  {
  }

  /** Without faults an exchange succeeds exactly when the device acknowledges. */
  lemma IoComplete(w: World, command: Byte, skip: nat, data: seq<Byte>, olen: nat)
    requires skip <= COMMAND_DATA_LEN && olen <= RESPONSE_DATA_LEN && w.faults == []
    ensures var io := Io(w, command, skip, data, olen);
            var (dev, reply) := Exec(w.dev, Packet(command, skip, data));
            io.world == World(dev, []) && !io.hung && (io.result == 0 <==> reply.Ack?)
  {
  }

  // ---------------------------------------------------------------------------------------------
  // Exchanges that never return
  // ---------------------------------------------------------------------------------------------

  /** What a session is like on which some exchange hangs: it opens and reports bytes as sent, the device stays
      connected, and what it sends is nothing, a reply without having acted, or a forged acknowledgement. */
  predicate CanHang(s: Session) {
    && s.opens && s.sent >= (if s.control then 0 else 1) && !s.lost
    && match s.arrival
       case Genuine(_) => !s.acts
       case Other(r) => |r| >= 2 && r[1] == 1
       case Nothing => true
  }

  lemma CanHangExactly(s: Session)
    ensures CanHang(s) <==> exists command: Byte :: Hangs(s, [command])
    ensures forall packet: seq<Byte> | packet != [] && Hangs(s, packet) :: CanHang(s)
  {
    if CanHang(s) {
      var command := if s.arrival.Other? then s.arrival.report[0] else 0;
      assert Hangs(s, [command]);
    }
  }

  /** The dongle has no such session ahead of it. */
  predicate Steady(w: World) {
    forall s <- w.faults :: !CanHang(s)
  }

  lemma IoSteady(w: World, command: Byte, skip: nat, data: seq<Byte>, olen: nat)
    requires skip <= COMMAND_DATA_LEN && olen <= RESPONSE_DATA_LEN && Steady(w)
    ensures var io := Io(w, command, skip, data, olen); !io.hung && Steady(io.world)
  {
    CanHangExactly(Next(w));
    if w.faults != [] {
      assert w.faults[0] in w.faults;
    }
  }

  /** A dongle that takes any request and stays silent keeps the caller for ever. */
  lemma SilenceHangs(d: Device, more: seq<Session>, command: Byte, skip: nat, data: seq<Byte>, olen: nat)
    requires skip <= COMMAND_DATA_LEN && olen <= RESPONSE_DATA_LEN
    ensures Io(World(d, [SILENT] + more), command, skip, data, olen).hung
  {
  }

  // ---------------------------------------------------------------------------------------------
  // The code
  // ---------------------------------------------------------------------------------------------

  /** The dongle as the library reaches it. offered: the packets handed to the interrupt endpoint, in order;
      handles: the handles open on it. */
  class Dongle {
    var dev: Device
    var faults: seq<Session>
    ghost var offered: seq<seq<Byte>>
    ghost var handles: int

    constructor (dev: Device, faults: seq<Session>)
      ensures this.dev == dev && this.faults == faults && offered == [] && handles == 0
    {
      this.dev, this.faults, offered, handles := dev, faults, [], 0;
    }

    function Now(): World
      reads this
    {
      World(dev, faults)
    }
  }

  /** An open handle: the session it lives in and its queue of input reports. */
  class Handle {
    const dongle: Dongle
    const session: Session
    const hid: HidDevice

    constructor (dongle: Dongle, session: Session, hid: HidDevice)
      ensures this.dongle == dongle && this.session == session && this.hid == hid
    {
      this.dongle, this.session, this.hid := dongle, session, hid;
    }
  }

  method HidOpenPath(dongle: Dongle) returns (h: Handle?)
    modifies dongle`faults, dongle`handles
    ensures dongle.faults == Rest(old(dongle.Now()))
    ensures dongle.handles == old(dongle.handles) + if h == null then 0 else 1
    ensures h == null <==> !Next(old(dongle.Now())).opens
    ensures h != null ==> fresh(h) && h.dongle == dongle && h.session == Next(old(dongle.Now()))
    ensures h != null ==> fresh(h.hid) && h.hid.platform == Libusb && h.hid.Valid()
                          && h.hid.repr == {} && h.hid.contents == [] && !h.hid.stop
  {
    var session := Next(dongle.Now());
    dongle.faults := Rest(dongle.Now());
    h := null;
    if session.opens {
      var hid := new HidDevice(Libusb);
      h := new Handle(dongle, session, hid);
      dongle.handles := dongle.handles + 1;
    }
  }

  /** libusb's transfer to the device, and the input report or disconnection it leads to. */
  method TransferOut(h: Handle, bytes: seq<Byte>) returns (res: int)
    requires h.hid.Valid()
    modifies h.dongle`dev, h.dongle`offered, h.hid, h.hid.repr
    ensures h.dongle.dev == Acted(h.session, old(h.dongle.dev), bytes)
    ensures h.dongle.offered == old(h.dongle.offered) + [bytes]
    ensures res == if h.session.sent < 0 then h.session.sent else Min(h.session.sent, |bytes|)
    ensures h.hid.Valid() && fresh(h.hid.repr - old(h.hid.repr))
    ensures h.hid.stop == (old(h.hid.stop) || h.session.lost)
    ensures match Seen(h.session, old(h.dongle.dev), bytes)
            case Some(r) => h.hid.contents == Push(old(h.hid.contents), r)
            case None => h.hid.contents == old(h.hid.contents)
  {
    var seen := Seen(h.session, h.dongle.dev, bytes);
    h.dongle.dev := Acted(h.session, h.dongle.dev, bytes);
    h.dongle.offered := h.dongle.offered + [bytes];
    if seen.Some? {
      var _ := h.hid.ReceiveReport(seen.value);
    }
    if h.session.lost {
      h.hid.stop := true;
    }
    res := if h.session.sent < 0 then h.session.sent else Min(h.session.sent, |bytes|);
  }

  /** hid_write: a zero report number is not sent, but counted. On the control endpoint the count is that of
      the request, on the interrupt endpoint that of the transfer. */
  method HidWrite(h: Handle, data: array<Byte>, length: nat) returns (res: int)
    requires 1 <= length <= data.Length && h.hid.Valid()
    modifies h.dongle`dev, h.dongle`offered, h.hid, h.hid.repr
    ensures var bytes := old(data[if data[0] == 0 then 1 else 0..length]);
            && h.dongle.dev == Acted(h.session, old(h.dongle.dev), bytes)
            && h.dongle.offered == old(h.dongle.offered) + [bytes]
            && (match Seen(h.session, old(h.dongle.dev), bytes)
                case Some(r) => h.hid.contents == Push(old(h.hid.contents), r)
                case None => h.hid.contents == old(h.hid.contents))
            && (res == if h.session.sent < 0 then -1
                       else if h.session.control then length
                       else Min(h.session.sent, |bytes|) + if old(data[0]) == 0 then 1 else 0)
            && (res >= length <==> Written(h.session, |bytes|) >= |bytes|)
    ensures h.hid.Valid() && fresh(h.hid.repr - old(h.hid.repr))
    ensures h.hid.stop == (old(h.hid.stop) || h.session.lost)
  {
    var reportNumber := data[0];
    var bytes := data[..length];
    var count := length;
    var skippedReportId := false;
    if reportNumber == 0 {
      bytes := bytes[1..];
      count := count - 1;
      skippedReportId := true;
    }
    assert bytes == data[if data[0] == 0 then 1 else 0..length];
    var r := TransferOut(h, bytes);
    if r < 0 {
      return -1;
    }
    if !h.session.control {
      count := r;
    }
    return if skippedReportId then count + 1 else count;
  }

  /** hid_close, as far as the queue goes: the flag is set, read_thread has ended, the queue is drained. */
  method HidClose(h: Handle)
    requires h.hid.Valid()
    modifies h.hid, h.dongle`handles
    ensures h.hid.Valid() && h.hid.stop && h.hid.inputReports == null && h.hid.freed == h.hid.created
    ensures h.dongle.handles == old(h.dongle.handles) - 1
  {
    h.dongle.handles := h.dongle.handles - 1;
    h.hid.stop := true;
    h.hid.Drain();
  }

  /** The exchange in an open session: request sent in full, response read, response validated. The response
      overlays the request in the buffer. hung: hid_read has not returned. */
  method Exchange(h: Handle, buffer: array<Byte>, requestLength: nat, responseLength: nat, command: Byte)
    returns (valid: bool, hung: bool)
    requires 2 <= requestLength <= buffer.Length && 2 <= responseLength <= buffer.Length
    requires buffer[0] == 0 && buffer[1] == command && h.session.opens
    requires h.hid.Valid() && h.hid.contents == [] && !h.hid.stop && h.hid.platform == Libusb
    modifies h.dongle`dev, h.dongle`offered, h.hid, h.hid.repr, buffer
    ensures h.hid.Valid() && fresh(h.hid.repr - old(h.hid.repr))
    ensures var packet := old(buffer[1..requestLength]);
            var seen := Seen(h.session, old(h.dongle.dev), packet);
            && h.dongle.dev == Acted(h.session, old(h.dongle.dev), packet)
            && h.dongle.offered == old(h.dongle.offered) + [packet]
            && (hung <==> Hangs(h.session, packet))
            && (valid <==> Validated(Written(h.session, |packet|), seen, packet, responseLength - 2))
            && (valid ==> buffer[2..responseLength] == seen.value[2..responseLength])
  {
    valid, hung := false, false;
    var written := HidWrite(h, buffer, requestLength);
    if written >= requestLength {
      var read;
      read, hung := h.hid.ReadTimeoutLibusb(buffer, responseLength, -1, []);
      if !hung && read >= responseLength {
        valid := buffer[0] == command && buffer[1] == 1;
        assert buffer[2..responseLength] == buffer[..][2..responseLength];
      }
    }
  }

  /** fcd_io between the open and its return. */
  method InSession(h: Handle, command: Byte, iskip: Byte, input: seq<Byte>, odata: array?<Byte>, olen: nat)
    returns (result: int, errno: Errno, hung: bool)
    requires iskip + |input| <= COMMAND_DATA_LEN && olen <= RESPONSE_DATA_LEN
    requires if odata == null then olen == 0 else olen <= odata.Length
    requires h.hid.Valid() && h.hid.contents == [] && !h.hid.stop && h.hid.platform == Libusb && h.session.opens
    modifies h.dongle`dev, h.dongle`offered, h.dongle`handles, h.hid, h.hid.repr, odata
    ensures var io := Io(World(old(h.dongle.dev), [h.session]), command, iskip, input, olen);
            && result == io.result && errno == io.errno && hung == io.hung && h.dongle.dev == io.world.dev
            && (odata != null ==>
                  odata[..] == if result == 0 then io.out + old(odata[..])[olen..] else old(odata[..]))
    ensures h.dongle.offered == old(h.dongle.offered) + [Packet(command, iskip, input)]
    ensures h.dongle.handles == old(h.dongle.handles) - if hung then 0 else 1
  {
    var buffer := FillCommand(command, iskip, input);
    assert input[..Min(|input|, COMMAND_DATA_LEN - iskip)] == input;
    WireMeaning(h.session, h.dongle.dev, Packet(command, iskip, input), olen);
    var valid;
    valid, hung := Exchange(h, buffer, |input| + 2 + iskip, olen + 2, command);
    if hung {
      return -1, EIO, true;
    }
    CopyOut(valid, buffer[2..2 + olen], odata);
    HidClose(h);
    return if valid then 0 else -1, if valid then NoError else EIO, false;
  }

  /** The payload goes to the caller only after validation. */
  method CopyOut(valid: bool, payload: seq<Byte>, odata: array?<Byte>)
    requires if odata == null then payload == [] else |payload| <= odata.Length
    modifies odata
    ensures odata != null ==>
              odata[..] == if valid then payload + old(odata[..])[|payload|..] else old(odata[..])
  {
    if valid && odata != null {
      Memcpy(odata, payload, |payload|);
      assert payload[..|payload|] == payload;
    }
  }

  /** fcd_io from the open on, with trimmed lengths. */
  method Trimmed(dongle: Dongle, command: Byte, iskip: Byte, input: seq<Byte>, odata: array?<Byte>, olen: nat)
    returns (result: int, errno: Errno, hung: bool)
    requires iskip + |input| <= COMMAND_DATA_LEN && olen <= RESPONSE_DATA_LEN
    requires if odata == null then olen == 0 else olen <= odata.Length
    modifies dongle, odata
    ensures var io := Io(old(dongle.Now()), command, iskip, input, olen);
            && result == io.result && errno == io.errno && hung == io.hung && dongle.Now() == io.world
            && (odata != null ==>
                  odata[..] == if result == 0 then io.out + old(odata[..])[olen..] else old(odata[..]))
    ensures dongle.offered == old(dongle.offered)
                              + if Next(old(dongle.Now())).opens then [Packet(command, iskip, input)] else []
    ensures dongle.handles == old(dongle.handles) + if hung then 1 else 0
  {
    var h := HidOpenPath(dongle);
    if h == null {
      return -1, ENODEV, false;
    }
    result, errno, hung := InSession(h, command, iskip, input, odata, olen);
  }

  /** A non-trivial transfer through a NULL pointer, or a NULL device. */
  predicate Faulty(dongle: Dongle?, idata: Option<seq<Byte>>, ilen: Byte, odata: array?<Byte>, olen: Byte) {
    dongle == null || (ilen > 0 && idata.None?) || (olen > 0 && odata == null)
  }

  function Input(idata: Option<seq<Byte>>, ilen: Byte): seq<Byte>
    requires idata.Some? ==> |idata.value| >= ilen
  {
    if idata.Some? then idata.value[..ilen] else []
  }

  /** fcd_io. hung: the call has not returned, and its handle is still open. A None input or a null output stands
      for a NULL pointer. The skipped bytes have to fit the data field, or the memset would leave it. */
  method FcdIo(dongle: Dongle?, command: Byte, iskip: Byte, idata: Option<seq<Byte>>, ilen: Byte,
               odata: array?<Byte>, olen: Byte) returns (result: int, errno: Errno, hung: bool)
    requires iskip <= COMMAND_DATA_LEN
    requires idata.Some? ==> |idata.value| >= ilen
    requires odata != null ==> odata.Length >= Min(olen, RESPONSE_DATA_LEN)
    modifies dongle, odata
    ensures errno == EFAULT <==> dongle == null || (ilen > 0 && idata.None?) || (olen > 0 && odata == null)
    ensures Faulty(dongle, idata, ilen, odata, olen) ==>
              result == -1 && errno == EFAULT && !hung && (dongle != null ==> unchanged(dongle)) &&
              (odata != null ==> odata[..] == old(odata[..]))
    ensures !Faulty(dongle, idata, ilen, odata, olen) ==>
              var n := Min(olen, RESPONSE_DATA_LEN);
              var io := Io(old(dongle.Now()), command, iskip, Input(idata, ilen), n);
              && result == io.result && errno == io.errno && hung == io.hung && dongle.Now() == io.world
              && (odata != null ==>
                    odata[..] == if result == 0 then io.out + old(odata[..])[n..] else old(odata[..]))
    ensures !Faulty(dongle, idata, ilen, odata, olen) ==>
              var sent := if Next(old(dongle.Now())).opens then [Packet(command, iskip, Input(idata, ilen))] else [];
              dongle.offered == old(dongle.offered) + sent
    ensures dongle != null ==> dongle.handles == old(dongle.handles) + if hung then 1 else 0
  {
    if dongle == null {
      return -1, EFAULT, false;
    }
    if (ilen > 0 && idata.None?) || (olen > 0 && odata == null) {
      return -1, EFAULT, false;
    }
    var ilen', olen': nat := ilen, olen;
    if ilen > COMMAND_DATA_LEN - iskip {
      ilen' := COMMAND_DATA_LEN - iskip;
    }
    if olen > RESPONSE_DATA_LEN {
      olen' := RESPONSE_DATA_LEN;
    }
    var input := if idata.Some? then idata.value[..ilen'] else [];
    TrimOnce(command, iskip, Input(idata, ilen), input);
    result, errno, hung := Trimmed(dongle, command, iskip, input, odata, olen');
  }

  /** Trimming before the packet is built or while it is built makes no difference. */
  lemma TrimOnce(command: Byte, iskip: Byte, long: seq<Byte>, short: seq<Byte>)
    requires iskip <= COMMAND_DATA_LEN && short == long[..Min(|long|, COMMAND_DATA_LEN - iskip)]
    ensures Packet(command, iskip, short) == Packet(command, iskip, long)
    ensures forall w: World, olen: nat | olen <= RESPONSE_DATA_LEN ::
              Io(w, command, iskip, short, olen) == Io(w, command, iskip, long, olen)
  {
    assert short[..Min(|short|, COMMAND_DATA_LEN - iskip)] == short;
  }

  /** The command side of the 65-byte buffer: report number 0, command, skipped bytes, input. */
  method FillCommand(command: Byte, iskip: Byte, input: seq<Byte>) returns (buffer: array<Byte>)
    requires iskip + |input| <= COMMAND_DATA_LEN
    ensures fresh(buffer) && buffer.Length == 65 && buffer[0] == 0
    ensures buffer[1..2 + iskip + |input|] == Packet(command, iskip, input)
  {
    buffer := new Byte[2 + COMMAND_DATA_LEN];
    buffer[0] := 0;
    buffer[1] := command;
    forall i | 0 <= i < iskip {
      buffer[2 + i] := 0;
    }
    forall i | 0 <= i < |input| {
      buffer[2 + iskip + i] := input[i];
    }
    assert buffer[2..2 + iskip] == Zeros(iskip);
    assert buffer[2 + iskip..2 + iskip + |input|] == input;
    assert buffer[1..2 + iskip + |input|] ==
           [command] + buffer[2..2 + iskip] + buffer[2 + iskip..2 + iskip + |input|];
  }
}
