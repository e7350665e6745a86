/** The DFU boot loader as a state machine over control requests: what each handler
    computes, stated on values. The class in DfuBootloader.dfy is the imperative form. */
module DfuModel {
  import opened Bytes
  import opened FlashMemory
  import opened Endpoints

  const DFU_IDLE: Byte := 2
  const DFU_DNLOAD_IDLE: Byte := 5
  const DFU_UPLOAD_IDLE: Byte := 9
  const DFU_ERROR: Byte := 10

  const STATUS_OK: Byte := 0
  const ERR_WRITE: Byte := 3
  const ERR_CHECK_ERASED: Byte := 5
  const ERR_ADDRESS: Byte := 8

  const REQ_DNLOAD: Byte := 1
  const REQ_UPLOAD: Byte := 2
  const REQ_GETSTATUS: Byte := 3
  const REQ_CLRSTATUS: Byte := 4
  const REQ_GETSTATE: Byte := 5
  const REQ_ABORT: Byte := 6

  const COMMAND_PROG_START: Byte := 0x01
  const COMMAND_DISP_DATA: Byte := 0x03
  const COMMAND_WRITE: Byte := 0x04
  const COMMAND_READ: Byte := 0x05
  const COMMAND_CHANGE_BASE_ADDR: Byte := 0x06

  const FILLER_SIZE: Byte := 26
  const SUFFIX_SIZE: Byte := 16
  const PACKET_SIZE: nat := 32
  const BOOTLOADER_INFO: seq<Byte> := [0x20, 0xDC, 0xFB]

  datatype Command = Command(command: Byte, data: seq<Byte>, dataSize: Word)

  /** What is fixed when the firmware is built for a part. */
  datatype Part = Part(bootStart: nat, signature: seq<Byte>)

  /** The globals of the boot loader, with the memories it drives. */
  datatype Dfu = Dfu(
    part: Part,
    isSecure: bool,
    runBootloader: bool,
    waitForExit: bool,
    watchdog: bool,
    state: Byte,
    status: Byte,
    sent: Command,
    responseByte: Byte,
    appStart: Word,
    flash64K: Byte,
    startAddr: Word,
    endAddr: Word,
    flash: Flash,
    eeprom: seq<Byte>)
  {
    ghost predicate Valid() {
      && |sent.data| == 5
      && flash.Valid()
      && |eeprom| > 0
      && part.bootStart <= |flash.mem|
      && |part.signature| == 3
    }

    /** The 32-bit flash address formed by the 64KB page number and a 16-bit address. */
    function FlashAddress(): nat { 0x1_0000 * flash64K + startAddr }

    /** Number of bytes from startAddr to endAddr inclusive, as a 16-bit quantity. */
    function ByteCount(): Word { (endAddr - startAddr + 1) % 0x1_0000 }
  }

  /** A control request with the packets of its data stage. */
  datatype Request = Request(toInterface: bool, request: Byte, length: Word, packets: seq<seq<Byte>>)

  datatype Reply = Reply(stalled: bool, packets: seq<seq<Byte>>)

  const NO_REPLY := Reply(false, [])

  predicate IsChipErase(c: Command)
    requires |c.data| == 5
  {
    c.command == COMMAND_WRITE && c.data[0] == 0x00 && c.data[1] == 0xFF
  }

  /** The secure-mode gate in front of every command. */
  predicate Allowed(d: Dfu)
    requires d.Valid()
  {
    !d.isSecure || IsChipErase(d.sent) || d.sent.command == COMMAND_READ
  }

  function LoadAddresses(d: Dfu): (r: Dfu)
    requires d.Valid()
    ensures r.Valid()
  {
    d.(startAddr := MakeWord(d.sent.data[2], d.sent.data[1]),
       endAddr := MakeWord(d.sent.data[4], d.sent.data[3]))
  }

  function ProcessMemProg(d: Dfu): (r: Dfu)
    requires d.Valid()
    ensures r.Valid()
  {
    if d.sent.data[0] == 0x00 then
      var l := LoadAddresses(d);
      l.(flash := l.flash.Erase(l.FlashAddress()), state := DFU_DNLOAD_IDLE)
    else if d.sent.data[0] == 0x01 then
      LoadAddresses(d).(state := DFU_DNLOAD_IDLE)
    else d
  }

  /** Least address in [from, limit) whose byte is not blank, or limit. */
  function FirstNonBlank(mem: seq<Byte>, from: nat, limit: nat): (r: nat)
    requires from <= limit <= |mem|
    ensures from <= r <= limit
    ensures r < limit ==> mem[r] != BLANK
    ensures forall i | from <= i < r :: mem[i] == BLANK
    decreases limit - from
  {
    if from == limit || mem[from] != BLANK then from else FirstNonBlank(mem, from + 1, limit)
  }

  function ProcessMemRead(d: Dfu): (r: Dfu)
    requires d.Valid()
    ensures r.Valid()
  {
    if d.sent.data[0] == 0x00 || d.sent.data[0] == 0x02 then
      LoadAddresses(d).(state := DFU_UPLOAD_IDLE)
    else if d.sent.data[0] == 0x01 then
      var a := FirstNonBlank(d.flash.mem, 0, d.part.bootStart);
      if a == d.part.bootStart then d
      else d.(flash64K := a / 0x1_0000 % 0x100, startAddr := a % 0x1_0000,
              state := DFU_ERROR, status := ERR_CHECK_ERASED)
    else d
  }

  /** Erases and commits every page from `a` up to `limit`. */
  function EraseFrom(f: Flash, a: nat, limit: nat): (r: Flash)
    requires f.Valid()
    ensures r.Valid() && r.page == f.page && |r.mem| == |f.mem|
    decreases if a < limit then limit - a else 0
  {
    if a < limit then EraseFrom(f.Erase(a).Commit(a), a + f.page, limit) else f
  }

  function ProcessWrite(d: Dfu): (r: Dfu)
    requires d.Valid()
    ensures r.Valid()
  {
    if d.sent.data[0] == 0x03 then
      var w := d.(waitForExit := true);
      if d.sent.dataSize != 0 then
        if d.sent.data[1] == 0x01 then w.(appStart := MakeWord(d.sent.data[4], d.sent.data[3])) else w
      else if d.sent.data[1] == 0x00 then w.(watchdog := true)
      else if d.flash.Read(0) == BLANK && d.flash.Read(1) == BLANK then w.(runBootloader := false)
      else w
    else if d.sent.data[0] == 0x00 && d.sent.data[1] == 0xFF then
      d.(flash := EraseFrom(d.flash, 0, d.part.bootStart), isSecure := false)
    else d
  }

  function ReadError(d: Dfu): Dfu { d.(state := DFU_ERROR, status := ERR_ADDRESS) }

  /** What the read commands may change. */
  ghost predicate ReadOnly(d: Dfu, r: Dfu) {
    r == d.(responseByte := r.responseByte, state := r.state, status := r.status) &&
    (r.state == d.state || r.state == DFU_ERROR)
  }

  function ReadVersion(d: Dfu, index: Byte): (r: Dfu)
    ensures ReadOnly(d, r)
  {
    if index < 3 then d.(responseByte := BOOTLOADER_INFO[index]) else ReadError(d)
  }

  function ReadSignature(d: Dfu, index: Byte): (r: Dfu)
    requires |d.part.signature| == 3
    ensures ReadOnly(d, r)
  {
    if index == 0x30 then d.(responseByte := 0x58)
    else if index == 0x31 then d.(responseByte := d.part.signature[0])
    else if index == 0x60 then d.(responseByte := d.part.signature[1])
    else if index == 0x61 then d.(responseByte := d.part.signature[2])
    else ReadError(d)
  }

  function ProcessRead(d: Dfu): (r: Dfu)
    requires d.Valid()
    ensures r.Valid() && ReadOnly(d, r)
  {
    if d.sent.data[0] == 0x00 then ReadVersion(d, d.sent.data[1])
    else if d.sent.data[0] == 0x01 then ReadSignature(d, d.sent.data[1])
    else d
  }

  function ProcessCommand(d: Dfu): (r: Dfu)
    requires d.Valid()
    ensures r.Valid()
  {
    if !Allowed(d) then d.(state := DFU_ERROR, status := ERR_WRITE)
    else if d.sent.command == COMMAND_PROG_START then ProcessMemProg(d)
    else if d.sent.command == COMMAND_DISP_DATA then ProcessMemRead(d)
    else if d.sent.command == COMMAND_WRITE then ProcessWrite(d)
    else if d.sent.command == COMMAND_READ then ProcessRead(d)
    else if d.sent.command == COMMAND_CHANGE_BASE_ADDR && d.sent.data[0] == 0x03 && d.sent.data[1] == 0x00 then
      d.(flash64K := d.sent.data[2])
    else d
  }

  /** Command byte and up to five parameters, taken from the first packet. Parameters
      that the packet does not carry keep the value they had for the previous command. */
  function LoadCommand(c: Command, packet: seq<Byte>): (r: Command)
    requires |c.data| == 5
    ensures |r.data| == 5
  {
    var params := if packet == [] then [] else packet[1..];
    var k := if |params| < 5 then |params| else 5;
    Command(if packet == [] then 0 else packet[0],
            params[..k] + c.data[k..],
            (c.dataSize - 1 - k) % 0x1_0000)
  }

  /** What is left of the first packet once the command is loaded. */
  function AfterCommand(packet: seq<Byte>): seq<Byte> {
    if |packet| < 6 then [] else packet[6..]
  }

  /** Discards up to n bytes; moving to the next packet uses up one of the n. */
  function Discard(out: OutPipe, n: nat): OutPipe
    decreases n
  {
    if n == 0 || out.Dry() then out
    else if out.cur == [] then Discard(out.Advance(), n - 1)
    else Discard(out.Drop(), n - 1)
  }

  datatype Download = Download(flash: Flash, out: OutPipe, attached: bool)

  /** The flash programming loop. `a` is the address of the next word, `p` the start of the
      page being filled, `filled` the number of words buffered for it. */
  function WriteWords(f: Flash, out: OutPipe, a: nat, p: nat, filled: nat, remaining: nat): (r: Download)
    requires f.Valid()
    ensures r.flash.Valid() && |r.flash.mem| == |f.mem|
    decreases remaining
  {
    if remaining == 0 then Download(f, out, true)
    else if out.Dry() then Download(f, out, false)
    else
      var ready := out.Ready();
      var g := f.Fill(a, ready.PeekWord());
      var next := ready.DropWord();
      if filled + 1 == f.page / 2 || remaining == 1 then
        var h := g.Commit(p);
        if remaining == 1 then Download(h, next, true)
        else WriteWords(h.Erase(a + 2), next, a + 2, a + 2, 0, remaining - 1)
      else WriteWords(g, next, a + 2, p, filled + 1, remaining - 1)
  }

  function EepromAt(e: seq<Byte>, a: nat): (d: nat)
    requires |e| > 0
    ensures d < |e|
  {
    Wrap(a, |e|)
  }

  datatype EepromDownload = EepromDownload(eeprom: seq<Byte>, out: OutPipe, a: Word)

  /** The EEPROM programming loop; stops early when the host is gone. */
  function WriteEeprom(e: seq<Byte>, out: OutPipe, a: Word, remaining: nat): (r: EepromDownload)
    requires |e| > 0
    ensures |r.eeprom| == |e|
    decreases remaining
  {
    if remaining == 0 || out.Dry() then EepromDownload(e, out, a)
    else
      var ready := out.Ready();
      WriteEeprom(e[EepromAt(e, a) := ready.Peek()], ready.Drop(), (a + 1) % 0x1_0000, remaining - 1)
  }

  /** DFU_DNLOAD once its command has been processed. */
  function DataStage(d: Dfu, out: OutPipe): (r: Dfu)
    requires d.Valid()
    ensures r.Valid()
  {
    if d.state != DFU_DNLOAD_IDLE then d
    else if d.sent.dataSize == 0 then d.(state := DFU_IDLE)
    else
      var o := Discard(Discard(out, FILLER_SIZE), d.startAddr % PACKET_SIZE);
      if d.sent.data[0] == 0x00 then
        var w := WriteWords(d.flash, o, d.FlashAddress(), d.FlashAddress(), 0, d.ByteCount() / 2);
        if w.attached then d.(flash := w.flash, startAddr := d.endAddr) else d.(flash := w.flash)
      else
        var w := WriteEeprom(d.eeprom, o, d.startAddr, d.ByteCount());
        d.(eeprom := w.eeprom, startAddr := w.a)
  }

  /** A command that waited for the next request before the boot loader exits. */
  function FinishExit(d: Dfu): (r: Dfu)
    requires d.Valid()
    ensures r.Valid()
  {
    if d.waitForExit then ProcessCommand(d).(waitForExit := false) else d
  }

  function Dnload(d: Dfu, packets: seq<seq<Byte>>): (r: (Dfu, Reply))
    requires d.Valid()
    ensures r.0.Valid()
  {
    var e := FinishExit(d);
    var stalled := d.waitForExit && !Allowed(d);
    if e.sent.dataSize == 0 then (DataStage(e, OutPipe([], packets)), Reply(stalled, []))
    else if packets == [] then (e, Reply(stalled, []))
    else
      var c := e.(sent := LoadCommand(e.sent, packets[0]));
      (DataStage(ProcessCommand(c), OutPipe(AfterCommand(packets[0]), packets[1..])),
       Reply(stalled || !Allowed(c), []))
  }

  function ReadWords(f: Flash, pipe: InPipe, a: nat, remaining: nat): InPipe
    requires f.Valid()
    decreases remaining
  {
    if remaining == 0 then pipe
    else ReadWords(f, pipe.Room(PACKET_SIZE).Put(f.Read(a)).Put(f.Read(a + 1)), a + 2, remaining - 1)
  }

  function ReadEeprom(e: seq<Byte>, pipe: InPipe, a: Word, remaining: nat): InPipe
    requires |e| > 0
    decreases remaining
  {
    if remaining == 0 then pipe
    else ReadEeprom(e, pipe.Room(PACKET_SIZE).Put(e[EepromAt(e, a)]), (a + 1) % 0x1_0000, remaining - 1)
  }

  function Upload(d: Dfu): (r: (Dfu, Reply))
    requires d.Valid()
    ensures r.0.Valid()
  {
    if d.state != DFU_UPLOAD_IDLE then
      if d.state == DFU_ERROR && d.sent.data[0] == 0x01 then
        (d, Reply(false, [[Low(d.startAddr), High(d.startAddr)]]))
      else
        (d, Reply(false, [[d.responseByte]]))
    else if d.sent.data[0] == 0x00 then
      (d.(startAddr := d.endAddr, state := DFU_IDLE),
       Reply(false, ReadWords(d.flash, InPipe([], []), d.FlashAddress(), d.ByteCount() / 2).Send().sent))
    else if d.sent.data[0] == 0x02 then
      (d.(startAddr := (d.endAddr + 1) % 0x1_0000, state := DFU_IDLE),
       Reply(false, ReadEeprom(d.eeprom, InPipe([], []), d.startAddr, d.ByteCount()).Send().sent))
    else
      (d.(state := DFU_IDLE), Reply(false, [[]]))
  }

  /** EVENT_USB_Device_ControlRequest. */
  function Step(d: Dfu, r: Request): (s: (Dfu, Reply))
    requires d.Valid()
    ensures s.0.Valid()
  {
    if !r.toInterface then (d, NO_REPLY)
    else
      var e := d.(sent := d.sent.(dataSize := r.length));
      if r.request == REQ_DNLOAD then Dnload(e, r.packets)
      else if r.request == REQ_UPLOAD then Upload(e)
      else if r.request == REQ_GETSTATUS then (e, Reply(false, [[e.status, 0, 0, 0, e.state, 0]]))
      else if r.request == REQ_CLRSTATUS then (e.(status := STATUS_OK), NO_REPLY)
      else if r.request == REQ_GETSTATE then (e, Reply(false, [[e.state]]))
      else if r.request == REQ_ABORT then (e.(state := DFU_IDLE), NO_REPLY)
      else (e, NO_REPLY)
  }

  /** A session: the state after the requests, and the replies in order. */
  function Run(d: Dfu, rs: seq<Request>): (s: (Dfu, seq<Reply>))
    requires d.Valid()
    ensures s.0.Valid() && |s.1| == |rs|
    decreases |rs|
  {
    if rs == [] then (d, [])
    else
      var last := |rs| - 1;
      var (e, replies) := Run(d, rs[..last]);
      var (g, reply) := Step(e, rs[last]);
      (g, replies + [reply])
  }
}
