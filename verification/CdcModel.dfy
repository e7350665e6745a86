/** The CDC boot loader: the AVR109 command protocol on a pair of 16-byte bulk endpoints. Commands are
    functions of the byte stream the host sends; the class in CdcBootloader.dfy reads that stream
    packet by packet. */
module CdcModel {
  import opened Bytes
  import opened FlashMemory
  import opened Endpoints
  import D = DfuModel

  const EPSIZE: nat := 16
  const ADDRESS_SPACE: nat := 0x1_0000_0000

  const EXIT: Byte := 'E' as int
  const SET_LED: Byte := 'x' as int
  const CLEAR_LED: Byte := 'y' as int
  const SELECT_DEVICE: Byte := 'T' as int
  const ENTER_PROGRAMMING: Byte := 'P' as int
  const LEAVE_PROGRAMMING: Byte := 'L' as int
  const READ_PART_CODE: Byte := 't' as int
  const READ_AUTO_INCREMENT: Byte := 'a' as int
  const SET_ADDRESS: Byte := 'A' as int
  const READ_INTERFACE: Byte := 'p' as int
  const READ_IDENTIFIER: Byte := 'S' as int
  const READ_VERSION: Byte := 'V' as int
  const READ_SIGNATURE: Byte := 's' as int
  const ERASE_FLASH: Byte := 'e' as int
  const WRITE_LOCK: Byte := 'l' as int
  const READ_LOCK: Byte := 'r' as int
  const READ_LOW_FUSES: Byte := 'F' as int
  const READ_HIGH_FUSES: Byte := 'N' as int
  const READ_EXTENDED_FUSES: Byte := 'Q' as int
  const GET_BLOCK_SUPPORT: Byte := 'b' as int
  const BLOCK_WRITE: Byte := 'B' as int
  const BLOCK_READ: Byte := 'g' as int
  const FILL_WORD_HIGH: Byte := 'C' as int
  const FILL_WORD_LOW: Byte := 'c' as int
  const WRITE_PAGE: Byte := 'm' as int
  const READ_FLASH_WORD: Byte := 'R' as int
  const WRITE_EEPROM: Byte := 'D' as int
  const READ_EEPROM: Byte := 'd' as int
  const SYNC: Byte := 27

  const MEMORY_FLASH: Byte := 'F' as int
  const MEMORY_EEPROM: Byte := 'E' as int

  const OK: Byte := 13
  const YES: Byte := 'Y' as int
  const FAIL: Byte := '?' as int
  const SERIAL: Byte := 'S' as int
  const IDENTIFIER: seq<Byte> := [0x4C, 0x55, 0x46, 0x41, 0x43, 0x44, 0x43]
  const VERSION: seq<Byte> := [0x31, 0x30]

  /** What is fixed when the firmware is built for a part, with its fuse bytes. */
  datatype Part = Part(bootStart: nat, signature: seq<Byte>, lowFuse: Byte, highFuse: Byte, extFuse: Byte)

  /** The globals RunBootloader and CurrAddress, with the memories and the lock byte. */
  datatype Cdc = Cdc(part: Part, run: bool, addr: nat, flash: Flash, eeprom: seq<Byte>, lock: Byte) {
    ghost predicate Valid() {
      && flash.Valid() && |flash.mem| <= 0x2_0000
      && |eeprom| > 0 && |part.signature| == 3
      && addr < ADDRESS_SPACE && addr % 2 == 0
    }
  }

  // The stream of command bytes. An unattached device reads zeros.

  function Head(s: seq<Byte>): Byte { if s == [] then 0 else s[0] }

  function Tail(s: seq<Byte>): seq<Byte> { if s == [] then [] else s[1..] }

  // Replies.

  /** WriteNextResponseByte for each byte. */
  function PutAll(p: InPipe, reply: seq<Byte>): InPipe
    decreases |reply|
  {
    if reply == [] then p else PutAll(p.Room(EPSIZE).Put(reply[0]), reply[1..])
  }

  /** The end of CDC_Task: the bank is sent, and after a full one an empty packet. */
  function Finish(p: InPipe): InPipe { if |p.bank| == EPSIZE then p.Send().Send() else p.Send() }

  /** The packets that carry a reply. */
  function Frame(reply: seq<Byte>): seq<seq<Byte>> { Finish(PutAll(InPipe([], []), reply)).sent }

  // Addresses.

  /** `byte << 9` in 16-bit arithmetic, widened to 32 bits with its sign. */
  function ShiftNine(hi: Byte): nat {
    var t := 0x200 * (hi as int) % 0x1_0000;
    if t >= 0x8000 then 0xFFFF_0000 + t else t
  }

  lemma ShiftNineMultiple(hi: Byte) returns (h: nat)
    ensures h * 0x200 == ShiftNine(hi) && h < 0x80_0000
  {
    var m := hi % 0x80;
    LowBits(hi);
    h := if 0x200 * m >= 0x8000 then 0x7F_FF80 + m else m;
  }

  lemma LowBits(hi: Byte)
    ensures 0x200 * (hi as int) % 0x1_0000 == 0x200 * (hi as int % 0x80)
  {
  }

  lemma Pow2Of9()
    ensures Pow2(9) == 0x200
  {
    Pow2Of8();
    assert Pow2(9) == 2 * Pow2(8);
  }

  /** The two halves of an address do not overlap. */
  lemma AddressHalves(hi: Byte, lo: Byte)
    ensures Or(ShiftNine(hi), 2 * lo as int) == ShiftNine(hi) + 2 * lo as int
    ensures ShiftNine(hi) + 2 * (lo as int) < ADDRESS_SPACE && (ShiftNine(hi) + 2 * (lo as int)) % 2 == 0
  {
    hide Or, Pow2, ShiftNine;
    var h := ShiftNineMultiple(hi);
    Pow2Of9();
    OrDisjoint(h, 2 * lo as int, 9);
    EvenHalves(h, lo);
  }

  lemma EvenHalves(h: nat, lo: Byte)
    ensures (h * 0x200 + 2 * (lo as int)) % 2 == 0
  {
    Double(h * 0x200 + 2 * (lo as int), h * 0x100 + lo as int);
  }

  function AddressOf(hi: Byte, lo: Byte): (a: nat)
    ensures a < ADDRESS_SPACE && a % 2 == 0
  {
    AddressHalves(hi, lo);
    Or(ShiftNine(hi), 2 * lo as int)
  }

  /** CurrAddress += 2. */
  function Next(addr: nat): (a: nat)
    requires addr < ADDRESS_SPACE && addr % 2 == 0
    ensures a < ADDRESS_SPACE && a % 2 == 0
  {
    if addr + 2 == ADDRESS_SPACE then 0 else addr + 2
  }

  // Blocks.

  datatype BlockRead = BlockRead(bytes: seq<Byte>, addr: nat)

  /** The flash read loop: both bytes of a word, then the next word. */
  function ReadFlash(f: Flash, addr: nat, high: bool, n: nat): (r: BlockRead)
    requires f.Valid() && addr < ADDRESS_SPACE && addr % 2 == 0
    ensures r.addr < ADDRESS_SPACE && r.addr % 2 == 0
    decreases n
  {
    if n == 0 then BlockRead([], addr)
    else
      var b := f.Read(Or(addr, if high then 1 else 0));
      var more := ReadFlash(f, if high then Next(addr) else addr, !high, n - 1);
      BlockRead([b] + more.bytes, more.addr)
  }

  function ReadEeprom(e: seq<Byte>, addr: nat, n: nat): (r: BlockRead)
    requires |e| > 0 && addr < ADDRESS_SPACE && addr % 2 == 0
    ensures r.addr < ADDRESS_SPACE && r.addr % 2 == 0
    decreases n
  {
    if n == 0 then BlockRead([], addr)
    else
      var more := ReadEeprom(e, Next(addr), n - 1);
      BlockRead([e[Wrap(addr / 2, |e|)]] + more.bytes, more.addr)
  }

  datatype FlashWritten = FlashWritten(flash: Flash, addr: nat, rest: seq<Byte>)

  /** The flash write loop: a word is filled once its high byte has come. */
  function WriteFlash(f: Flash, addr: nat, high: bool, low: Byte, s: seq<Byte>, n: nat): (r: FlashWritten)
    requires f.Valid() && addr < ADDRESS_SPACE && addr % 2 == 0
    ensures r.flash.Valid() && r.flash.page == f.page && r.flash.mem == f.mem
    ensures r.addr < ADDRESS_SPACE && r.addr % 2 == 0
    decreases n
  {
    if n == 0 then FlashWritten(f, addr, s)
    else if high then WriteFlash(f.Fill(addr, MakeWord(low, Head(s))), Next(addr), false, low, Tail(s), n - 1)
    else WriteFlash(f, addr, true, Head(s), Tail(s), n - 1)
  }

  datatype EepromWritten = EepromWritten(eeprom: seq<Byte>, addr: nat, rest: seq<Byte>)

  function WriteEeprom(e: seq<Byte>, addr: nat, s: seq<Byte>, n: nat): (r: EepromWritten)
    requires |e| > 0 && addr < ADDRESS_SPACE && addr % 2 == 0
    ensures |r.eeprom| == |e| && r.addr < ADDRESS_SPACE && r.addr % 2 == 0
    decreases n
  {
    if n == 0 then EepromWritten(e, addr, s)
    else WriteEeprom(e[Wrap(addr / 2, |e|) := Head(s)], Next(addr), Tail(s), n - 1)
  }

  // Commands.

  datatype Outcome = Outcome(cdc: Cdc, reply: seq<Byte>, rest: seq<Byte>)

  function ReadBlock(d: Cdc, memory: Byte, size: Word, s: seq<Byte>): (r: Outcome)
    requires d.Valid()
    ensures r.cdc.Valid() && r.cdc.part == d.part
  {
    var read := if memory == MEMORY_FLASH then ReadFlash(d.flash, d.addr, false, size)
                else ReadEeprom(d.eeprom, d.addr, size);
    Outcome(d.(addr := read.addr), read.bytes, s)
  }

  function WriteBlock(d: Cdc, memory: Byte, size: Word, s: seq<Byte>): (r: Outcome)
    requires d.Valid()
    ensures r.cdc.Valid() && r.cdc.part == d.part
  {
    if memory == MEMORY_FLASH then
      var w := WriteFlash(d.flash.Erase(d.addr), d.addr, false, 0, s, size);
      Outcome(d.(flash := w.flash.Commit(d.addr), addr := w.addr), [OK], w.rest)
    else
      var w := WriteEeprom(d.eeprom, d.addr, s, size);
      Outcome(d.(eeprom := w.eeprom, addr := w.addr), [OK], w.rest)
  }

  /** ReadWriteMemoryBlock. */
  function Block(d: Cdc, write: bool, s: seq<Byte>): (r: Outcome)
    requires d.Valid()
    ensures r.cdc.Valid() && r.cdc.part == d.part
  {
    var size := MakeWord(Head(Tail(s)), Head(s));
    var memory := Head(Tail(Tail(s)));
    var rest := Tail(Tail(Tail(s)));
    if memory != MEMORY_FLASH && memory != MEMORY_EEPROM then Outcome(d, [FAIL], rest)
    else if write then WriteBlock(d, memory, size, rest)
    else ReadBlock(d, memory, size, rest)
  }

  /** The answers to the commands that only report something. */
  function Answer(d: Cdc, command: Byte): seq<Byte>
    requires d.Valid()
  {
    if command == READ_PART_CODE then [0x44, 0x00]
    else if command == READ_AUTO_INCREMENT then [YES]
    else if command == READ_INTERFACE then [SERIAL]
    else if command == READ_IDENTIFIER then IDENTIFIER
    else if command == READ_VERSION then VERSION
    else if command == READ_SIGNATURE then [d.part.signature[2], d.part.signature[1], d.part.signature[0]]
    else if command == READ_LOCK then [d.lock]
    else if command == READ_LOW_FUSES then [d.part.lowFuse]
    else if command == READ_HIGH_FUSES then [d.part.highFuse]
    else if command == READ_EXTENDED_FUSES then [d.part.extFuse]
    else if command == GET_BLOCK_SUPPORT then [YES, d.flash.page / 0x100, d.flash.page % 0x100]
    else if command == ENTER_PROGRAMMING || command == LEAVE_PROGRAMMING then [OK]
    else if command == SYNC then []
    else [FAIL]
  }

  /** The byte-wise flash commands. A fill loads a whole word, the byte and a zero, whichever half it names. */
  function FlashByte(d: Cdc, command: Byte, s: seq<Byte>): (r: Outcome)
    requires d.Valid()
    ensures r.cdc.Valid() && r.cdc.part == d.part
  {
    if command == FILL_WORD_HIGH then Outcome(d.(flash := d.flash.Fill(d.addr, Head(s))), [OK], Tail(s))
    else if command == FILL_WORD_LOW then
      Outcome(d.(flash := d.flash.Fill(Or(d.addr, 1), Head(s)), addr := Next(d.addr)), [OK], Tail(s))
    else if command == WRITE_PAGE then Outcome(d.(flash := d.flash.Commit(d.addr)), [OK], s)
    else Outcome(d, [d.flash.Read(d.addr + 1), d.flash.Read(d.addr)], s)
  }

  /** One command, up to its reply. Programming lock bits can only clear them. */
  function Exec(d: Cdc, s: seq<Byte>): (r: Outcome)
    requires d.Valid()
    ensures r.cdc.Valid() && r.cdc.part == d.part
  {
    var command, rest := Head(s), Tail(s);
    if command == EXIT then Outcome(d.(run := false), [OK], rest)
    else if command == SET_LED || command == CLEAR_LED || command == SELECT_DEVICE then Outcome(d, [OK], Tail(rest))
    else if command == SET_ADDRESS then
      Outcome(d.(addr := AddressOf(Head(rest), Head(Tail(rest)))), [OK], Tail(Tail(rest)))
    else if command == ERASE_FLASH then
      Outcome(d.(flash := D.EraseFrom(d.flash, 0, d.part.bootStart)), [OK], rest)
    else if command == WRITE_LOCK then Outcome(d.(lock := AndByte(d.lock, 0xFF - Head(rest))), [OK], Tail(rest))
    else if command == BLOCK_WRITE || command == BLOCK_READ then Block(d, command == BLOCK_WRITE, rest)
    else if command == FILL_WORD_HIGH || command == FILL_WORD_LOW || command == WRITE_PAGE ||
            command == READ_FLASH_WORD then
      FlashByte(d, command, rest)
    else if command == WRITE_EEPROM then
      Outcome(d.(eeprom := d.eeprom[Wrap(d.addr / 2, |d.eeprom|) := Head(rest)],
                 addr := Next(d.addr)), [OK], Tail(rest))
    else if command == READ_EEPROM then
      Outcome(d.(addr := Next(d.addr)), [d.eeprom[Wrap(d.addr / 2, |d.eeprom|)]], rest)
    else Outcome(d, Answer(d, command), rest)
  }

  datatype Session = Session(cdc: Cdc, replies: seq<seq<Byte>>)

  /** Commands sent one after the other, each in packets of its own. */
  function Run(d: Cdc, commands: seq<seq<Byte>>): (r: Session)
    requires d.Valid()
    ensures r.cdc.Valid() && |r.replies| == |commands|
    decreases |commands|
  {
    if commands == [] then Session(d, [])
    else
      var first := Exec(d, commands[0]);
      var more := Run(first.cdc, commands[1..]);
      Session(more.cdc, [first.reply] + more.replies)
  }
}
