/** The Printer boot loader's Intel HEX parser as a step function on values. The class in
    PrinterBootloader.dfy is the imperative form. */
module PrinterModel {
  import opened Bytes
  import opened FlashMemory

  datatype ParserState = WaitLine | ByteCount | AddressHigh | AddressLow | RecordType | ReadData | Checksum

  const TYPE_DATA: Byte := 0
  const TYPE_END_OF_FILE: Byte := 1
  const TYPE_EXTENDED_SEGMENT: Byte := 2
  const TYPE_EXTENDED_LINEAR: Byte := 4

  /** The HEXParser struct, PageDirty, RunBootloader and the flash. */
  datatype Parser = Parser(
    bootStart: nat,
    state: ParserState,
    prevData: Byte,
    data: Byte,
    readMSB: bool,
    recordType: Byte,
    dataRem: Byte,
    checksum: Byte,
    pageStart: nat,
    base: nat,
    addr: nat,
    pageDirty: bool,
    run: bool,
    flash: Flash)
  {
    ghost predicate Valid() { flash.Valid() }
  }

  /** The parser of a device that has just been connected. */
  function Start(bootStart: nat, flash: Flash): Parser {
    Parser(bootStart, WaitLine, 0, 0, false, 0, 0, 0, 0, 0, 0, false, true, flash)
  }

  /** HexToDecimal: the value of an upper-case hex digit, or -1. */
  function HexValue(c: char): (v: int)
    ensures -1 <= v < 16
  {
    if 'A' <= c <= 'F' then 10 + (c as int - 'A' as int)
    else if '0' <= c <= '9' then c as int - '0' as int
    else -1
  }

  /** The data register after one more hex digit. */
  function ShiftNibble(x: Byte, v: nat): Byte { Or(x * 16, v) % 0x100 }

  /** 8-bit addition. */
  function Sum8(a: Byte, b: Byte): Byte { (a + b) % 0x100 }

  /** First address of the page that holds a, as the parser computes it. */
  function PageOf(s: Parser, a: nat): nat
    requires s.Valid()
  {
    a - Offset(a, s.flash.page)
  }

  function FlushPage(s: Parser): (r: Parser)
    requires s.Valid()
    ensures r.Valid() && r.flash.page == s.flash.page
  {
    if !s.pageDirty then s
    else if s.pageStart != PageOf(s, s.addr) then
      s.(flash := s.flash.Commit(s.pageStart), pageStart := PageOf(s, s.addr), pageDirty := false)
    else s
  }

  /** A word of a data record. */
  function StoreWord(s: Parser, w: Word): (r: Parser)
    requires s.Valid()
    ensures r.Valid() && r.flash.page == s.flash.page
  {
    var e := if s.pageDirty then s else s.(flash := s.flash.Erase(s.pageStart), pageDirty := true);
    FlushPage(e.(flash := e.flash.Fill(e.addr, w), addr := e.addr + 2))
  }

  /** A data byte of any record, with s.data the byte. */
  function DataByte(s: Parser): (r: Parser)
    requires s.Valid()
    ensures r.Valid() && r.flash.page == s.flash.page
  {
    var t := s.(dataRem := (s.dataRem - 1) % 0x100);
    if t.addr >= t.bootStart then t.(state := WaitLine, pageDirty := false)
    else if t.dataRem % 2 == 1 then t.(prevData := t.data)
    else
      var w := MakeWord(t.prevData, t.data);
      var u := if t.recordType == TYPE_DATA then StoreWord(t, w)
               else if t.recordType == TYPE_EXTENDED_SEGMENT then t.(base := w * 0x10)
               else if t.recordType == TYPE_EXTENDED_LINEAR then t.(base := w * 0x1_0000)
               else t;
      if u.dataRem == 0 then u.(state := Checksum) else u
  }

  /** A complete byte of a record, with s.data the byte. */
  function RecordByte(s: Parser): (r: Parser)
    requires s.Valid()
    ensures r.Valid() && r.flash.page == s.flash.page
  {
    var t := if s.state == Checksum then s else s.(checksum := Sum8(s.checksum, s.data));
    match t.state
    case WaitLine => t
    case ByteCount => t.(dataRem := t.data, state := AddressHigh)
    case AddressHigh => t.(addr := t.addr + 0x100 * t.data, state := AddressLow)
    case AddressLow => t.(addr := t.addr + t.data, state := RecordType)
    case RecordType => t.(recordType := t.data, state := if t.dataRem != 0 then ReadData else Checksum)
    case ReadData => DataByte(t)
    case Checksum =>
      if t.data != (0x100 - t.checksum) % 0x100 then t
      else
        var u := FlushPage(t);
        if u.recordType == TYPE_END_OF_FILE then u.(run := false) else u
  }

  function StartLine(s: Parser): Parser {
    s.(checksum := 0, addr := s.base, readMSB := false)
  }

  /** ParseIntelHEXByte. */
  function Parse(s: Parser, c: char): (r: Parser)
    requires s.Valid()
    ensures r.Valid() && r.flash.page == s.flash.page
  {
    if c == ':' then StartLine(s).(state := ByteCount)
    else if s.state == WaitLine then StartLine(s)
    else if HexValue(c) < 0 then s
    else
      var t := s.(data := ShiftNibble(s.data, HexValue(c)), readMSB := !s.readMSB);
      if t.readMSB then t else RecordByte(t)
  }

  function Run(s: Parser, text: string): (r: Parser)
    requires s.Valid()
    ensures r.Valid() && r.flash.page == s.flash.page
    decreases |text|
  {
    if text == "" then s else Parse(Run(s, text[..|text| - 1]), text[|text| - 1])
  }
}
