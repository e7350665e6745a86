/** Streaming a HEX file through the Printer boot loader: the characters between the digits
    do not matter, and the flash ends up holding the image. */
module PrinterStream {
  import opened Bytes
  import opened FlashMemory
  import opened PrinterModel

  lemma {:induction false} RunAppend(s: Parser, a: string, b: string)
    requires s.Valid()
    ensures Run(s, a + b) == Run(Run(s, a), b)
    decreases |b|
  {
    hide Parse;
    if b == "" {
      assert a + b == a;
    } else {
      assert (a + b)[..|a + b| - 1] == a + b[..|b| - 1];
      RunAppend(s, a, b[..|b| - 1]);
    }
  }

  // Characters that are not part of a record.

  predicate IsNoise(c: char) { c != ':' && HexValue(c) < 0 }

  function WithoutNoise(text: string): string
    decreases |text|
  {
    if text == "" then ""
    else
      var front, c := WithoutNoise(text[..|text| - 1]), text[|text| - 1];
      if IsNoise(c) then front else front + [c]
  }

  /** While waiting for a line, the per-line fields are reset by whatever comes next. */
  function Settled(s: Parser): Parser {
    if s.state == WaitLine then StartLine(s) else s
  }

  lemma SettledParse(s: Parser, c: char)
    requires s.Valid()
    ensures Parse(Settled(s), c) == Parse(s, c)
    ensures IsNoise(c) ==> Settled(Parse(s, c)) == Settled(s)
  {
    hide RecordByte, ShiftNibble;
  }

  /** Noise is invisible: every text drives the parser to the same state as the text without it. */
  lemma {:induction false} NoiseIsIgnored(s: Parser, text: string)
    requires s.Valid()
    ensures Settled(Run(s, text)) == Settled(Run(s, WithoutNoise(text)))
    decreases |text|
  {
    hide Parse, Settled, IsNoise;
    if text != "" {
      var front, c := text[..|text| - 1], text[|text| - 1];
      NoiseIsIgnored(s, front);
      SettledParse(Run(s, front), c);
      SettledParse(Run(s, WithoutNoise(front)), c);
      if !IsNoise(c) {
        assert (WithoutNoise(front) + [c])[..|WithoutNoise(front)|] == WithoutNoise(front);
      }
    }
  }

  // Bytes written as two hex digits.

  function HexDigit(v: int): (c: char)
    requires 0 <= v < 16
    ensures HexValue(c) == v && c != ':'
  {
    if v < 10 then '0' + v as char else 'A' + (v - 10) as char
  }

  function HexByte(b: Byte): (s: string)
    ensures |s| == 2
  {
    [HexDigit(b / 16), HexDigit(b % 16)]
  }

  function HexBytes(bs: seq<Byte>): string
    decreases |bs|
  {
    if bs == [] then "" else HexBytes(bs[..|bs| - 1]) + HexByte(bs[|bs| - 1])
  }

  lemma ShiftIn(x: Byte, v: nat)
    requires v < 16
    ensures ShiftNibble(x, v) == (x * 16 + v) % 0x100
  {
    hide Or;
    Pow2Of8();
    OrDisjoint(x, v, 4);
  }

  /** The two digits of a byte push out whatever the register held. */
  lemma Nibbles(x: Byte, b: Byte)
    ensures ShiftNibble(ShiftNibble(x, b / 16), b % 16) == b
  {
    hide ShiftNibble;
    var y := ShiftNibble(x, b / 16);
    ShiftIn(x, b / 16);
    Wrap8(x * 16 + b / 16, x / 16, x % 16 * 16 + b / 16);
    ShiftIn(y, b % 16);
    Wrap8(y * 16 + b % 16, x % 16, b);
  }

  lemma Wrap8(n: int, q: int, r: Byte)
    requires n == 0x100 * q + r
    ensures n % 0x100 == r
  {
  }

  /** Inside a record, two digits deliver one byte. */
  lemma TwoDigits(s: Parser, b: Byte)
    requires s.Valid() && s.state != WaitLine && !s.readMSB
    ensures Run(s, HexByte(b)) == RecordByte(s.(data := b))
  {
    hide ShiftNibble, RecordByte, HexValue, HexDigit, Run, Flash.Valid;
    var hi, lo := HexDigit(b / 16), HexDigit(b % 16);
    RunTwo(s, hi, lo);
    Nibbles(s.data, b);
  }

  lemma RunTwo(s: Parser, a: char, b: char)
    requires s.Valid()
    ensures Run(s, [a, b]) == Parse(Parse(s, a), b)
  {
    hide Parse;
    assert [a, b][..1] == [a] && [a][..0] == "";
    assert Run(s, [a]) == Parse(s, a);
  }

  // Lazily flushed pages.

  /** `data` has been streamed to address 0 of a flash that held `mem`: either a page is open and
      partly buffered, or everything is committed and `pageStart` is the page to open next. */
  ghost predicate Streamed(f: Flash, pageStart: nat, dirty: bool, mem: seq<Byte>, data: seq<Byte>) {
    && f.Valid() && |mem| == |f.mem| && |data| % 2 == 0
    && if dirty then
         InFlight(f, mem, 0, data, pageStart) && pageStart < |data| < pageStart + f.page
       else
         && f.Blank() && pageStart == |data| <= |mem| && Aligned(|data|, f.page)
         && f.mem == Overlay(mem, 0, data, |data|)
  }

  /** The first word of a page erases it. */
  lemma OpenIfClean(f: Flash, pageStart: nat, dirty: bool, mem: seq<Byte>, data: seq<Byte>)
    requires Streamed(f, pageStart, dirty, mem, data) && |data| < |mem|
    ensures var g := if dirty then f else f.Erase(pageStart);
            InFlight(g, mem, 0, data, pageStart) && |data| < pageStart + g.page
  {
    hide Flash.Erase, InFlight, Overlay;
    if !dirty {
      assert Aligned(0, f.page);
      OpenPage(f, mem, 0, data);
    }
  }

  /** PageOf on the address just behind the data. */
  lemma PageBehind(p: nat, n: nat, page: nat)
    requires page == 128 || page == 256
    requires Aligned(p, page) && p <= n <= p + page
    ensures n - Offset(n, page) == if n == p + page then p + page else p
  {
    if n == p + page {
      NextPage(p, page);
    } else {
      OffsetInPage(p, n - p, page);
    }
  }

  lemma FlushAfterFill(s: Parser, mem: seq<Byte>, data: seq<Byte>)
    requires s.Valid() && s.pageDirty && s.addr == |data| && |data| % 2 == 0
    requires InFlight(s.flash, mem, 0, data, s.pageStart) && s.pageStart < |data|
    ensures var r := FlushPage(s);
            && Streamed(r.flash, r.pageStart, r.pageDirty, mem, data)
            && r == s.(flash := r.flash, pageStart := r.pageStart, pageDirty := r.pageDirty)
  {
    hide Flash.Commit, Offset;
    PageBehind(s.pageStart, |data|, s.flash.page);
    CommitOpen(s.flash, mem, 0, data, s.pageStart);
    NextPage(s.pageStart, s.flash.page);
  }

  /** A word of a data record extends what has been streamed. */
  lemma StoreNext(s: Parser, mem: seq<Byte>, data: seq<Byte>, w: Word)
    requires Streamed(s.flash, s.pageStart, s.pageDirty, mem, data)
    requires s.addr == |data| < |mem|
    ensures s.Valid()
    ensures var r := StoreWord(s, w);
            && Streamed(r.flash, r.pageStart, r.pageDirty, mem, data + [Low(w), High(w)])
            && r == s.(addr := |data| + 2, flash := r.flash, pageStart := r.pageStart, pageDirty := r.pageDirty)
  {
    assert s.Valid();
    EvenData(s, mem, data);
    hide Flash.Erase, Flash.Fill, Flash.Commit, Flash.Valid, FlushPage, InFlight, Streamed, Low, High;
    OpenIfClean(s.flash, s.pageStart, s.pageDirty, mem, data);
    var e := if s.pageDirty then s else s.(flash := s.flash.Erase(s.pageStart), pageDirty := true);
    StoreOpen(e, mem, data, w);
  }

  lemma StoreOpen(e: Parser, mem: seq<Byte>, data: seq<Byte>, w: Word)
    requires e.Valid() && e.pageDirty && e.addr == |data| && |data| % 2 == 0
    requires InFlight(e.flash, mem, 0, data, e.pageStart) && |data| < e.pageStart + e.flash.page
    ensures var r := FlushPage(e.(flash := e.flash.Fill(e.addr, w), addr := e.addr + 2));
            && Streamed(r.flash, r.pageStart, r.pageDirty, mem, data + [Low(w), High(w)])
            && r == e.(addr := |data| + 2, flash := r.flash, pageStart := r.pageStart, pageDirty := r.pageDirty)
  {
    hide Flash.Erase, Flash.Fill, Flash.Commit, Flash.Valid, FlushPage, InFlight, Streamed, Low, High;
    OpenPageBounds(e.flash, mem, data, e.pageStart);
    FillNext(e.flash, mem, 0, data, e.pageStart, w);
    FlushAfterFill(e.(flash := e.flash.Fill(e.addr, w), addr := e.addr + 2), mem, data + [Low(w), High(w)]);
  }

  lemma EvenData(s: Parser, mem: seq<Byte>, data: seq<Byte>)
    requires Streamed(s.flash, s.pageStart, s.pageDirty, mem, data)
    ensures |data| % 2 == 0
  {
  }

  lemma OpenPageBounds(f: Flash, mem: seq<Byte>, data: seq<Byte>, p: nat)
    requires InFlight(f, mem, 0, data, p)
    ensures f.Valid() && p <= |data| <= p + f.page
  {
  }

  // Records.

  /** A record as text: colon, byte count, address, type, data and the checksum byte `check`. */
  function Record(recordType: Byte, addr: Word, data: seq<Byte>, check: Byte): string
    requires |data| < 0x100
  {
    ":" + HexBytes([|data|, High(addr), Low(addr), recordType]) + HexBytes(data) + HexByte(check)
  }

  /** The checksum byte that makes the bytes of a record without data sum to zero. */
  function EmptyCheck(recordType: Byte, addr: Word): Byte {
    (0x100 - (High(addr) + Low(addr) + recordType) % 0x100) % 0x100
  }

  /** Inside a record and between two bytes. */
  ghost predicate InRecord(s: Parser) {
    s.Valid() && s.state != WaitLine && !s.readMSB
  }

  /** One more byte of a record. */
  lemma NextByte(s: Parser, bs: seq<Byte>, b: Byte)
    requires s.Valid() && InRecord(Run(s, HexBytes(bs)))
    ensures Run(s, HexBytes(bs + [b])) == RecordByte(Run(s, HexBytes(bs)).(data := b))
  {
    hide Run, RecordByte, HexByte;
    assert (bs + [b])[..|bs|] == bs;
    RunAppend(s, HexBytes(bs), HexByte(b));
    TwoDigits(Run(s, HexBytes(bs)), b);
  }

  /** The state behind the header of a record. */
  ghost function Header(s: Parser, len: Byte, addr: Word, recordType: Byte): Parser {
    s.(data := recordType, readMSB := false, recordType := recordType, dataRem := len, addr := s.base + addr,
       checksum := (len + High(addr) + Low(addr) + recordType) % 0x100,
       state := if len != 0 then ReadData else Checksum)
  }

  lemma SumStep(x: nat, b: Byte)
    ensures Sum8(x % 0x100, b) == (x + b) % 0x100
  {
    var q, r := x / 0x100, x % 0x100;
    if r + b < 0x100 {
      assert x + b == 0x100 * q + (r + b);
    } else {
      assert x + b == 0x100 * (q + 1) + (r + b - 0x100);
    }
  }

  lemma SumFour(a: Byte, b: Byte, c: Byte, d: Byte)
    ensures Sum8(Sum8(Sum8(Sum8(0, a), b), c), d) == (a + b + c + d) % 0x100
  {
    hide Sum8;
    SumStep(0, a);
    SumStep(a, b);
    SumStep(a + b, c);
    SumStep(a + b + c, d);
  }

  lemma WordAddress(base: nat, w: Word)
    ensures base + 0x100 * High(w) + Low(w) == base + w
  {
  }

  lemma Colon(s: Parser)
    requires s.Valid()
    ensures Run(s, ":") == StartLine(s).(state := ByteCount)
  {
    assert ":"[..0] == "";
    assert Run(s, "") == s;
  }

  /** Whatever the parser was doing, a header starts a record. */
  lemma ParseHeader(s: Parser, len: Byte, addr: Word, recordType: Byte)
    requires s.Valid()
    ensures Run(s, ":" + HexBytes([len, High(addr), Low(addr), recordType])) == Header(s, len, addr, recordType)
  {
    hide High, Low, HexBytes, Run, Sum8;
    var h := [len, High(addr), Low(addr), recordType];
    var t := StartLine(s).(state := ByteCount);
    Colon(s);
    RunAppend(s, ":", HexBytes(h));
    FourBytes(t, len, High(addr), Low(addr), recordType);
    SumFour(len, High(addr), Low(addr), recordType);
    WordAddress(s.base, addr);
  }

  lemma NothingRead(s: Parser)
    requires s.Valid()
    ensures Run(s, HexBytes([])) == s
  {
  }

  lemma FourBytes(t: Parser, a: Byte, b: Byte, c: Byte, d: Byte)
    requires t.Valid() && t.state == ByteCount && !t.readMSB && t.checksum == 0
    ensures Run(t, HexBytes([a, b, c, d])) ==
      t.(data := d, recordType := d, dataRem := a, addr := t.addr + 0x100 * b + c,
         checksum := Sum8(Sum8(Sum8(Sum8(0, a), b), c), d),
         state := if a != 0 then ReadData else Checksum)
  {
    hide Run, HexBytes, DataByte, FlushPage, Sum8, Flash.Valid;
    NothingRead(t);
    NextByte(t, [], a);
    assert [] + [a] == [a];
    var t1 := t.(data := a, dataRem := a, state := AddressHigh, checksum := Sum8(0, a));
    assert Run(t, HexBytes([a])) == t1;
    NextByte(t, [a], b);
    assert [a] + [b] == [a, b];
    var t2 := t1.(data := b, state := AddressLow, addr := t.addr + 0x100 * b, checksum := Sum8(t1.checksum, b));
    assert Run(t, HexBytes([a, b])) == t2;
    NextByte(t, [a, b], c);
    assert [a, b] + [c] == [a, b, c];
    var t3 := t2.(data := c, state := RecordType, addr := t2.addr + c, checksum := Sum8(t2.checksum, c));
    assert Run(t, HexBytes([a, b, c])) == t3;
    NextByte(t, [a, b, c], d);
    assert [a, b, c] + [d] == [a, b, c, d];
  }

  /** Inside a data record that continues the image behind `data`, `rem` bytes to come. */
  ghost predicate InData(s: Parser, mem: seq<Byte>, data: seq<Byte>, rem: nat) {
    && Streamed(s.flash, s.pageStart, s.pageDirty, mem, data)
    && s.state == (if rem == 0 then Checksum else ReadData)
    && !s.readMSB && s.recordType == TYPE_DATA && s.base == 0
    && s.addr == |data| && s.dataRem == rem
  }

  lemma StreamedValid(s: Parser, mem: seq<Byte>, data: seq<Byte>)
    requires Streamed(s.flash, s.pageStart, s.pageDirty, mem, data)
    ensures s.Valid()
  {
  }

  /** Two data bytes make a word of the image. */
  lemma DataWord(s: Parser, mem: seq<Byte>, data: seq<Byte>, rem: nat, lo: Byte, hi: Byte)
    requires InData(s, mem, data, rem) && rem % 2 == 0 && rem >= 2
    requires |data| < s.bootStart <= |mem|
    ensures s.Valid()
    ensures var r := RecordByte(RecordByte(s.(data := lo)).(data := hi));
            && InRecord(RecordByte(s.(data := lo)))
            && InData(r, mem, data + [lo, hi], rem - 2)
            && r.bootStart == s.bootStart && r.run == s.run
  {
    hide Streamed, StoreWord, RecordByte, Sum8, Flash.Valid, Low, High, MakeWord;
    StreamedValid(s, mem, data);
    OddAfter(rem);
    var t := s.(data := lo, prevData := lo, dataRem := rem - 1, checksum := Sum8(s.checksum, lo));
    FirstByte(s.(data := lo), rem);
    var u := t.(data := hi, dataRem := rem - 2, checksum := Sum8(t.checksum, hi));
    SecondByte(t.(data := hi), rem - 1);
    StoreNext(u, mem, data, MakeWord(lo, hi));
    WordBytes(lo, hi);
  }

  lemma FirstByte(s: Parser, rem: Byte)
    requires s.Valid() && s.state == ReadData && s.dataRem == rem && s.addr < s.bootStart
    requires rem % 2 == 0 && rem >= 2
    ensures RecordByte(s) == s.(prevData := s.data, dataRem := rem - 1, checksum := Sum8(s.checksum, s.data))
  {
    hide StoreWord, Sum8, Flash.Valid, MakeWord;
    OddAfter(rem);
  }

  lemma SecondByte(s: Parser, rem: Byte)
    requires s.Valid() && s.state == ReadData && s.dataRem == rem && s.addr < s.bootStart
    requires rem % 2 == 1 && s.recordType == TYPE_DATA
    ensures var u := StoreWord(s.(dataRem := rem - 1, checksum := Sum8(s.checksum, s.data)),
                               MakeWord(s.prevData, s.data));
            RecordByte(s) == if u.dataRem == 0 then u.(state := Checksum) else u
  {
    hide StoreWord, Sum8, Flash.Valid, MakeWord;
    assert (rem - 1) % 0x100 == rem - 1;
  }

  lemma OddAfter(rem: Byte)
    requires rem % 2 == 0 && rem >= 2
    ensures (rem - 1) % 0x100 == rem - 1 && (rem - 1) % 2 == 1
    ensures (rem - 2) % 0x100 == rem - 2 && (rem - 2) % 2 == 0
  {
  }

  /** The data bytes of a record extend the image. */
  lemma {:induction false} DataBytes(s: Parser, mem: seq<Byte>, done: seq<Byte>, bs: seq<Byte>, rest: nat)
    requires |bs| % 2 == 0 && rest % 2 == 0
    requires s.Valid() && InData(s, mem, done, |bs| + rest)
    requires |done| + |bs| <= s.bootStart <= |mem|
    ensures var r := Run(s, HexBytes(bs));
            InData(r, mem, done + bs, rest) && r.bootStart == s.bootStart && r.run == s.run
    decreases |bs|
  {
    hide Run, HexBytes, RecordByte, InData;
    if bs == [] {
      NothingRead(s);
      assert done + bs == done;
    } else {
      var front, lo, hi := bs[..|bs| - 2], bs[|bs| - 2], bs[|bs| - 1];
      DataBytes(s, mem, done, front, rest + 2);
      var t := Run(s, HexBytes(front));
      InDataInRecord(t, mem, done + front, rest + 2);
      DataWord(t, mem, done + front, rest + 2, lo, hi);
      NextByte(s, front, lo);
      NextByte(s, front + [lo], hi);
      assert front + [lo] + [hi] == bs;
      assert done + front + [lo, hi] == done + bs;
    }
  }

  lemma InDataInRecord(s: Parser, mem: seq<Byte>, data: seq<Byte>, rem: nat)
    requires InData(s, mem, data, rem)
    ensures InRecord(s)
  {
  }

  /** Whatever its value, the checksum byte of a data record leaves the image alone. */
  lemma DataChecksum(s: Parser, mem: seq<Byte>, data: seq<Byte>)
    requires InData(s, mem, data, 0)
    ensures s.Valid() && RecordByte(s) == s
  {
    hide Flash.Commit, InFlight, Overlay, Offset;
    if s.pageDirty {
      AlignedOpenPage(s.flash, mem, data, s.pageStart);
      PageBehind(s.pageStart, |data|, s.flash.page);
    }
  }

  lemma AlignedOpenPage(f: Flash, mem: seq<Byte>, data: seq<Byte>, p: nat)
    requires InFlight(f, mem, 0, data, p)
    ensures f.Valid() && Aligned(p, f.page)
  {
  }

  /** Between records: everything so far is streamed and no base address is set. */
  ghost predicate BetweenRecords(s: Parser, mem: seq<Byte>, data: seq<Byte>) {
    Streamed(s.flash, s.pageStart, s.pageDirty, mem, data) && s.base == 0
  }

  /** A data record that continues the image. */
  lemma DataRecord(s: Parser, mem: seq<Byte>, done: seq<Byte>, bs: seq<Byte>, check: Byte)
    requires s.Valid() && BetweenRecords(s, mem, done)
    requires |bs| % 2 == 0 && |bs| < 0x100 && |done| < 0x1_0000
    requires |done| + |bs| <= s.bootStart <= |mem|
    ensures var r := Run(s, Record(TYPE_DATA, |done|, bs, check));
            BetweenRecords(r, mem, done + bs) && r.bootStart == s.bootStart && r.run == s.run
  {
    hide Run, HexBytes, HexByte, RecordByte, Streamed, High, Low;
    var header := ":" + HexBytes([|bs|, High(|done|), Low(|done|), TYPE_DATA]);
    ParseHeader(s, |bs|, |done|, TYPE_DATA);
    RunAppend(s, header, HexBytes(bs));
    DataBytes(Header(s, |bs|, |done|, TYPE_DATA), mem, done, bs, 0);
    RunAppend(s, header + HexBytes(bs), HexByte(check));
    var t := Run(s, header + HexBytes(bs));
    InDataInRecord(t, mem, done + bs, 0);
    TwoDigits(t, check);
    DataChecksum(t.(data := check), mem, done + bs);
  }

  // Files.

  /** A data record of a file: its bytes, and the checksum byte it carries. */
  datatype Line = Line(data: seq<Byte>, check: Byte)

  /** The bytes that the data records describe. */
  ghost function Image(lines: seq<Line>): seq<Byte>
    decreases |lines|
  {
    if lines == [] then [] else Image(lines[..|lines| - 1]) + lines[|lines| - 1].data
  }

  /** Every record holds whole words and starts within the reach of a 16-bit address. */
  ghost predicate Contiguous(lines: seq<Line>)
    decreases |lines|
  {
    lines == [] ||
    (var last := lines[|lines| - 1];
     && Contiguous(lines[..|lines| - 1])
     && |last.data| % 2 == 0 && |last.data| < 0x100 && |Image(lines[..|lines| - 1])| < 0x1_0000)
  }

  /** The data records of the file, each at the address where the one before it ended. */
  ghost function LinesText(lines: seq<Line>): string
    requires Contiguous(lines)
    decreases |lines|
  {
    if lines == [] then ""
    else
      var front, last := lines[..|lines| - 1], lines[|lines| - 1];
      LinesText(front) + Record(TYPE_DATA, |Image(front)|, last.data, last.check)
  }

  /** The whole file, closed by an end-of-file record with address field `end`. */
  ghost function FileText(lines: seq<Line>, end: Word): string
    requires Contiguous(lines)
  {
    LinesText(lines) + Record(TYPE_END_OF_FILE, end, [], EmptyCheck(TYPE_END_OF_FILE, end))
  }

  lemma {:induction false} DataRecords(bootStart: nat, f: Flash, lines: seq<Line>)
    requires f.Valid() && f.Blank() && Contiguous(lines)
    requires |Image(lines)| <= bootStart <= |f.mem|
    ensures var r := Run(Start(bootStart, f), LinesText(lines));
            && r.Valid() && BetweenRecords(r, f.mem, Image(lines))
            && r.bootStart == bootStart && r.run && r.flash.page == f.page
    decreases |lines|
  {
    hide Run, Record, BetweenRecords;
    var s := Start(bootStart, f);
    if lines == [] {
      NothingStreamed(bootStart, f);
    } else {
      var front, last := lines[..|lines| - 1], lines[|lines| - 1];
      DataRecords(bootStart, f, front);
      RunAppend(s, LinesText(front), Record(TYPE_DATA, |Image(front)|, last.data, last.check));
      DataRecord(Run(s, LinesText(front)), f.mem, Image(front), last.data, last.check);
    }
  }

  lemma NothingStreamed(bootStart: nat, f: Flash)
    requires f.Valid() && f.Blank()
    ensures Run(Start(bootStart, f), "") == Start(bootStart, f)
    ensures BetweenRecords(Start(bootStart, f), f.mem, [])
  {
    assert f.mem == Overlay(f.mem, 0, [], 0);
  }

  lemma EndHeader(s: Parser, end: Word)
    requires s.Valid() && s.base == 0
    ensures var t := Header(s, 0, end, TYPE_END_OF_FILE).(data := EmptyCheck(TYPE_END_OF_FILE, end));
            Run(s, Record(TYPE_END_OF_FILE, end, [], EmptyCheck(TYPE_END_OF_FILE, end))) == FlushPage(t).(run := false)
  {
    hide Run, HexByte, FlushPage, High, Low, Flash.Valid;
    var check := EmptyCheck(TYPE_END_OF_FILE, end);
    var header := ":" + HexBytes([0, High(end), Low(end), TYPE_END_OF_FILE]);
    ParseHeader(s, 0, end, TYPE_END_OF_FILE);
    assert header + HexBytes([]) == header;
    RunAppend(s, header, HexByte(check));
    TwoDigits(Header(s, 0, end, TYPE_END_OF_FILE), check);
    FlushKeeps(Header(s, 0, end, TYPE_END_OF_FILE).(data := check));
  }

  lemma FlushKeeps(s: Parser)
    requires s.Valid()
    ensures FlushPage(s).recordType == s.recordType
  {
  }

  /** End of the last page that an image of n bytes at address 0 touches. */
  ghost function ImageEnd(n: nat, page: nat): nat
    requires page == 128 || page == 256
  {
    if Aligned(n, page) then n else n - Offset(n, page) + page
  }

  /** The end-of-file record commits the last page: there is none open, or the record's address
      field lies in another page. */
  ghost predicate EndFlushes(n: nat, end: Word, page: nat)
    requires page == 128 || page == 256
  {
    Aligned(n, page) || end - Offset(end, page) != n - Offset(n, page)
  }

  /** The last page of the image, cut off from the rest of it. */
  ghost function LastPage(image: seq<Byte>, page: nat): seq<Byte>
    requires page == 128 || page == 256
  {
    image[|image| - Offset(|image|, page)..]
  }

  /** What the end-of-file record leaves in flash. */
  lemma EndRecord(s: Parser, mem: seq<Byte>, image: seq<Byte>, end: Word)
    requires s.Valid() && BetweenRecords(s, mem, image)
    ensures var r := Run(s, Record(TYPE_END_OF_FILE, end, [], EmptyCheck(TYPE_END_OF_FILE, end)));
            var page := s.flash.page;
            var p := |image| - Offset(|image|, page);
            && !r.run
            && r.flash.mem == if EndFlushes(|image|, end, page)
                              then Overlay(mem, 0, image, ImageEnd(|image|, page))
                              else Overlay(mem, 0, image[..p], p + page)
  {
    hide Run, Record, Header, Overlay, Flash.Commit, Offset;
    EndHeader(s, end);
    HeaderKeeps(s, end);
    if s.pageDirty {
      AlignedOpenPage(s.flash, mem, image, s.pageStart);
      PageBehind(s.pageStart, |image|, s.flash.page);
      CommitOpen(s.flash, mem, 0, image, s.pageStart);
    }
  }

  lemma HeaderKeeps(s: Parser, end: Word)
    requires s.base == 0
    ensures var h := Header(s, 0, end, TYPE_END_OF_FILE);
            h.flash == s.flash && h.pageStart == s.pageStart && h.pageDirty == s.pageDirty && h.addr == end
  {
    hide High, Low;
  }

  /** An open page that was never committed matches the image only if the image is blank there. */
  lemma UnflushedPage(mem: seq<Byte>, image: seq<Byte>, page: nat)
    requires page == 128 || page == 256
    requires !Aligned(|image|, page) && |image| <= |mem|
    ensures var p := |image| - Offset(|image|, page);
            Overlay(mem, 0, image[..p], p + page) == Overlay(mem, 0, image, ImageEnd(|image|, page))
            <==> LastPage(image, page) == Blanks(Offset(|image|, page))
  {
    var p := |image| - Offset(|image|, page);
    var a, b := Overlay(mem, 0, image[..p], p + page), Overlay(mem, 0, image, ImageEnd(|image|, page));
    var last := LastPage(image, page);
    if a == b {
      forall i | 0 <= i < |last| ensures last[i] == BLANK {
        assert a[p + i] == b[p + i];
      }
    }
    if last == Blanks(|last|) {
      forall i | 0 <= i < |mem| ensures a[i] == b[i] {
        if p <= i < |image| {
          assert image[i] == last[i - p];
        }
      }
    }
  }

  /** Streaming refinement: for every text that spells a file of contiguous data records, with any
      noise in between, the boot loader ends, and the flash holds the image, an erased rest of the
      last page and everything else unchanged, exactly when the end-of-file record flushes the last
      page or the image is blank there. */
  lemma StreamedFile(bootStart: nat, f: Flash, lines: seq<Line>, end: Word, text: string)
    requires f.Valid() && f.Blank() && Contiguous(lines)
    requires |Image(lines)| <= bootStart <= |f.mem|
    requires WithoutNoise(text) == FileText(lines, end)
    ensures var r := Run(Start(bootStart, f), text);
            var image, page := Image(lines), f.page;
            && !r.run
            && (r.flash.mem == Overlay(f.mem, 0, image, ImageEnd(|image|, page))
                <==> EndFlushes(|image|, end, page) || LastPage(image, page) == Blanks(Offset(|image|, page)))
            && SameFrom(r.flash.mem, f.mem, ImageEnd(|image|, page))
  {
    hide Run, Overlay, Offset, Start, WithoutNoise, FileText;
    var image := Image(lines);
    FileEnds(bootStart, f, lines, end, text);
    if !EndFlushes(|image|, end, f.page) {
      UnflushedPage(f.mem, image, f.page);
    }
    OverlayTail(f.mem, image, ImageEnd(|image|, f.page));
    OverlayTail(f.mem, image[..|image| - Offset(|image|, f.page)], ImageEnd(|image|, f.page));
  }

  /** What a whole file leaves in flash. */
  lemma FileEnds(bootStart: nat, f: Flash, lines: seq<Line>, end: Word, text: string)
    requires f.Valid() && f.Blank() && Contiguous(lines)
    requires |Image(lines)| <= bootStart <= |f.mem|
    requires WithoutNoise(text) == FileText(lines, end)
    ensures var r := Run(Start(bootStart, f), text);
            var image, page := Image(lines), f.page;
            var p := |image| - Offset(|image|, page);
            && !r.run
            && r.flash.mem == if EndFlushes(|image|, end, page)
                              then Overlay(f.mem, 0, image, ImageEnd(|image|, page))
                              else Overlay(f.mem, 0, image[..p], p + page)
  {
    hide Run, Record, Overlay, Offset, BetweenRecords, EndFlushes, ImageEnd, WithoutNoise, LinesText, Image, Contiguous;
    var s := Start(bootStart, f);
    var t := Run(s, LinesText(lines));
    DataRecords(bootStart, f, lines);
    NoiseIsIgnored(s, text);
    RunAppend(s, LinesText(lines), Record(TYPE_END_OF_FILE, end, [], EmptyCheck(TYPE_END_OF_FILE, end)));
    EndRecord(t, f.mem, Image(lines), end);
  }

  lemma OverlayTail(mem: seq<Byte>, data: seq<Byte>, end: nat)
    requires |data| <= end
    ensures SameFrom(Overlay(mem, 0, data, end), mem, end)
  {
  }

  /** The usual end-of-file record, with address zero: an image of at least one page always arrives,
      and a shorter one only if it is blank. */
  lemma StreamedImage(bootStart: nat, f: Flash, lines: seq<Line>, text: string)
    requires f.Valid() && f.Blank() && Contiguous(lines)
    requires |Image(lines)| <= bootStart <= |f.mem|
    requires WithoutNoise(text) == FileText(lines, 0)
    ensures var r := Run(Start(bootStart, f), text);
            var image := Image(lines);
            && !r.run
            && (r.flash.mem == Overlay(f.mem, 0, image, ImageEnd(|image|, f.page))
                <==> |image| >= f.page || image == Blanks(|image|))
  {
    hide Run, Overlay, ImageEnd, WithoutNoise, FileText;
    StreamedFile(bootStart, f, lines, 0, text);
    FirstPageOnly(Image(lines), f.page);
  }

  /** A file that fails: one word below a page. The page is erased, and the word is lost. */
  lemma ShortFileLost(bootStart: nat, f: Flash, lo: Byte, hi: Byte, check: Byte, text: string)
    requires f.Valid() && f.Blank() && 2 <= bootStart <= |f.mem|
    requires Contiguous([Line([lo, hi], check)]) && WithoutNoise(text) == FileText([Line([lo, hi], check)], 0)
    ensures var r := Run(Start(bootStart, f), text);
            !r.run && f.page <= |f.mem| && r.flash.mem == Blanks(f.page) + f.mem[f.page..]
  {
    hide Run, Start, WithoutNoise, FileText, Contiguous, Offset;
    OneLine(Line([lo, hi], check));
    PageBaseAligned(f, 0) by { ZeroAligned(f.page); }
    TwoInside(f.page);
    FileEnds(bootStart, f, [Line([lo, hi], check)], 0, text);
  }

  lemma OneLine(line: Line)
    ensures Image([line]) == line.data
  {
    assert [line][..0] == [];
    assert Image([]) == [];
  }

  lemma TwoInside(page: nat)
    requires page == 128 || page == 256
    ensures Offset(2, page) == 2 && Offset(0, page) == 0
  {
  }

  lemma FirstPageOnly(image: seq<Byte>, page: nat)
    requires page == 128 || page == 256
    ensures EndFlushes(|image|, 0, page) || LastPage(image, page) == Blanks(Offset(|image|, page))
            <==> |image| >= page || image == Blanks(|image|)
  {
    if |image| < page {
      assert Offset(|image|, page) == |image|;
      assert LastPage(image, page) == image;
    }
  }
}
