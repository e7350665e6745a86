/** The host loader's Intel HEX reader: one line at a time into an image and a mask. The class in
    HidLoader.dfy is the imperative form. */
module HexFile {
  import opened Bytes
  import opened HidModel

  /** What the reader keeps while it reads: image and mask, the extended address, the number of data
      bytes so far, and whether the end record was seen. */
  datatype Reader = Reader(image: Image, ext: nat, count: nat, ended: bool) {
    ghost predicate Valid() { image.Valid() }
  }

  /** A hex digit in either case, or -1. */
  function DigitValue(c: char): (v: int)
    ensures -1 <= v < 16
  {
    if '0' <= c <= '9' then c as int - '0' as int
    else if 'A' <= c <= 'F' then 10 + (c as int - 'A' as int)
    else if 'a' <= c <= 'f' then 10 + (c as int - 'a' as int)
    else -1
  }

  function ScanMore(s: string, pos: nat, width: nat, acc: nat): nat
    decreases width
  {
    if width == 0 || pos >= |s| || DigitValue(s[pos]) < 0 then acc
    else ScanMore(s, pos + 1, width - 1, 16 * acc + DigitValue(s[pos]))
  }

  /** sscanf with "%02x" or "%04x" at a position: at least one and at most `width` hex digits. */
  function Scan(s: string, pos: nat, width: nat): Option<nat> {
    if width == 0 || pos >= |s| || DigitValue(s[pos]) < 0 then None else Some(ScanMore(s, pos, width, 0))
  }

  /** Sum of the bytes of a 16-bit number. */
  function ByteSum(w: nat): nat { w / 0x100 % 0x100 + w % 0x100 }

  /** Stores a byte and marks it as defined by the file. */
  function Put(h: Reader, a: nat, b: Byte): (r: Reader)
    requires h.Valid() && a < MAX_MEMORY_SIZE
    ensures r.Valid()
  {
    h.(image := Image(h.image.bytes[a := b], h.image.mask[a := true]))
  }

  datatype Stored = Stored(reader: Reader, ok: bool, sum: nat)

  /** The data loop of a line, from the k-th byte on: each byte goes to the image at `base` + k. */
  function StoreData(h: Reader, line: string, base: nat, len: nat, k: nat, sum: nat): (r: Stored)
    requires h.Valid() && k <= len && base + len < MAX_MEMORY_SIZE
    ensures r.reader.Valid() && r.reader.ended == h.ended && r.reader.ext == h.ext && r.reader.count == h.count
    decreases len - k
  {
    if k == len then Stored(h, true, sum)
    else
      match Scan(line, 9 + 2 * k, 2)
      case None => Stored(h, false, sum)
      case Some(i) =>
        StoreData(Put(h, base + k, i % 0x100), line, base, len, k + 1, sum + i % 0x100)
  }

  /** The checksum test: all bytes of the record add up to zero. */
  predicate SumsToZero(sum: nat, check: nat) { (sum % 0x100 + check % 0x100) % 0x100 == 0 }

  /** An extended address record with two data bytes; a faulty one is ignored. */
  function ExtendedAddress(h: Reader, line: string, sum: nat, linear: bool): (r: Reader)
    requires h.Valid()
    ensures r.Valid() && r == h.(ext := r.ext)
  {
    match Scan(line, 9, 4)
    case None => h
    case Some(i) =>
      match Scan(line, 13, 2)
      case None => h
      case Some(check) =>
        if SumsToZero(sum + ByteSum(i), check) then h.(ext := if linear then i * 0x1_0000 else i * 0x10) else h
  }

  datatype Parsed = Parsed(reader: Reader, ok: bool)

  /** A data record. */
  function DataRecord(h: Reader, line: string, len: nat, addr: nat, sum: nat): (r: Parsed)
    requires h.Valid() && addr + h.ext + len < MAX_MEMORY_SIZE
    ensures r.reader.Valid() && r.reader.ended == h.ended
  {
    var s := StoreData(h.(count := h.count + len), line, addr + h.ext, len, 0, sum);
    if !s.ok then Parsed(s.reader, false)
    else
      match Scan(line, 9 + 2 * len, 2)
      case None => Parsed(s.reader, false)
      case Some(check) => Parsed(s.reader, SumsToZero(s.sum, check))
  }

  /** A line whose fields have been read. */
  function ParseFields(h: Reader, line: string, len: nat, addr: nat, code: nat): (r: Parsed)
    requires h.Valid()
    ensures r.reader.Valid()
  {
    var sum := len % 0x100 + ByteSum(addr) + code % 0x100;
    if addr + h.ext + len >= MAX_MEMORY_SIZE then Parsed(h, false)
    else if code == 0 then DataRecord(h, line, len, addr, sum)
    else if code == 1 then Parsed(h.(ended := true), true)
    else if code == 2 && len == 2 then Parsed(ExtendedAddress(h, line, sum, false), true)
    else if code == 4 && len == 2 then Parsed(ExtendedAddress(h, line, sum, true), true)
    else Parsed(h, true)
  }

  /** parse_hex_line. */
  function ParseLine(h: Reader, line: string): (r: Parsed)
    requires h.Valid()
    ensures r.reader.Valid()
  {
    if |line| < 11 || line[0] != ':' then Parsed(h, false)
    else
      match Scan(line, 1, 2)
      case None => Parsed(h, false)
      case Some(len) =>
        if |line| < 11 + 2 * len then Parsed(h, false)
        else
          match Scan(line, 3, 4)
          case None => Parsed(h, false)
          case Some(addr) =>
            match Scan(line, 7, 2)
            case None => Parsed(h, false)
            case Some(code) => ParseFields(h, line, len, addr, code)
  }

  /** The reader before the first line: a blank image, nothing marked. */
  function Fresh(): (h: Reader)
    ensures h.Valid()
  {
    Reader(Image(Blanks(MAX_MEMORY_SIZE), seq(MAX_MEMORY_SIZE, _ => false)), 0, 0, false)
  }

  /** The line loop of read_intel_hex: the lines up to the end record, or to the first faulty line. */
  function ReadLines(h: Reader, lines: seq<string>): (r: Parsed)
    requires h.Valid()
    ensures r.reader.Valid()
    decreases |lines|
  {
    if lines == [] then Parsed(h, true)
    else if lines[0] == "" then ReadLines(h, lines[1..])
    else
      var p := ParseLine(h, lines[0]);
      if !p.ok || p.reader.ended then p else ReadLines(p.reader, lines[1..])
  }

  /** read_intel_hex: the number of data bytes, or -2. */
  function Read(lines: seq<string>): (r: (Image, int)) {
    var p := ReadLines(Fresh(), lines);
    (p.reader.image, if p.ok then p.reader.count else -2)
  }
}
