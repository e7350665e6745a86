/** Printing and reading HEX files: the reader recovers the image that the records describe, and
    accepts no data record whose bytes do not add up to zero. */
module HexAgreement {
  import opened Bytes
  import opened FlashMemory
  import opened HidModel
  import opened HexFile
  import P = PrinterStream
  import H = HidProgramming

  /** A record: data at a 16-bit address, an extended segment or linear address, or end of file. */
  datatype Record = Data(addr: Word, data: seq<Byte>) | Segment(value: Word) | Linear(value: Word) | End

  function Sum(bs: seq<Byte>): nat
    decreases |bs|
  {
    if bs == [] then 0 else Sum(bs[..|bs| - 1]) + bs[|bs| - 1]
  }

  /** The bytes of a record before the checksum. */
  function Body(r: Record): seq<Byte>
    requires r.Data? ==> |r.data| < 0x100
  {
    match r
    case Data(addr, data) => [|data|, High(addr), Low(addr), 0] + data
    case Segment(v) => [2, 0, 0, 2, High(v), Low(v)]
    case Linear(v) => [2, 0, 0, 4, High(v), Low(v)]
    case End => [0, 0, 0, 1]
  }

  /** The checksum byte that makes all bytes add up to zero. */
  function Check(bs: seq<Byte>): Byte { (0x100 - Sum(bs) % 0x100) % 0x100 }

  /** A record as a line of text. */
  function Print(r: Record, eol: string): string
    requires r.Data? ==> |r.data| < 0x100
  {
    ":" + P.HexBytes(Body(r) + [Check(Body(r))]) + eol
  }

  // Scanning printed bytes.

  lemma DigitBack(v: int)
    requires 0 <= v < 16
    ensures DigitValue(P.HexDigit(v)) == v
  {
  }

  lemma {:induction false} HexBytesAt(bs: seq<Byte>, k: nat)
    requires k < |bs|
    ensures |P.HexBytes(bs)| == 2 * |bs|
    ensures P.HexBytes(bs)[2 * k] == P.HexDigit(bs[k] / 16) && P.HexBytes(bs)[2 * k + 1] == P.HexDigit(bs[k] % 16)
    decreases |bs|
  {
    hide P.HexDigit;
    var front := bs[..|bs| - 1];
    if front == [] {
      assert P.HexBytes(front) == "";
    } else {
      HexBytesAt(front, if k < |front| then k else 0);
    }
  }

  /** The character at offset j of the k-th byte of a printed line. */
  lemma LineDigits(bs: seq<Byte>, eol: string, k: nat)
    requires k < |bs|
    ensures var line := ":" + P.HexBytes(bs) + eol;
            && |line| == 1 + 2 * |bs| + |eol|
            && line[1 + 2 * k] == P.HexDigit(bs[k] / 16) && line[2 + 2 * k] == P.HexDigit(bs[k] % 16)
  {
    hide P.HexDigit, P.HexBytes;
    HexBytesAt(bs, k);
  }

  /** Two more digits of a number. */
  lemma TwoDigits(s: string, pos: nat, x: int, y: int, w: nat, acc: nat)
    requires pos + 1 < |s| && DigitValue(s[pos]) == x && DigitValue(s[pos + 1]) == y && x >= 0 && y >= 0
    ensures ScanMore(s, pos, w + 2, acc) == ScanMore(s, pos + 2, w, 16 * (16 * acc + x) + y)
  {
    hide DigitValue;
    assert ScanMore(s, pos, w + 2, acc) == ScanMore(s, pos + 1, w + 1, 16 * acc + x);
  }

  lemma ScanByte(bs: seq<Byte>, eol: string, k: nat)
    requires k < |bs|
    ensures Scan(":" + P.HexBytes(bs) + eol, 1 + 2 * k, 2) == Some(bs[k])
  {
    hide P.HexDigit, P.HexBytes, DigitValue;
    LineDigits(bs, eol, k);
    DigitBack(bs[k] / 16);
    DigitBack(bs[k] % 16);
    TwoDigits(":" + P.HexBytes(bs) + eol, 1 + 2 * k, bs[k] / 16, bs[k] % 16, 0, 0);
  }

  lemma ScanWord(bs: seq<Byte>, eol: string, k: nat)
    requires k + 1 < |bs|
    ensures Scan(":" + P.HexBytes(bs) + eol, 1 + 2 * k, 4) == Some(MakeWord(bs[k + 1], bs[k]))
  {
    hide P.HexDigit, P.HexBytes, DigitValue, ScanMore;
    var line := ":" + P.HexBytes(bs) + eol;
    LineDigits(bs, eol, k);
    LineDigits(bs, eol, k + 1);
    DigitBack(bs[k] / 16);
    DigitBack(bs[k] % 16);
    DigitBack(bs[k + 1] / 16);
    DigitBack(bs[k + 1] % 16);
    TwoDigits(line, 1 + 2 * k, bs[k] / 16, bs[k] % 16, 2, 0);
    Nibbles(0, bs[k]);
    TwoDigits(line, 3 + 2 * k, bs[k + 1] / 16, bs[k + 1] % 16, 0, bs[k]);
    Nibbles(bs[k], bs[k + 1]);
    NoMore(line, 5 + 2 * k, MakeWord(bs[k + 1], bs[k]));
  }

  lemma Nibbles(a: Byte, b: Byte)
    ensures 16 * (16 * a as int + b / 16) + b % 16 == MakeWord(b, a)
  {
  }

  lemma NoMore(s: string, pos: nat, acc: nat)
    ensures ScanMore(s, pos, 0, acc) == acc
  {
  }

  // Sums.

  lemma {:induction false} SumAppend(a: seq<Byte>, b: seq<Byte>)
    ensures Sum(a + b) == Sum(a) + Sum(b)
    decreases |b|
  {
    if b == [] {
      assert a + b == a;
    } else {
      SumAppend(a, b[..|b| - 1]);
      assert (a + b)[..|a + b| - 1] == a + b[..|b| - 1];
    }
  }

  lemma SumFour(a: Byte, b: Byte, c: Byte, d: Byte)
    ensures Sum([a, b, c, d]) == a as int + b + c + d
  {
    assert [a, b, c, d][..3] == [a, b, c] && [a, b, c][..2] == [a, b] && [a, b][..1] == [a] && [a][..0] == [];
    assert Sum([]) == 0;
    assert Sum([a]) == a;
    assert Sum([a, b]) == Sum([a]) + b;
    assert Sum([a, b, c]) == Sum([a, b]) + c;
  }

  lemma CheckCloses(n: nat)
    ensures SumsToZero(n, (0x100 - n % 0x100) % 0x100)
  {
  }

  // What records mean.

  /** The image with `data` defined from address a on. */
  ghost function Lay(image: Image, a: nat, data: seq<Byte>): (r: Image)
    requires image.Valid()
    ensures r.Valid()
  {
    Image(seq(MAX_MEMORY_SIZE, i requires 0 <= i < MAX_MEMORY_SIZE =>
            if a <= i < a + |data| then data[i - a] else image.bytes[i]),
          seq(MAX_MEMORY_SIZE, i requires 0 <= i < MAX_MEMORY_SIZE => a <= i < a + |data| || image.mask[i]))
  }

  /** The effect of a record. */
  ghost function Apply(h: Reader, r: Record): (g: Reader)
    requires h.Valid()
    ensures g.Valid()
  {
    match r
    case Data(addr, data) => h.(image := Lay(h.image, addr + h.ext, data), count := h.count + |data|)
    case Segment(v) => h.(ext := v as int * 0x10)
    case Linear(v) => h.(ext := v as int * 0x1_0000)
    case End => h.(ended := true)
  }

  /** The record lies inside the image buffer, as the reader demands of every kind of record. */
  ghost predicate Fits(h: Reader, r: Record) {
    match r
    case Data(addr, data) => |data| < 0x100 && addr + h.ext + |data| < MAX_MEMORY_SIZE
    case Segment(_) => h.ext + 2 < MAX_MEMORY_SIZE
    case Linear(_) => h.ext + 2 < MAX_MEMORY_SIZE
    case End => h.ext < MAX_MEMORY_SIZE
  }

  lemma LayOne(image: Image, a: nat, data: seq<Byte>, k: nat)
    requires image.Valid() && k < |data| && a + |data| < MAX_MEMORY_SIZE
    ensures var m := Lay(image, a, data[..k]);
            Image(m.bytes[a + k := data[k]], m.mask[a + k := true]) == Lay(image, a, data[..k + 1])
  {
  }

  /** The data loop on a printed line defines exactly the data bytes. */
  lemma {:induction false} StoreDataReads(
    h: Reader, image: Image, bs: seq<Byte>, eol: string, base: nat, data: seq<Byte>, k: nat, sum: nat)
    requires h.Valid() && image.Valid() && k <= |data| && base + |data| < MAX_MEMORY_SIZE
    requires |bs| == 5 + |data| && bs[4..4 + |data|] == data
    requires h.image == Lay(image, base, data[..k])
    ensures StoreData(h, ":" + P.HexBytes(bs) + eol, base, |data|, k, sum + Sum(data[..k])) ==
            Stored(h.(image := Lay(image, base, data)), true, sum + Sum(data))
    decreases |data| - k
  {
    hide P.HexBytes, Scan, Lay, Reader.Valid;
    var line := ":" + P.HexBytes(bs) + eol;
    if k == |data| {
      assert data[..k] == data;
    } else {
      ScanByte(bs, eol, 4 + k);
      assert bs[4 + k] == bs[4..4 + |data|][k];
      LayOne(image, base, data, k);
      assert data[..k + 1][..k] == data[..k];
      StoreDataReads(Put(h, base + k, data[k]), image, bs, eol, base, data, k + 1, sum);
    }
  }

  // Reading one printed record.

  /** The fixed fields of a printed line. */
  lemma {:induction false} Fields(h: Reader, bs: seq<Byte>, eol: string)
    requires h.Valid() && |bs| >= 5 && |bs| == 5 + bs[0] as int
    ensures var line := ":" + P.HexBytes(bs) + eol;
            ParseLine(h, line) == ParseFields(h, line, bs[0], MakeWord(bs[2], bs[1]), bs[3])
  {
    hide P.HexBytes, Scan, ParseFields, Reader.Valid, MakeWord;
    LineDigits(bs, eol, 0);
    ScanByte(bs, eol, 0);
    ScanWord(bs, eol, 1);
    ScanByte(bs, eol, 3);
  }

  lemma AddressSum(w: Word)
    ensures ByteSum(w) == High(w) + Low(w) && MakeWord(Low(w), High(w)) == w
  {
  }

  lemma BodySum(len: Byte, addr: Word, code: Byte, data: seq<Byte>)
    ensures Sum([len, High(addr), Low(addr), code] + data) == len + High(addr) + Low(addr) + code + Sum(data)
  {
    hide High, Low;
    SumAppend([len, High(addr), Low(addr), code], data);
    SumFour(len, High(addr), Low(addr), code);
  }

  lemma ReadData(h: Reader, addr: Word, data: seq<Byte>, eol: string)
    requires h.Valid() && Fits(h, Data(addr, data))
    ensures ParseLine(h, Print(Data(addr, data), eol)) == Parsed(Apply(h, Data(addr, data)), true)
  {
    hide P.HexBytes, Scan, StoreData, Lay, ParseLine, ParseFields, High, Low, MakeWord, Sum, ByteSum, SumsToZero;
    var body := Body(Data(addr, data));
    var bs := body + [Check(body)];
    var line := ":" + P.HexBytes(bs) + eol;
    Fields(h, bs, eol);
    AddressSum(addr);
    BodySum(|data|, addr, 0, data);
    CheckCloses(Sum(body));
    ScanByte(bs, eol, 4 + |data|);
    assert bs[4..4 + |data|] == data;
    StartsEmpty(h.image, addr + h.ext, data);
    StoreDataReads(h.(count := h.count + |data|), h.image, bs, eol, addr + h.ext, data, 0,
                   |data| + ByteSum(addr));
    DataFields(h, line, |data|, addr);
  }

  lemma StartsEmpty(image: Image, a: nat, data: seq<Byte>)
    requires image.Valid()
    ensures Lay(image, a, data[..0]) == image && Sum(data[..0]) == 0
  {
  }

  lemma DataFields(h: Reader, line: string, len: Byte, addr: Word)
    requires h.Valid() && addr + h.ext + len < MAX_MEMORY_SIZE
    ensures ParseFields(h, line, len, addr, 0) == DataRecord(h, line, len, addr, len + ByteSum(addr))
  {
    hide DataRecord, ByteSum, Reader.Valid;
    SmallByte(len);
  }

  lemma SmallByte(b: Byte)
    ensures b % 0x100 == b
  {
  }

  lemma ReadExtended(h: Reader, v: Word, linear: bool, eol: string)
    requires h.Valid() && h.ext + 2 < MAX_MEMORY_SIZE
    ensures var r := if linear then Linear(v) else Segment(v);
            ParseLine(h, Print(r, eol)) == Parsed(Apply(h, r), true)
  {
    hide P.HexBytes, Scan, ParseLine, High, Low, MakeWord, Sum, ByteSum, SumsToZero, Reader.Valid;
    var r := if linear then Linear(v) else Segment(v);
    var body := Body(r);
    var bs := body + [Check(body)];
    Fields(h, bs, eol);
    ZeroWord(bs[2], bs[1]);
    ZeroSum(MakeWord(bs[2], bs[1]));
    AddressSum(v);
    ScanWord(bs, eol, 4);
    ScanByte(bs, eol, 6);
    assert body == [2, 0, 0, if linear then 4 else 2] + [High(v), Low(v)];
    TwoBytes(High(v), Low(v));
    ExtendedSum(linear, High(v), Low(v));
    CheckCloses(Sum(body));
  }

  lemma ZeroWord(a: Byte, b: Byte)
    requires a == 0 && b == 0
    ensures MakeWord(a, b) == 0
  {
  }

  lemma ZeroSum(w: Word)
    requires w == 0
    ensures ByteSum(w) == 0
  {
  }

  lemma TwoBytes(a: Byte, b: Byte)
    ensures Sum([a, b]) == a as int + b
  {
    assert [a, b][..1] == [a] && [a][..0] == [];
    assert Sum([a]) == a;
  }

  lemma ExtendedSum(linear: bool, a: Byte, b: Byte)
    ensures Sum([2, 0, 0, if linear then 4 else 2] + [a, b]) == 2 + (if linear then 4 else 2) + Sum([a, b])
  {
    SumAppend([2, 0, 0, if linear then 4 else 2], [a, b]);
    SumFour(2, 0, 0, if linear then 4 else 2);
  }

  lemma ReadEnd(h: Reader, eol: string)
    requires h.Valid() && h.ext < MAX_MEMORY_SIZE
    ensures ParseLine(h, Print(End, eol)) == Parsed(Apply(h, End), true)
  {
    hide P.HexBytes, Scan, ParseLine, MakeWord, Sum, Reader.Valid;
    var bs := Body(End) + [Check(Body(End))];
    Fields(h, bs, eol);
    ZeroWord(bs[2], bs[1]);
  }

  /** The reader understands every record that fits, as it was printed. */
  lemma ReadRecord(h: Reader, r: Record, eol: string)
    requires h.Valid() && Fits(h, r)
    ensures ParseLine(h, Print(r, eol)) == Parsed(Apply(h, r), true)
  {
    hide ParseLine, Print, Apply;
    match r
    case Data(addr, data) => ReadData(h, addr, data, eol);
    case Segment(v) => ReadExtended(h, v, false, eol);
    case Linear(v) => ReadExtended(h, v, true, eol);
    case End => ReadEnd(h, eol);
  }

  // Whole files.

  /** The records applied in order. */
  ghost function Fold(h: Reader, rs: seq<Record>): (g: Reader)
    requires h.Valid()
    ensures g.Valid()
    decreases |rs|
  {
    if rs == [] then h else Fold(Apply(h, rs[0]), rs[1..])
  }

  /** Every record before the end fits, and so does the end record. */
  ghost predicate AllFit(h: Reader, rs: seq<Record>)
    requires h.Valid()
    decreases |rs|
  {
    if rs == [] then Fits(h, End) else !rs[0].End? && Fits(h, rs[0]) && AllFit(Apply(h, rs[0]), rs[1..])
  }

  /** The file: one line per record, then the end record. */
  ghost function PrintFile(rs: seq<Record>, eol: string): seq<string>
    requires forall i | 0 <= i < |rs| :: rs[i].Data? ==> |rs[i].data| < 0x100
    decreases |rs|
  {
    if rs == [] then [Print(End, eol)] else [Print(rs[0], eol)] + PrintFile(rs[1..], eol)
  }

  lemma {:induction false} ReadPrinted(h: Reader, rs: seq<Record>, eol: string, rest: seq<string>)
    requires h.Valid() && !h.ended && AllFit(h, rs)
    requires forall i | 0 <= i < |rs| :: rs[i].Data? ==> |rs[i].data| < 0x100
    ensures ReadLines(h, PrintFile(rs, eol) + rest) == Parsed(Fold(h, rs).(ended := true), true)
    decreases |rs|
  {
    hide ParseLine, Print, Lay, Reader.Valid;
    var lines := PrintFile(rs, eol) + rest;
    if rs == [] {
      ReadRecord(h, End, eol);
      NotBlank(End, eol);
    } else {
      ReadRecord(h, rs[0], eol);
      NotBlank(rs[0], eol);
      assert lines[0] == Print(rs[0], eol) && lines[1..] == PrintFile(rs[1..], eol) + rest;
      ReadPrinted(Apply(h, rs[0]), rs[1..], eol, rest);
    }
  }

  lemma NotBlank(r: Record, eol: string)
    requires r.Data? ==> |r.data| < 0x100
    ensures Print(r, eol) != ""
  {
    hide P.HexBytes;
  }

  /** Number of data bytes in the records. */
  ghost function DataBytes(rs: seq<Record>): nat
    decreases |rs|
  {
    if rs == [] then 0 else (if rs[0].Data? then |rs[0].data| else 0) + DataBytes(rs[1..])
  }

  lemma {:induction false} FoldCount(h: Reader, rs: seq<Record>)
    requires h.Valid()
    ensures Fold(h, rs).count == h.count + DataBytes(rs)
    decreases |rs|
  {
    hide Lay, Reader.Valid;
    if rs != [] {
      FoldCount(Apply(h, rs[0]), rs[1..]);
    }
  }

  /** Print and read agree: for every list of records that fit, the reader returns the number of data
      bytes and the image that the records define in order; what follows the end record is ignored. */
  lemma PrintThenRead(rs: seq<Record>, eol: string, rest: seq<string>)
    requires AllFit(Fresh(), rs)
    requires forall i | 0 <= i < |rs| :: rs[i].Data? ==> |rs[i].data| < 0x100
    ensures Read(PrintFile(rs, eol) + rest) == (Fold(Fresh(), rs).image, DataBytes(rs))
  {
    hide ReadLines, Fold, DataBytes, PrintFile, AllFit;
    ReadPrinted(Fresh(), rs, eol, rest);
    FoldCount(Fresh(), rs);
  }

  // Soundness of the checksum test.

  /** The line starts with a colon and n bytes in hex digits. */
  ghost predicate HexLine(line: string, n: nat) {
    |line| >= 1 + 2 * n && forall i | 1 <= i < 1 + 2 * n :: DigitValue(line[i]) >= 0
  }

  /** The k-th byte of a line. */
  ghost function Pair(line: string, n: nat, k: nat): Byte
    requires HexLine(line, n) && k < n
  {
    16 * DigitValue(line[1 + 2 * k]) + DigitValue(line[2 + 2 * k])
  }

  ghost function LineSum(line: string, n: nat, k: nat): nat
    requires HexLine(line, n) && k <= n
  {
    if k == 0 then 0 else LineSum(line, n, k - 1) + Pair(line, n, k - 1)
  }

  /** A data record of n bytes: length, address, type, data and checksum. */
  ghost predicate IsData(line: string, n: nat) {
    n >= 5 && HexLine(line, n) && Pair(line, n, 0) as int + 5 == n && Pair(line, n, 3) == 0
  }

  lemma ScanPair(line: string, n: nat, k: nat)
    requires HexLine(line, n) && k < n
    ensures Scan(line, 1 + 2 * k, 2) == Some(Pair(line, n, k))
  {
    hide DigitValue;
    TwoDigits(line, 1 + 2 * k, DigitValue(line[1 + 2 * k]), DigitValue(line[2 + 2 * k]), 0, 0);
  }

  lemma ScanPairs(line: string, n: nat, k: nat)
    requires HexLine(line, n) && k + 1 < n
    ensures Scan(line, 1 + 2 * k, 4) == Some(MakeWord(Pair(line, n, k + 1), Pair(line, n, k)))
  {
    hide DigitValue, ScanMore;
    var p := 1 + 2 * k;
    TwoDigits(line, p, DigitValue(line[p]), DigitValue(line[p + 1]), 2, 0);
    TwoDigits(line, p + 2, DigitValue(line[p + 2]), DigitValue(line[p + 3]), 0, Pair(line, n, k));
    NoMore(line, p + 4, MakeWord(Pair(line, n, k + 1), Pair(line, n, k)));
  }

  /** The data loop adds up the data bytes. */
  lemma {:induction false} StoreDataSum(h: Reader, line: string, n: nat, base: nat, len: nat, k: nat, sum: nat)
    requires h.Valid() && k <= len && base + len < MAX_MEMORY_SIZE && n == 5 + len && HexLine(line, n)
    ensures var s := StoreData(h, line, base, len, k, sum);
            s.ok && s.sum + LineSum(line, n, 4 + k) == sum + LineSum(line, n, 4 + len)
    decreases len - k
  {
    hide HexLine, Scan, Pair, Reader.Valid;
    if k < len {
      ScanPair(line, n, 4 + k);
      var b := Pair(line, n, 4 + k);
      StoreDataSum(Put(h, base + k, b % 0x100), line, n, base, len, k + 1, sum + b % 0x100);
    }
  }

  /** A data record is accepted only if all its bytes, checksum included, add up to zero. */
  lemma DataRecordSums(h: Reader, line: string, n: nat)
    requires h.Valid() && IsData(line, n) && ParseLine(h, line).ok
    ensures LineSum(line, n, n) % 0x100 == 0
  {
    hide HexLine, Scan, Pair, LineSum, StoreData, ByteSum, MakeWord;
    var len := Pair(line, n, 0);
    var addr := MakeWord(Pair(line, n, 2), Pair(line, n, 1));
    ScanPair(line, n, 0);
    ScanPairs(line, n, 1);
    ScanPair(line, n, 3);
    ScanPair(line, n, n - 1);
    SmallByte(len);
    var sum := len + ByteSum(addr);
    StoreDataSum(h.(count := h.count + len), line, n, addr + h.ext, len, 0, sum);
    HeaderSum(line, n);
    WordSum(Pair(line, n, 2), Pair(line, n, 1));
    LastSum(line, n);
    ZeroRemainder(StoreData(h.(count := h.count + len), line, addr + h.ext, len, 0, sum).sum, Pair(line, n, n - 1));
  }

  lemma {:induction false} HeaderSum(line: string, n: nat)
    requires n >= 5 && HexLine(line, n) && Pair(line, n, 3) == 0
    ensures LineSum(line, n, 4) == Pair(line, n, 0) as int + Pair(line, n, 1) as int + Pair(line, n, 2) as int
  {
    hide HexLine, Pair;
    assert LineSum(line, n, 0) == 0;
    assert LineSum(line, n, 2) == LineSum(line, n, 1) + Pair(line, n, 1);
    assert LineSum(line, n, 4) == LineSum(line, n, 3) + Pair(line, n, 3);
  }

  lemma WordSum(lo: Byte, hi: Byte)
    ensures ByteSum(MakeWord(lo, hi)) == lo as int + hi
  {
    hide MakeWord;
    WordBytes(lo, hi);
  }

  lemma LastSum(line: string, n: nat)
    requires n >= 5 && HexLine(line, n)
    ensures LineSum(line, n, n) == LineSum(line, n, n - 1) + Pair(line, n, n - 1)
  {
    hide HexLine, Pair;
  }

  lemma ZeroRemainder(sum: nat, check: Byte)
    requires SumsToZero(sum, check)
    ensures (sum + check) % 0x100 == 0
  {
    var q, r := sum / 0x100, sum % 0x100;
    assert sum == 0x100 * q + r;
    if r + check == 0 {
      assert sum + check == 0x100 * q;
    } else {
      assert sum + check == 0x100 * (q + 1);
    }
  }

  /** If the line is a data record in hex digits, its bytes add up to zero. */
  ghost predicate Closes(line: string) {
    forall n: nat | IsData(line, n) :: LineSum(line, n, n) % 0x100 == 0
  }

  /** Every data record up to the end record adds up to zero. */
  ghost predicate AllClose(h: Reader, lines: seq<string>)
    requires h.Valid()
    decreases |lines|
  {
    if lines == [] then true
    else if lines[0] == "" then AllClose(h, lines[1..])
    else
      var g := ParseLine(h, lines[0]).reader;
      Closes(lines[0]) && (g.ended || AllClose(g, lines[1..]))
  }

  lemma LineCloses(h: Reader, line: string)
    requires h.Valid() && ParseLine(h, line).ok
    ensures Closes(line)
  {
    hide ParseLine, HexLine, LineSum, Reader.Valid;
    forall n: nat | IsData(line, n)
      ensures LineSum(line, n, n) % 0x100 == 0
    {
      DataRecordSums(h, line, n);
    }
  }

  /** Soundness: whatever the file holds, if the reader accepts it then every data record up to the end
      record adds up to zero. */
  lemma {:induction false} AcceptedCloses(h: Reader, lines: seq<string>)
    requires h.Valid() && ReadLines(h, lines).ok
    ensures AllClose(h, lines)
    decreases |lines|
  {
    hide ParseLine, Closes, Reader.Valid;
    if lines == [] {
    } else if lines[0] == "" {
      AcceptedCloses(h, lines[1..]);
    } else {
      var p := ParseLine(h, lines[0]);
      LineCloses(h, lines[0]);
      if !p.reader.ended {
        AcceptedCloses(p.reader, lines[1..]);
      }
    }
  }

  /** From file to flash: a printed file whose records fit, read by the host and sent to a device of a
      supported part, leaves in flash every byte below the boot section that its records define. */
  lemma FileToFlash(rs: seq<Record>, eol: string, rest: seq<string>, image: Image,
                    d: Device, codeSize: nat, block: nat, x: nat)
    requires AllFit(Fresh(), rs) && image == Fold(Fresh(), rs).image
    requires forall i | 0 <= i < |rs| :: rs[i].Data? ==> |rs[i].data| < 0x100
    requires H.Part(d, codeSize, block) && x < d.bootStart && x < MAX_MEMORY_SIZE - block
    ensures Read(PrintFile(rs, eol) + rest) == (image, DataBytes(rs)) && image.Valid()
    ensures var r := ProgramFrom(d, image, codeSize, block, 0);
            |r.flash.mem| == codeSize && (image.mask[x] ==> r.flash.mem[x] == image.bytes[x])
  {
    hide Read, ProgramFrom, Fold, PrintFile, AllFit, IsSent, Fresh;
    PrintThenRead(rs, eol, rest);
    H.EveryByte(d, image, codeSize, block, x);
  }

  // Files that do not arrive.

  /** A file of one byte, as the reader understands it. */
  lemma OneByteFile(addr: Word, b: Byte, eol: string)
    requires addr + 1 < MAX_MEMORY_SIZE
    ensures var (image, n) := Read(PrintFile([Data(addr, [b])], eol));
            n == 1 && image.Valid() && image.bytes[addr] == b &&
            forall x | 0 <= x < MAX_MEMORY_SIZE :: image.mask[x] <==> x == addr
  {
    hide Read, PrintFile, Lay;
    var rs := [Data(addr, [b])];
    var lines := PrintFile(rs, eol);
    assert rs[1..] == [];
    assert Fold(Apply(Fresh(), rs[0]), []) == Apply(Fresh(), rs[0]);
    assert AllFit(Apply(Fresh(), rs[0]), []);
    PrintThenRead(rs, eol, []);
    assert lines + [] == lines;
    assert DataBytes(rs) == 1 + DataBytes([]);
    LayByte(Fresh().image, addr, b);
  }

  lemma LayByte(image: Image, a: nat, b: Byte)
    requires image.Valid() && a < MAX_MEMORY_SIZE
    ensures var r := Lay(image, a, [b]);
            r.bytes[a] == b && forall x | 0 <= x < MAX_MEMORY_SIZE :: r.mask[x] <==> image.mask[x] || x == a
  {
  }

  /** A file that fails on a 128 KB part: one byte in the last block of the image buffer. The reader takes it,
      and the device ends with a blank byte in its place. */
  lemma LastBlockLost(d: Device, b: Byte, eol: string)
    requires H.Part(d, 0x2_0000, 256) && 0xFF00 < d.bootStart && b != BLANK
    ensures var (image, n) := Read(PrintFile([Data(0xFF00, [b])], eol));
            && n == 1 && image.Valid() && image.mask[0xFF00] && image.bytes[0xFF00] == b
            && var r := ProgramFrom(d, image, 0x2_0000, 256, 0);
               |r.flash.mem| == 0x2_0000 && r.flash.mem[0xFF00] == BLANK
  {
    hide ProgramFrom, Read, PrintFile;
    OneByteFile(0xFF00, b, eol);
    var (image, _) := Read(PrintFile([Data(0xFF00, [b])], eol));
    H.EveryByte(d, image, 0x2_0000, 256, 0xFF00);
  }

  /** A file that fails on a 64 KB part: one byte at 0x100 that is new to the flash. */
  lemma SecondPageLost(d: Device, b: Byte, eol: string)
    requires H.Part64(d) && 0x100 < d.bootStart && b != d.flash.mem[0x100]
    ensures var (image, n) := Read(PrintFile([Data(0x100, [b])], eol));
            && n == 1 && image.Valid() && image.mask[0x100] && image.bytes[0x100] == b
            && var r := ProgramFrom(d, image, 0x1_0000, 256, 0);
               |r.flash.mem| == 0x1_0000 && r.flash.mem[0x100] == d.flash.mem[0x100]
  {
    hide ProgramFrom, Read, PrintFile, H.LastSent, H.Rotated, Flash.Valid, Flash.Blank;
    OneByteFile(0x100, b, eol);
    var (image, _) := Read(PrintFile([Data(0x100, [b])], eol));
    H.SomethingSent(image);
    H.Part64KB(d, image, 0);
  }

  /** From file to flash, exactly: every byte that the records define below the boot section arrives if and only
      if they define only blanks in the last block of the image buffer. */
  lemma FileArrivesIff(rs: seq<Record>, eol: string, rest: seq<string>, d: Device, codeSize: nat, block: nat)
    requires AllFit(Fresh(), rs) && H.Part(d, codeSize, block)
    requires forall i | 0 <= i < |rs| :: rs[i].Data? ==> |rs[i].data| < 0x100
    ensures var image := Read(PrintFile(rs, eol) + rest).0;
            && image == Fold(Fresh(), rs).image && image.Valid()
            && var r := ProgramFrom(d, image, codeSize, block, 0);
               && |r.flash.mem| == codeSize
               && ((forall x | 0 <= x < MAX_MEMORY_SIZE && x < d.bootStart && image.mask[x] ::
                      r.flash.mem[x] == image.bytes[x])
                   <==>
                   (forall x | MAX_MEMORY_SIZE - block <= x < MAX_MEMORY_SIZE && x < d.bootStart && image.mask[x] ::
                      image.bytes[x] == BLANK))
  {
    hide Read, ProgramFrom, Fold, PrintFile, AllFit, Fresh;
    PrintThenRead(rs, eol, rest);
    H.EndToEnd(d, Fold(Fresh(), rs).image, codeSize, block);
  }
}
