/** Which texts can change the boot section. The source refuses data for addresses in the boot section, but it
    erases and writes its current page, and a record that ends at the boot section makes the first page there
    the current one. */
module PrinterSafety {
  import opened Bytes
  import opened FlashMemory
  import opened PrinterModel
  import opened PrinterStream

  /** The character completes a word of a data record, and the word is stored. */
  ghost predicate Stores(s: Parser, c: char) {
    && s.state == ReadData && c != ':' && HexValue(c) >= 0 && s.readMSB
    && s.addr < s.bootStart && s.recordType == TYPE_DATA && (s.dataRem - 1) % 0x100 % 2 == 0
  }

  /** The current page is below the boot section. */
  ghost predicate CurrentBelow(s: Parser)
    requires s.Valid()
  {
    s.flash.PageBase(s.pageStart) < s.bootStart
  }

  /** A word is stored while the current page is in the boot section. */
  ghost predicate Hits(s: Parser, c: char)
    requires s.Valid()
  {
    Stores(s, c) && !CurrentBelow(s)
  }

  ghost predicate SomeHits(s: Parser, text: string)
    requires s.Valid()
    decreases |text|
  {
    text != "" && (SomeHits(s, text[..|text| - 1]) || Hits(Run(s, text[..|text| - 1]), text[|text| - 1]))
  }

  /** An open page is below the boot section. */
  ghost predicate Guarded(s: Parser) {
    && s.Valid() && Aligned(s.bootStart, s.flash.page) && s.bootStart <= |s.flash.mem|
    && (s.pageDirty ==> CurrentBelow(s))
  }

  /** The boot section is as it was. */
  ghost predicate Spared(s: Parser, r: Parser) {
    r.bootStart == s.bootStart && SameFrom(s.flash.mem, r.flash.mem, s.bootStart)
  }

  lemma PageOnly(f: Flash, a: nat, k: nat)
    requires f.Valid() && Aligned(k, f.page) && f.PageBase(a) < k <= |f.mem|
    ensures SameFrom(f.mem, f.Erase(a).mem, k) && SameFrom(f.mem, f.Commit(a).mem, k)
  {
    hide Offset, Flash.Decode;
    ZeroAligned(f.page);
    SubtractOffset(0, f.Decode(a), f.page);
    PagesApart(f.PageBase(a), k, f.page);
  }

  lemma FlushSpares(s: Parser)
    requires Guarded(s)
    ensures var r := FlushPage(s);
            Guarded(r) && Spared(s, r) && r == s.(flash := r.flash, pageStart := r.pageStart, pageDirty := r.pageDirty)
  {
    hide Offset, Aligned, Flash.Commit, PageOf, Flash.PageBase;
    if s.pageDirty {
      PageOnly(s.flash, s.pageStart, s.bootStart);
    }
  }

  lemma StoreSpares(s: Parser, w: Word)
    requires Guarded(s) && CurrentBelow(s)
    ensures Guarded(StoreWord(s, w)) && Spared(s, StoreWord(s, w))
  {
    hide Offset, Aligned, Flash.Commit, Flash.Erase, Flash.Fill, FlushPage, Flash.Valid;
    PageOnly(s.flash, s.pageStart, s.bootStart);
    var e := if s.pageDirty then s else s.(flash := s.flash.Erase(s.pageStart), pageDirty := true);
    FlushSpares(e.(flash := e.flash.Fill(e.addr, w), addr := e.addr + 2));
  }

  lemma DataSpares(s: Parser)
    requires Guarded(s)
    requires s.addr < s.bootStart && s.recordType == TYPE_DATA && (s.dataRem - 1) % 0x100 % 2 == 0 ==> CurrentBelow(s)
    ensures Guarded(DataByte(s)) && Spared(s, DataByte(s))
  {
    hide Offset, StoreWord, Flash.Valid, MakeWord, Flash.PageBase;
    var t := s.(dataRem := (s.dataRem - 1) % 0x100);
    if t.addr < t.bootStart && t.recordType == TYPE_DATA && t.dataRem % 2 == 0 {
      StoreSpares(t, MakeWord(t.prevData, t.data));
    }
  }

  /** A character that does not hit spares the boot section. */
  lemma ParseSpares(s: Parser, c: char)
    requires Guarded(s) && !Hits(s, c)
    ensures Guarded(Parse(s, c)) && Spared(s, Parse(s, c))
  {
    hide Offset, Aligned, FlushPage, DataByte, HexValue, ShiftNibble, Sum8, Flash.Valid, Flash.PageBase;
    if c != ':' && s.state != WaitLine && HexValue(c) >= 0 && s.readMSB {
      var t := s.(data := ShiftNibble(s.data, HexValue(c)), readMSB := false);
      if s.state == ReadData {
        DataSpares(t.(checksum := Sum8(t.checksum, t.data)));
      } else if s.state == Checksum {
        FlushSpares(t);
      }
    }
  }

  /** Every text without a hit spares the boot section. */
  lemma {:induction false} BootSectionSpared(s: Parser, text: string)
    requires s.Valid() && Guarded(s) && !SomeHits(s, text)
    ensures Guarded(Run(s, text)) && Spared(s, Run(s, text))
    decreases |text|
  {
    hide Parse, Hits, Guarded;
    if text != "" {
      BootSectionSpared(s, text[..|text| - 1]);
      ParseSpares(Run(s, text[..|text| - 1]), text[|text| - 1]);
    }
  }

  /** A hit replaces the whole current page: by the buffer with the new word in it if the address
      moves on to another page, by blanks if not. */
  lemma HitRewrites(s: Parser, c: char)
    requires Guarded(s) && Hits(s, c)
    ensures var b, w := s.flash.PageBase(s.pageStart), MakeWord(s.prevData, ShiftNibble(s.data, HexValue(c)));
            && b + s.flash.page <= |s.flash.mem|
            && Parse(s, c).flash.mem ==
               Splice(s.flash.mem, b,
                      if PageOf(s, s.addr + 2) == s.pageStart then Blanks(s.flash.page)
                      else s.flash.Fill(s.addr, w).buf)
  {
    hide Offset, Aligned, Flash.Fill, HexValue, ShiftNibble, Sum8, MakeWord, Splice, Flash.Erase, Flash.Commit,
      Flash.PageBase, Flash.Valid;
    var f := s.flash;
    var w := MakeWord(s.prevData, ShiftNibble(s.data, HexValue(c)));
    StoredWord(s, c);
    EraseSplices(f, s.pageStart);
    FillSame(f, f.Erase(s.pageStart), s.addr, w);
    var g := f.Erase(s.pageStart).Fill(s.addr, w);
    SamePageBase(f, g, s.pageStart);
    CommitSplices(g, f.mem, s.pageStart);
  }

  lemma FillSame(f: Flash, g: Flash, a: nat, w: Word)
    requires f.Valid() && g.Valid() && f.page == g.page && f.buf == g.buf
    ensures f.Fill(a, w).buf == g.Fill(a, w).buf
  {
  }

  /** What a character that stores a word does. */
  lemma StoredWord(s: Parser, c: char)
    requires s.Valid() && Stores(s, c)
    ensures var w := MakeWord(s.prevData, ShiftNibble(s.data, HexValue(c)));
            var t := s.(data := ShiftNibble(s.data, HexValue(c)), readMSB := false,
                        checksum := Sum8(s.checksum, ShiftNibble(s.data, HexValue(c))),
                        dataRem := (s.dataRem - 1) % 0x100);
            Parse(s, c).flash == StoreWord(t, w).flash
  {
    hide StoreWord, HexValue, ShiftNibble, Sum8, MakeWord, Flash.Valid;
  }

  // Exactness. The parser never looks at the memory, so two devices that differ only in their memories go
  // through the same states, and a page that was hit no longer depends on what it held.

  ghost predicate Twins(s: Parser, t: Parser) {
    && |t.flash.mem| == |s.flash.mem|
    && t == s.(flash := Flash(s.flash.page, t.flash.mem, s.flash.buf))
  }

  /** The memories agree at address p. */
  ghost predicate Agree(s: Parser, t: Parser, p: nat) {
    p < |s.flash.mem| == |t.flash.mem| && s.flash.mem[p] == t.flash.mem[p]
  }

  lemma TwinFlush(s: Parser, t: Parser, p: nat)
    requires s.Valid() && t.Valid() && Twins(s, t)
    ensures Twins(FlushPage(s), FlushPage(t)) && (Agree(s, t, p) ==> Agree(FlushPage(s), FlushPage(t), p))
  {
    hide Offset, AndByte;
  }

  lemma TwinStore(s: Parser, t: Parser, w: Word, p: nat)
    requires s.Valid() && t.Valid() && Twins(s, t)
    ensures Twins(StoreWord(s, w), StoreWord(t, w)) && (Agree(s, t, p) ==> Agree(StoreWord(s, w), StoreWord(t, w), p))
  {
    hide Offset, FlushPage, Low, High, Flash.Commit;
    var e := if s.pageDirty then s else s.(flash := s.flash.Erase(s.pageStart), pageDirty := true);
    var g := if t.pageDirty then t else t.(flash := t.flash.Erase(t.pageStart), pageDirty := true);
    TwinFlush(e.(flash := e.flash.Fill(e.addr, w), addr := e.addr + 2),
              g.(flash := g.flash.Fill(g.addr, w), addr := g.addr + 2), p);
  }

  lemma TwinData(s: Parser, t: Parser, p: nat)
    requires s.Valid() && t.Valid() && Twins(s, t)
    ensures Twins(DataByte(s), DataByte(t)) && (Agree(s, t, p) ==> Agree(DataByte(s), DataByte(t), p))
  {
    hide Flash.Valid, StoreWord, MakeWord;
    var a, b := s.(dataRem := (s.dataRem - 1) % 0x100), t.(dataRem := (t.dataRem - 1) % 0x100);
    TwinStore(a, b, MakeWord(a.prevData, a.data), p);
  }

  lemma TwinByte(s: Parser, t: Parser, p: nat)
    requires s.Valid() && t.Valid() && Twins(s, t)
    ensures Twins(RecordByte(s), RecordByte(t)) && (Agree(s, t, p) ==> Agree(RecordByte(s), RecordByte(t), p))
  {
    hide Flash.Valid, DataByte, FlushPage, Sum8;
    if s.state == Checksum {
      TwinFlush(s, t, p);
    } else if s.state == ReadData {
      TwinData(s.(checksum := Sum8(s.checksum, s.data)), t.(checksum := Sum8(t.checksum, t.data)), p);
    }
  }

  lemma TwinParse(s: Parser, t: Parser, c: char, p: nat)
    requires s.Valid() && t.Valid() && Twins(s, t)
    ensures Twins(Parse(s, c), Parse(t, c)) && (Agree(s, t, p) ==> Agree(Parse(s, c), Parse(t, c), p))
    ensures Hits(s, c) == Hits(t, c)
  {
    hide Flash.Valid, RecordByte, HexValue, ShiftNibble, Flash.PageBase;
    SamePageBase(s.flash, t.flash, s.pageStart);
    if HexValue(c) >= 0 {
      TwinByte(s.(data := ShiftNibble(s.data, HexValue(c)), readMSB := false),
               t.(data := ShiftNibble(t.data, HexValue(c)), readMSB := false), p);
    }
  }

  lemma {:induction false} TwinRun(s: Parser, t: Parser, text: string)
    requires s.Valid() && t.Valid() && Twins(s, t)
    ensures Twins(Run(s, text), Run(t, text)) && SomeHits(s, text) == SomeHits(t, text)
    decreases |text|
  {
    hide Twins, Parse, Hits, Agree;
    if text != "" {
      TwinRun(s, t, text[..|text| - 1]);
      TwinParse(Run(s, text[..|text| - 1]), Run(t, text[..|text| - 1]), text[|text| - 1], 0);
    }
  }

  /** A text with a hit ends with the same byte somewhere in the boot section, whatever the memory was. */
  lemma {:induction false} HitForgets(s: Parser, t: Parser, text: string) returns (p: nat)
    requires s.Valid() && t.Valid() && Twins(s, t) && Guarded(s) && Guarded(t) && SomeHits(s, text)
    ensures s.bootStart <= p && Agree(Run(s, text), Run(t, text), p)
    decreases |text|
  {
    hide Twins, Parse, Hits, Agree, Guarded;
    var front, c := text[..|text| - 1], text[|text| - 1];
    TwinRun(s, t, front);
    if SomeHits(s, front) {
      p := HitForgets(s, t, front);
      TwinParse(Run(s, front), Run(t, front), c, p);
    } else {
      BootSectionSpared(s, front);
      BootSectionSpared(t, front);
      p := OneHitForgets(Run(s, front), Run(t, front), c);
    }
  }

  lemma OneHitForgets(s: Parser, t: Parser, c: char) returns (p: nat)
    requires s.Valid() && t.Valid() && Twins(s, t) && Guarded(s) && Guarded(t) && Hits(s, c)
    ensures s.bootStart <= p && Agree(Parse(s, c), Parse(t, c), p)
  {
    hide Offset, Parse, HexValue, ShiftNibble, MakeWord, Flash.Fill, Flash.PageBase;
    TwinParse(s, t, c, 0);
    SamePageBase(s.flash, t.flash, s.pageStart);
    HitRewrites(s, c);
    HitRewrites(t, c);
    p := s.flash.PageBase(s.pageStart);
    FillSame(s.flash, t.flash, s.addr, MakeWord(s.prevData, ShiftNibble(s.data, HexValue(c))));
  }

  /** The same parser with another memory. */
  ghost function WithMemory(s: Parser, m: seq<Byte>): Parser { s.(flash := s.flash.(mem := m)) }

  lemma MemoryTwins(s: Parser, m: seq<Byte>)
    requires Guarded(s) && |m| == |s.flash.mem|
    ensures var t := WithMemory(s, m); t.Valid() && Twins(s, t) && Guarded(t)
  {
    hide Offset;
  }

  /** The boot section survives the text. */
  ghost predicate Survives(s: Parser, text: string, m: seq<Byte>) {
    s.Valid() && |m| == |s.flash.mem| && WithMemory(s, m).Valid() &&
    SameFrom(m, Run(WithMemory(s, m), text).flash.mem, s.bootStart)
  }

  /** A text leaves the boot section alone whatever is in it, if and only if no word is stored while the
      current page is in it. */
  lemma BootSectionSparedIff(s: Parser, text: string)
    requires s.Valid() && Guarded(s)
    ensures (forall m: seq<Byte> | |m| == |s.flash.mem| :: Survives(s, text, m)) <==> !SomeHits(s, text)
  {
    hide Run, SomeHits, Twins, Guarded, Agree;
    if SomeHits(s, text) {
      var zeros, ones := seq(|s.flash.mem|, i => 0), seq(|s.flash.mem|, i => 1);
      NotBoth(s, text, zeros, ones);
    } else {
      forall m: seq<Byte> | |m| == |s.flash.mem|
        ensures Survives(s, text, m)
      {
        MemoryTwins(s, m);
        TwinRun(s, WithMemory(s, m), text);
        BootSectionSpared(WithMemory(s, m), text);
      }
    }
  }

  lemma NotBoth(s: Parser, text: string, m: seq<Byte>, n: seq<Byte>)
    requires s.Valid() && Guarded(s) && SomeHits(s, text) && |m| == |n| == |s.flash.mem|
    requires forall i | 0 <= i < |m| :: m[i] != n[i]
    ensures !Survives(s, text, m) || !Survives(s, text, n)
  {
    hide Run, SomeHits, Twins, Guarded;
    var t, u := WithMemory(s, m), WithMemory(s, n);
    MemoryTwins(s, m);
    MemoryTwins(s, n);
    MemoryTwins(t, n);
    TwinRun(s, t, text);
    var p := HitForgets(t, u, text);
    assert Agree(Run(t, text), Run(u, text), p);
  }

  // Addresses.

  /** Every address the parser works with while it reads the text is below the boot section. */
  ghost predicate StaysBelow(s: Parser, text: string)
    requires s.Valid()
    decreases |text|
  {
    Run(s, text).addr < s.bootStart && (text != "" ==> StaysBelow(s, text[..|text| - 1]))
  }

  /** The current page only ever becomes the page of the address. */
  ghost predicate Moves(s: Parser, r: Parser) {
    && (r.pageStart == s.pageStart || r.pageStart <= r.addr)
    && r.bootStart == s.bootStart && |r.flash.mem| == |s.flash.mem|
  }

  lemma StoreMoves(s: Parser, w: Word)
    requires s.Valid()
    ensures Moves(s, StoreWord(s, w))
  {
    hide Offset, Flash.Erase, Flash.Fill, Flash.Commit, Flash.Valid;
  }

  lemma DataMoves(s: Parser)
    requires s.Valid()
    ensures Moves(s, DataByte(s))
  {
    hide StoreWord, Flash.Valid, MakeWord;
    var t := s.(dataRem := (s.dataRem - 1) % 0x100);
    StoreMoves(t, MakeWord(t.prevData, t.data));
  }

  lemma CurrentMoves(s: Parser)
    requires s.Valid()
    ensures Moves(s, RecordByte(s))
  {
    hide Offset, DataByte, Flash.Commit, Flash.Valid, Sum8;
    DataMoves(s.(checksum := Sum8(s.checksum, s.data)));
  }

  lemma CurrentFollows(s: Parser, c: char)
    requires s.Valid() && s.pageStart < s.bootStart && Parse(s, c).addr < s.bootStart
    ensures Parse(s, c).pageStart < s.bootStart && Parse(s, c).bootStart == s.bootStart
    ensures |Parse(s, c).flash.mem| == |s.flash.mem|
  {
    hide RecordByte, Flash.Valid, HexValue, ShiftNibble;
    if HexValue(c) >= 0 {
      CurrentMoves(s.(data := ShiftNibble(s.data, HexValue(c)), readMSB := false));
    }
  }

  lemma LowCurrent(s: Parser)
    requires s.Valid() && s.pageStart < s.bootStart <= |s.flash.mem|
    ensures CurrentBelow(s)
  {
    hide Offset;
    WrapInside(s.pageStart, |s.flash.mem|);
  }

  lemma {:induction false} CurrentStays(s: Parser, text: string)
    requires s.Valid() && s.pageStart < s.bootStart <= |s.flash.mem| && StaysBelow(s, text)
    ensures |Run(s, text).flash.mem| == |s.flash.mem|
    ensures Run(s, text).pageStart < s.bootStart && Run(s, text).bootStart == s.bootStart && !SomeHits(s, text)
    decreases |text|
  {
    hide Parse, Stores, CurrentBelow;
    if text != "" {
      CurrentStays(s, text[..|text| - 1]);
      CurrentFollows(Run(s, text[..|text| - 1]), text[|text| - 1]);
      LowCurrent(Run(s, text[..|text| - 1]));
    }
  }

  /** A text whose records all start and end below the boot section leaves the boot section alone, whatever else
      it holds. */
  lemma RecordsBelow(bootStart: nat, f: Flash, text: string)
    requires f.Valid() && Aligned(bootStart, f.page) && 0 < bootStart <= |f.mem|
    requires StaysBelow(Start(bootStart, f), text)
    ensures SameFrom(f.mem, Run(Start(bootStart, f), text).flash.mem, bootStart)
  {
    hide Run, StaysBelow, SomeHits, Offset, CurrentBelow;
    CurrentStays(Start(bootStart, f), text);
    BootSectionSpared(Start(bootStart, f), text);
  }

  /** A text that does not: a contiguous image that ends exactly at the boot section, and one more word for
      address 0. The word lands at the start of the boot section, and the rest of that page is erased. */
  lemma BootSectionLost(bootStart: nat, f: Flash, lines: seq<Line>, lo: Byte, hi: Byte)
    requires f.Valid() && f.Blank() && Contiguous(lines) && Aligned(bootStart, f.page)
    requires |Image(lines)| == bootStart < |f.mem| && bootStart > 0
    ensures var r := Run(Start(bootStart, f),
                         LinesText(lines) + ":" + HexBytes([2, 0, 0, TYPE_DATA]) + HexBytes([lo, hi]));
            && |r.flash.mem| == |f.mem| && bootStart + f.page <= |f.mem|
            && r.flash.mem[bootStart..bootStart + f.page] == [lo, hi] + Blanks(f.page - 2)
  {
    hide Run, LinesText, HexBytes, Contiguous, Image, Streamed, StoreWord, Flash.Valid, Sum8, MakeWord;
    var s := Start(bootStart, f);
    var t := Run(s, LinesText(lines));
    DataRecords(bootStart, f, lines);
    CurrentAtBoot(t, f.mem, Image(lines), bootStart);
    ZeroHeader(t);
    var u := Header(t, 2, 0, TYPE_DATA);
    RunAppend(s, LinesText(lines), ":" + HexBytes([2, 0, 0, TYPE_DATA]));
    assert LinesText(lines) + (":" + HexBytes([2, 0, 0, TYPE_DATA])) ==
           LinesText(lines) + ":" + HexBytes([2, 0, 0, TYPE_DATA]);
    RunAppend(s, LinesText(lines) + ":" + HexBytes([2, 0, 0, TYPE_DATA]), HexBytes([lo, hi]));
    OneWordRecord(u, lo, hi);
    WordAtBoot(u, lo, hi, bootStart);
  }

  lemma CurrentAtBoot(t: Parser, mem: seq<Byte>, image: seq<Byte>, bootStart: nat)
    requires BetweenRecords(t, mem, image) && |image| == bootStart && Aligned(bootStart, t.flash.page) && t.Valid()
    ensures t.base == 0 && !t.pageDirty && t.pageStart == bootStart && t.flash.Blank() && |t.flash.mem| == |mem|
  {
    hide Offset, Overlay;
    if t.pageDirty {
      AlignedOpenPage(t.flash, mem, image, t.pageStart);
      OpenPageBounds(t.flash, mem, image, t.pageStart);
      PagesApart(t.pageStart, bootStart, t.flash.page);
    }
  }

  lemma ZeroHeader(t: Parser)
    requires t.Valid()
    ensures Run(t, ":" + HexBytes([2, 0, 0, TYPE_DATA])) == Header(t, 2, 0, TYPE_DATA)
  {
    hide Run, HexBytes, Header;
    ParseHeader(t, 2, 0, TYPE_DATA);
    assert High(0) == 0 && Low(0) == 0;
  }

  /** The two bytes of a record of one word. */
  lemma OneWordRecord(u: Parser, lo: Byte, hi: Byte)
    requires u.Valid() && u.state == ReadData && !u.readMSB && u.recordType == TYPE_DATA &&
             u.dataRem == 2 && u.addr < u.bootStart
    ensures var a := u.(data := hi, prevData := lo, dataRem := 0, checksum := Sum8(Sum8(u.checksum, lo), hi));
            Run(u, HexBytes([lo, hi])).flash == StoreWord(a, MakeWord(lo, hi)).flash
  {
    hide Run, HexBytes, RecordByte, StoreWord, Sum8, Flash.Valid, MakeWord;
    NothingRead(u);
    FirstByte(u.(data := lo), 2);
    NextByte(u, [], lo);
    assert [] + [lo] == [lo] && [lo] + [hi] == [lo, hi];
    NextByte(u, [lo], hi);
    SecondByte(RecordByte(u.(data := lo)).(data := hi), 1);
  }

  lemma WordAtBoot(u: Parser, lo: Byte, hi: Byte, bootStart: nat)
    requires u.Valid() && !u.pageDirty && u.flash.Blank() && u.pageStart == bootStart && u.addr == 0
    requires Aligned(bootStart, u.flash.page) && 0 < bootStart < |u.flash.mem|
    ensures var a := u.(data := hi, prevData := lo, dataRem := 0, checksum := Sum8(Sum8(u.checksum, lo), hi));
            var m := StoreWord(a, MakeWord(lo, hi)).flash.mem;
            && bootStart + u.flash.page <= |u.flash.mem| && |m| == |u.flash.mem|
            && m[bootStart..bootStart + u.flash.page] == [lo, hi] + Blanks(u.flash.page - 2)
  {
    hide Offset, Flash.Erase, Flash.Fill, Flash.Commit, Splice, Sum8, Low, High, MakeWord;
    var f, w := u.flash, MakeWord(lo, hi);
    WordBytes(lo, hi);
    PageBaseAligned(f, bootStart);
    EraseSplices(f, bootStart);
    FirstFill(f.Erase(bootStart), w);
    var g := f.Erase(bootStart).Fill(0, w);
    PageBaseAligned(g, bootStart);
    CommitSplices(g, f.mem, bootStart);
    SplicePrefix(f.mem, bootStart, g.buf, f.page);
    assert g.buf[..f.page] == g.buf;
    TwoInside(f.page);
  }

  lemma FirstFill(f: Flash, w: Word)
    requires f.Valid() && f.buf == Blanks(f.page)
    ensures f.Fill(0, w).buf == [Low(w), High(w)] + Blanks(f.page - 2)
  {
    hide Low, High;
    TwoInside(f.page);
  }
}
