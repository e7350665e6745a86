/** Flash writes of the AVR109 protocol, whatever the host sends: block writes of any size to any address, and the
    byte-wise commands. Every block erases and programs one page, the page of its first byte; a block that reaches
    the end of the page goes on at its beginning. */
module CdcPages {
  import opened Bytes
  import opened FlashMemory
  import opened CdcModel
  import opened CdcProtocol
  import opened CdcBlocks

  // The page buffer.

  /** A buffer after `data` has been filled in from offset o on, going round as often as need be. */
  ghost function Spun(buf: seq<Byte>, o: nat, data: seq<Byte>): (r: seq<Byte>)
    requires |buf| == 128 || |buf| == 256
    ensures |r| == |buf|
  {
    if |data| <= |buf| then RingOver(buf, o, data)
    else
      var skip := |data| - |buf|;
      RingOver(buf, Offset(o + skip, |buf|), data[skip..])
  }

  lemma OffsetSum(a: nat, n: nat, page: nat)
    requires page == 128 || page == 256
    ensures Offset(a + n, page) == Offset(Offset(a, page) + n, page)
  {
    hide Offset;
    ZeroAligned(page);
    SubtractOffset(0, a, page);
    AlignedSum(a - Offset(a, page), Offset(a, page) + n, page);
  }

  lemma EvenOffset(a: nat, page: nat)
    requires page == 128 || page == 256
    requires a % 2 == 0
    ensures Offset(a, page) % 2 == 0 && 2 * (Offset(a, page) / 2) == Offset(a, page) && Offset(a, page) + 2 <= page
  {
    if page == 128 {
      Even128(a);
    } else {
      Even256(a);
    }
  }

  lemma Even128(a: nat)
    requires a % 2 == 0
    ensures a % 128 % 2 == 0
  {
  }

  lemma Even256(a: nat)
    requires a % 2 == 0
    ensures a % 256 % 2 == 0
  {
  }

  lemma NextOffset(a: nat, page: nat)
    requires page == 128 || page == 256
    requires a % 2 == 0
    ensures Offset(a + 2, page) == if Offset(a, page) + 2 == page then 0 else Offset(a, page) + 2
  {
    hide Offset;
    OffsetSum(a, 2, page);
    EvenOffset(a, page);
    SmallOffset(Offset(a, page) + 2, page);
  }

  lemma SmallOffset(n: nat, page: nat)
    requires page == 128 || page == 256
    requires n <= page
    ensures Offset(n, page) == if n == page then 0 else n
  {
  }

  /** One more word over a full round replaces the oldest. */
  lemma Rotates(buf: seq<Byte>, o: nat, data: seq<Byte>, lo: Byte, hi: Byte)
    requires |data| == |buf| && o + 2 <= |buf|
    ensures RingOver(buf, o, data)[o := lo][o + 1 := hi] ==
            RingOver(buf, if o + 2 == |buf| then 0 else o + 2, data[2..] + [lo, hi])
  {
  }

  /** The word that follows n bytes filled from address a on. */
  lemma SpinStep(buf: seq<Byte>, a: nat, done: seq<Byte>, lo: Byte, hi: Byte)
    requires (|buf| == 128 || |buf| == 256) && a % 2 == 0 && |done| % 2 == 0
    ensures var o, k := Offset(a, |buf|), Offset(a + |done|, |buf|);
            k + 2 <= |buf| && Spun(buf, o, done)[k := lo][k + 1 := hi] == Spun(buf, o, done + [lo, hi])
  {
    hide Offset, RingOver;
    var page, n := |buf|, |done|;
    var o := Offset(a, page);
    EvenSum(a, n);
    EvenOffset(a + n, page);
    if n < page {
      EvenPage(Flash(page, Blanks(page), buf)) by { SmallOffset(page, page); }
      RingPosition(a, n, page);
      EvenOffset(a, page);
      RingExtends(buf, o, done, lo, hi);
    } else {
      SpinFull(buf, a, done, lo, hi);
    }
  }

  lemma EvenSum(a: nat, n: nat)
    requires a % 2 == 0 && n % 2 == 0
    ensures (a + n) % 2 == 0
  {
  }

  lemma SpinFull(buf: seq<Byte>, a: nat, done: seq<Byte>, lo: Byte, hi: Byte)
    requires (|buf| == 128 || |buf| == 256) && a % 2 == 0 && |done| % 2 == 0 && |done| >= |buf|
    ensures var o, k := Offset(a, |buf|), Offset(a + |done|, |buf|);
            k + 2 <= |buf| && Spun(buf, o, done)[k := lo][k + 1 := hi] == Spun(buf, o, done + [lo, hi])
  {
    hide Offset, RingOver;
    var page, n := |buf|, |done|;
    var o, skip := Offset(a, page), n - page;
    var s := Offset(o + skip, page);
    OffsetSum(a, n, page);
    SameOffset(o + skip, page);
    EvenSum(a, n);
    EvenOffset(a + n, page);
    SameOffsets(a, o, skip, page);
    Rotates(buf, s, done[skip..], lo, hi);
    assert (done + [lo, hi])[skip + 2..] == done[skip..][2..] + [lo, hi];
    if n == page {
      FullRound(buf, o, done);
    }
  }

  lemma SameOffsets(a: nat, o: nat, skip: nat, page: nat)
    requires page == 128 || page == 256
    requires a % 2 == 0 && o == Offset(a, page) && (a + skip + page) % 2 == 0
    ensures Offset(o + skip + 2, page) == if Offset(o + skip, page) + 2 == page then 0 else Offset(o + skip, page) + 2
  {
    hide Offset;
    EvenOffset(a, page);
    EvenPageSize(page);
    NextOffset(o + skip, page);
  }

  lemma EvenPageSize(page: nat)
    requires page == 128 || page == 256
    ensures page % 2 == 0
  {
  }

  lemma FullRound(buf: seq<Byte>, o: nat, data: seq<Byte>)
    requires (|buf| == 128 || |buf| == 256) && o < |buf| && |data| == |buf|
    ensures Spun(buf, o, data) == RingOver(buf, Offset(o, |buf|), data[0..])
  {
    hide RingOver;
    assert data[0..] == data;
    SmallOffset(o, |buf|);
  }

  // The write loop.

  lemma NextSpace(addr: nat, page: nat)
    requires page == 128 || page == 256
    requires addr < ADDRESS_SPACE && addr % 2 == 0
    ensures Offset(Next(addr), page) == Offset(addr + 2, page)
  {
  }

  /** The write loop spins the whole words of the block into the buffer, wherever it starts. */
  lemma {:induction false} WriteFlashSpins(
    f: Flash, buf: seq<Byte>, a: nat, done: seq<Byte>, addr: nat, low: Byte, s: seq<Byte>)
    requires f.Valid() && |buf| == f.page && (f.page == 128 || f.page == 256) && a % 2 == 0 && |done| % 2 == 0
    requires addr < ADDRESS_SPACE && addr % 2 == 0 && Offset(addr, f.page) == Offset(a + |done|, f.page)
    requires f.buf == Spun(buf, Offset(a, f.page), done)
    ensures var w := WriteFlash(f, addr, false, low, s, |s|);
            w.flash.buf == Spun(buf, Offset(a, f.page), done + Words(s)) && w.rest == []
    decreases |s|
  {
    hide Flash.Fill, Flash.Valid, WriteFlash, Low, High, MakeWord, Spun, Offset, Next;
    if |s| < 2 {
      assert done + Words(s) == done;
      WriteRest(f, addr, low, s);
    } else {
      var w := MakeWord(s[0], s[1]);
      WriteTwo(f, addr, low, s, |s|);
      WordBytes(s[0], s[1]);
      FillSpins(f, buf, a, done, addr, w);
      OffsetSum(addr, 2, f.page);
      OffsetSum(a + |done|, 2, f.page);
      NextSpace(addr, f.page);
      assert done + [s[0], s[1]] + Words(s[2..]) == done + Words(s);
      WriteFlashSpins(f.Fill(addr, w), buf, a, done + [s[0], s[1]], Next(addr), s[0], s[2..]);
    }
  }

  lemma FillSpins(f: Flash, buf: seq<Byte>, a: nat, done: seq<Byte>, addr: nat, w: Word)
    requires f.Valid() && |buf| == f.page && (f.page == 128 || f.page == 256) && a % 2 == 0 && |done| % 2 == 0
    requires addr % 2 == 0 && Offset(addr, f.page) == Offset(a + |done|, f.page)
    requires f.buf == Spun(buf, Offset(a, f.page), done)
    ensures f.Fill(addr, w).buf == Spun(buf, Offset(a, f.page), done + [Low(w), High(w)])
  {
    hide Spun, Offset, Low, High;
    EvenOffset(addr, f.page);
    SpinStep(buf, a, done, Low(w), High(w));
  }

  // One block.

  /** The flash after a block write to address a: one page is replaced, the one that holds a. */
  ghost function AfterBlock(f: Flash, a: nat, data: seq<Byte>): (g: Flash)
    requires f.Valid()
    ensures g.Valid() && g.page == f.page && |g.mem| == |f.mem| && g.Blank()
  {
    PageSizes(f);
    EraseSplices(f, a);
    Flash(f.page, Splice(f.mem, f.PageBase(a), Spun(f.buf, Offset(a, f.page), Words(data))), Blanks(f.page))
  }

  /** Every block write, of any size and to any address, does exactly that. */
  lemma BlockWrites(d: Cdc, data: seq<Byte>)
    requires d.Valid() && |data| < 0x1_0000
    ensures var e := Exec(d, WriteCommand(MEMORY_FLASH, data));
            && e.reply == [OK] && e.rest == []
            && e.cdc == d.(flash := AfterBlock(d.flash, d.addr, data), addr := e.cdc.addr)
  {
    hide Exec, WriteCommand, WriteFlash, Flash.Erase, Flash.Commit, Splice, Offset, Spun, Flash.PageBase;
    var f, a := d.flash.Erase(d.addr), d.addr;
    PageSizes(d.flash);
    ExecWrite(d, MEMORY_FLASH, data);
    EraseSplices(d.flash, a);
    NothingSpun(d.flash.buf, Offset(a, f.page));
    assert [] + Words(data) == Words(data);
    WriteFlashSpins(f, d.flash.buf, a, [], a, 0, data);
    var g := WriteFlash(f, a, false, 0, data, |data|).flash;
    SamePageBase(d.flash, g, a);
    CommitSplices(g, d.flash.mem, a);
  }

  lemma NothingSpun(buf: seq<Byte>, o: nat)
    requires |buf| == 128 || |buf| == 256
    ensures Spun(buf, o, []) == buf
  {
    NothingOver(buf, o);
  }

  // Any number of blocks.

  /** The current address moves on by whole words, round the end of the address space if need be. */
  lemma {:induction false} WriteAdvances(f: Flash, addr: nat, low: Byte, s: seq<Byte>)
    requires f.Valid() && addr < ADDRESS_SPACE && addr % 2 == 0
    ensures WriteFlash(f, addr, false, low, s, |s|).addr == (addr + |Words(s)|) % ADDRESS_SPACE
    decreases |s|
  {
    hide Flash.Fill, Flash.Valid, WriteFlash, MakeWord, Next, Words;
    WordsTwo(s);
    if |s| < 2 {
      WriteRest(f, addr, low, s);
    } else {
      WriteTwo(f, addr, low, s, |s|);
      WriteAdvances(f.Fill(addr, MakeWord(s[0], s[1])), Next(addr), s[0], s[2..]);
      NextThen(addr, |Words(s[2..])|);
    }
  }

  lemma WordsTwo(s: seq<Byte>)
    ensures |Words(s)| == if |s| < 2 then 0 else 2 + |Words(s[2..])|
  {
  }

  lemma NextThen(addr: nat, n: nat)
    requires addr < ADDRESS_SPACE && addr % 2 == 0
    ensures (Next(addr) + n) % ADDRESS_SPACE == (addr + (2 + n)) % ADDRESS_SPACE
  {
  }

  lemma {:induction false} BlockAdvances(d: Cdc, data: seq<Byte>)
    requires d.Valid() && |data| < 0x1_0000
    ensures Exec(d, WriteCommand(MEMORY_FLASH, data)).cdc.addr == (d.addr + |Words(data)|) % ADDRESS_SPACE
  {
    hide Exec, WriteCommand, WriteFlash, Flash.Erase, Flash.Commit;
    ExecWrite(d, MEMORY_FLASH, data);
    WriteAdvances(d.flash.Erase(d.addr), d.addr, 0, data);
  }

  /** The flash after any number of block writes from address a on. */
  ghost function AfterBlocks(f: Flash, a: nat, blocks: seq<seq<Byte>>): (g: Flash)
    requires f.Valid()
    ensures g.Valid() && g.page == f.page && |g.mem| == |f.mem|
    decreases |blocks|
  {
    if blocks == [] then f
    else AfterBlocks(AfterBlock(f, a, blocks[0]), (a + |Words(blocks[0])|) % ADDRESS_SPACE, blocks[1..])
  }

  /** Any number of block writes of any sizes from any address. */
  lemma {:induction false} WriteAny(d: Cdc, blocks: seq<seq<Byte>>)
    requires d.Valid() && forall i | 0 <= i < |blocks| :: |blocks[i]| < 0x1_0000
    ensures var r := Run(d, WriteCommands(MEMORY_FLASH, blocks));
            && Confirmed(r.replies)
            && r.cdc == d.(flash := AfterBlocks(d.flash, d.addr, blocks), addr := r.cdc.addr)
    decreases |blocks|
  {
    hide Exec, Run, WriteCommand, AfterBlock, Flash.Valid;
    if blocks == [] {
      RunNone(d);
    } else {
      var commands := WriteCommands(MEMORY_FLASH, blocks);
      RunStep(d, commands);
      BlockWrites(d, blocks[0]);
      BlockAdvances(d, blocks[0]);
      assert commands[1..] == WriteCommands(MEMORY_FLASH, blocks[1..]);
      WriteAny(Exec(d, commands[0]).cdc, blocks[1..]);
    }
  }

  /** Any blocks, written and read back: the reads return what the writes left in flash. */
  lemma AnyRoundTrip(d: Cdc, blocks: seq<seq<Byte>>, hi: Byte, lo: Byte, sizes: seq<Word>, start: nat)
    requires d.Valid() && UsbFlash(d.flash) && start == d.flash.Decode(AddressOf(hi, lo))
    requires forall i | 0 <= i < |blocks| :: |blocks[i]| < 0x1_0000
    requires WordSizes(sizes) && start + Total(sizes) <= |d.flash.mem|
    ensures var w := Run(d, WriteCommands(MEMORY_FLASH, blocks));
            var r := Run(w.cdc, [AddressCommand(hi, lo)] + ReadCommands(MEMORY_FLASH, sizes));
            && r.replies != []
            && Flatten(r.replies[1..]) == AfterBlocks(d.flash, d.addr, blocks).mem[start..start + Total(sizes)]
            && r.cdc == w.cdc.(addr := r.cdc.addr)
  {
    hide Run, AddressCommand, AddressOf, WriteCommands, ReadCommands, Flatten, Total, Cdc.Valid, Flash.Decode,
      WordSizes,
      AfterBlocks, Confirmed;
    WriteAny(d, blocks);
    SameDecode(d.flash, AfterBlocks(d.flash, d.addr, blocks), AddressOf(hi, lo));
    ReadPhase(Run(d, WriteCommands(MEMORY_FLASH, blocks)).cdc, hi, lo, sizes, start);
  }

  /** Two blocks to one page: the second erases the first, so both arrive if and only if the first is blank. */
  lemma ShortBlockIff(f: Flash, a: nat, x: seq<Byte>, y: seq<Byte>)
    requires f.Valid() && Aligned(a, f.page) && a < |f.mem| <= 0x2_0000
    requires |x| % 2 == 0 && |y| % 2 == 0 && y != [] && |x| + |y| <= f.page
    ensures var m := AfterBlocks(f, a, [x, y]).mem;
            && a + |x| + |y| <= |m|
            && m[a..a + |x| + |y|] == Blanks(|x|) + y
            && (m[a..a + |x| + |y|] == x + y <==> x == Blanks(|x|))
  {
    hide AfterBlocks, AfterBlock, Offset, Flash.PageBase, Flash.Valid, Blanks;
    var g := AfterBlock(f, a, x);
    PageSizes(f);
    TwoBlocks(f, a, x, y);
    WholeWords(y);
    PageInside(f, a, |x|);
    SamePageBase(f, g, a + |x|);
    SecondBlock(g, a, |x|, y);
    SameHead(Blanks(|x|), x, y);
  }

  lemma SameHead(u: seq<Byte>, x: seq<Byte>, y: seq<Byte>)
    requires |u| == |x|
    ensures u + y == x + y <==> x == u
  {
    if u + y == x + y {
      assert u == (u + y)[..|u|] && x == (x + y)[..|x|];
    }
  }

  lemma TwoBlocks(f: Flash, a: nat, x: seq<Byte>, y: seq<Byte>)
    requires f.Valid() && a + |x| < ADDRESS_SPACE && |x| % 2 == 0
    ensures AfterBlocks(f, a, [x, y]) == AfterBlock(AfterBlock(f, a, x), a + |x|, y)
  {
    hide AfterBlock, Flash.Valid;
    WholeWords(x);
    var blocks := [x, y];
    assert blocks[1..] == [y] && [y][1..] == [];
    var g := AfterBlock(f, a, x);
    assert AfterBlocks(g, a + |x|, [y]) ==
           AfterBlocks(AfterBlock(g, a + |x|, y), (a + |x| + |Words(y)|) % ADDRESS_SPACE, []);
  }

  lemma WholeWords(x: seq<Byte>)
    requires |x| % 2 == 0
    ensures Words(x) == x
  {
  }

  lemma PageInside(f: Flash, a: nat, n: nat)
    requires f.Valid() && Aligned(a, f.page) && a < |f.mem| && n < f.page
    ensures f.PageBase(a + n) == a && Offset(a + n, f.page) == n && a + f.page <= |f.mem|
  {
    hide Offset;
    PageBaseAligned(f, a);
    OffsetInPage(a, n, f.page);
    PageBounds(f, a + n);
  }

  /** A block behind n bytes of a page: they are erased. */
  lemma SecondBlock(g: Flash, a: nat, n: nat, y: seq<Byte>)
    requires g.Valid() && g.Blank() && n + |y| <= g.page && a + g.page <= |g.mem|
    requires g.PageBase(a + n) == a && Offset(a + n, g.page) == n && Words(y) == y
    ensures var m := AfterBlock(g, a + n, y).mem;
            a + n + |y| <= |m| && m[a..a + n + |y|] == Blanks(n) + y
  {
    hide Offset, Flash.PageBase;
    PageSizes(g);
    var ring := RingOver(g.buf, n, y);
    SplicePrefix(g.mem, a, ring, n + |y|);
    assert ring[..n + |y|] == Blanks(n) + y;
  }

  // Byte-wise commands.

  /** A word sent byte by byte, high byte first: each command loads a whole word, so the high byte is lost. The
      word is buffered as it was sent if and only if its high byte is zero. */
  lemma ByteWiseIff(d: Cdc, high: Byte, low: Byte)
    requires d.Valid()
    ensures var r := Run(d, [[FILL_WORD_HIGH, high], [FILL_WORD_LOW, low]]);
            && r.replies == [[OK], [OK]] && r.cdc == d.(flash := r.cdc.flash, addr := Next(d.addr))
            && r.cdc.flash == d.flash.Fill(d.addr, MakeWord(low, 0))
            && (r.cdc.flash == d.flash.Fill(d.addr, MakeWord(low, high)) <==> high == 0)
  {
    hide Flash.Fill, Flash.Valid, MakeWord, Exec, Or;
    var commands: seq<seq<Byte>> := [[FILL_WORD_HIGH, high], [FILL_WORD_LOW, low]];
    var second: seq<seq<Byte>> := [[FILL_WORD_LOW, low]];
    RunStep(d, commands);
    FillHigh(d, high);
    var e := Exec(d, commands[0]).cdc;
    assert commands[1..] == second;
    RunStep(e, second);
    assert second[1..] == [];
    FillLow(e, low);
    RunNone(Exec(e, second[0]).cdc);
    RefillSame(d.flash, d.addr, MakeWord(high, 0), MakeWord(low, 0));
    FillTells(d.flash, d.addr, low, high);
  }

  lemma FillHigh(d: Cdc, b: Byte)
    requires d.Valid()
    ensures Exec(d, [FILL_WORD_HIGH, b]) == Outcome(d.(flash := d.flash.Fill(d.addr, MakeWord(b, 0))), [OK], [])
  {
    hide Flash.Fill, Flash.Valid, Block, AddressOf;
    assert Tail([FILL_WORD_HIGH, b]) == [b] && Tail([b]) == [];
  }

  lemma FillLow(d: Cdc, b: Byte)
    requires d.Valid()
    ensures Exec(d, [FILL_WORD_LOW, b]) ==
            Outcome(d.(flash := d.flash.Fill(d.addr, MakeWord(b, 0)), addr := Next(d.addr)), [OK], [])
  {
    hide Flash.Fill, Flash.Valid, Block, AddressOf, Or;
    assert Tail([FILL_WORD_LOW, b]) == [b] && Tail([b]) == [];
    OrHigh(d.addr);
    SameWord(d.flash, d.addr, MakeWord(b, 0));
  }

  /** Bit 0 of an address is not decoded. */
  lemma SameWord(f: Flash, a: nat, w: Word)
    requires f.Valid() && a % 2 == 0
    ensures f.Fill(a + 1, w) == f.Fill(a, w)
  {
    hide Offset, Low, High;
    PageSizes(f);
    EvenOffset(a, f.page);
    OffsetSum(a, 1, f.page);
    SmallOffset(Offset(a, f.page) + 1, f.page);
  }

  lemma RefillSame(f: Flash, a: nat, v: Word, w: Word)
    requires f.Valid()
    ensures f.Fill(a, v).Fill(a, w) == f.Fill(a, w)
  {
    hide Offset, Low, High;
    PageSizes(f);
    WordFits(a, f.page);
  }

  lemma WordFits(a: nat, page: nat)
    requires page == 128 || page == 256
    ensures 2 * (Offset(a, page) / 2) + 2 <= page
  {
  }

  lemma FillTells(f: Flash, a: nat, low: Byte, high: Byte)
    requires f.Valid()
    ensures f.Fill(a, MakeWord(low, 0)) == f.Fill(a, MakeWord(low, high)) <==> high == 0
  {
    hide Offset, Low, High, MakeWord;
    PageSizes(f);
    WordFits(a, f.page);
    WordBytes(low, 0);
    WordBytes(low, high);
    var o := 2 * (Offset(a, f.page) / 2);
    assert f.Fill(a, MakeWord(low, high)).buf[o + 1] == high;
    assert f.Fill(a, MakeWord(low, 0)).buf[o + 1] == 0;
  }
}
