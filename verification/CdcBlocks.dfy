/** Blocks written with AVR109 commands read back: any number of write commands followed by any number
    of read commands, for flash and for EEPROM. */
module CdcBlocks {
  import opened Bytes
  import opened FlashMemory
  import opened CdcModel
  import opened CdcProtocol

  // The host's commands.

  function AddressCommand(hi: Byte, lo: Byte): seq<Byte> { [SET_ADDRESS, hi, lo] }

  function WriteCommand(memory: Byte, data: seq<Byte>): seq<Byte>
    requires |data| < 0x1_0000
  {
    [BLOCK_WRITE, High(|data|), Low(|data|), memory] + data
  }

  function ReadCommand(memory: Byte, size: Word): seq<Byte> { [BLOCK_READ, High(size), Low(size), memory] }

  // What a command does, in terms of its parts.

  lemma ExecAddress(d: Cdc, hi: Byte, lo: Byte)
    requires d.Valid()
    ensures Exec(d, AddressCommand(hi, lo)) == Outcome(d.(addr := AddressOf(hi, lo)), [OK], [])
  {
    hide AddressOf, Block, Cdc.Valid;
    var s := AddressCommand(hi, lo);
    assert Tail(s) == [hi, lo] && Tail([hi, lo]) == [lo] && Tail([lo]) == [];
  }

  lemma Header(c: Byte, size: Word, memory: Byte, data: seq<Byte>)
    ensures var s := [c, High(size), Low(size), memory] + data;
            && Head(s) == c
            && MakeWord(Head(Tail(Tail(s))), Head(Tail(s))) == size
            && Head(Tail(Tail(Tail(s)))) == memory && Tail(Tail(Tail(Tail(s)))) == data
  {
    var s := [c, High(size), Low(size), memory] + data;
    assert Tail(s) == [High(size), Low(size), memory] + data;
    assert Tail(Tail(s)) == [Low(size), memory] + data;
    assert Tail(Tail(Tail(s))) == [memory] + data;
    assert Tail(Tail(Tail(Tail(s)))) == data;
  }

  lemma ExecBlock(d: Cdc, s: seq<Byte>, write: bool)
    requires d.Valid() && Head(s) == if write then BLOCK_WRITE else BLOCK_READ
    ensures Exec(d, s) == Block(d, write, Tail(s))
  {
    hide Block, Head, Tail, Cdc.Valid;
  }

  lemma ExecWrite(d: Cdc, memory: Byte, data: seq<Byte>)
    requires d.Valid() && |data| < 0x1_0000 && (memory == MEMORY_FLASH || memory == MEMORY_EEPROM)
    ensures Exec(d, WriteCommand(memory, data)) == WriteBlock(d, memory, |data|, data)
  {
    hide Exec, WriteBlock, ReadBlock, Head, Tail, MakeWord, High, Low, Cdc.Valid;
    Header(BLOCK_WRITE, |data|, memory, data);
    ExecBlock(d, WriteCommand(memory, data), true);
  }

  lemma ExecRead(d: Cdc, memory: Byte, size: Word)
    requires d.Valid() && (memory == MEMORY_FLASH || memory == MEMORY_EEPROM)
    ensures Exec(d, ReadCommand(memory, size)) == ReadBlock(d, memory, size, [])
  {
    hide Exec, WriteBlock, ReadBlock, Head, Tail, MakeWord, High, Low, Cdc.Valid;
    Header(BLOCK_READ, size, memory, []);
    assert [BLOCK_READ, High(size), Low(size), memory] + [] == ReadCommand(memory, size);
    ExecBlock(d, ReadCommand(memory, size), false);
  }

  // Flash.

  lemma WriteTwo(f: Flash, addr: nat, low: Byte, s: seq<Byte>, n: nat)
    requires f.Valid() && addr < ADDRESS_SPACE && addr % 2 == 0 && |s| >= 2 && n >= 2
    ensures WriteFlash(f, addr, false, low, s, n) ==
            WriteFlash(f.Fill(addr, MakeWord(s[0], s[1])), Next(addr), false, s[0], s[2..], n - 2)
  {
    hide Flash.Fill, Flash.Valid, MakeWord, Next;
    assert Tail(Tail(s)) == s[2..];
    assert WriteFlash(f, addr, false, low, s, n) == WriteFlash(f, addr, true, s[0], s[1..], n - 1);
  }

  /** The write loop buffers the whole words behind the data already in flight. */
  lemma {:induction false} WriteFlashBuffers(
    f: Flash, mem: seq<Byte>, start: nat, done: seq<Byte>, p: nat, low: Byte, s: seq<Byte>)
    requires f.Valid() && InFlight(f, mem, start, done, p) && |done| % 2 == 0
    requires start + |done| + |s| <= p + f.page && |mem| <= 0x2_0000 && (start + |done|) % 2 == 0
    ensures var w := WriteFlash(f, start + |done|, false, low, s, |s|);
            InFlight(w.flash, mem, start, done + Words(s), p) && w.addr == start + |done + Words(s)| && w.rest == []
    decreases |s|
  {
    hide Flash.Fill, Flash.Valid, InFlight, WriteFlash, Low, High, MakeWord;
    FitsMemory(f, mem, start, done, p);
    if |s| < 2 {
      assert done + Words(s) == done;
      WriteRest(f, start + |done|, low, s);
    } else {
      var w := MakeWord(s[0], s[1]);
      WriteTwo(f, start + |done|, low, s, |s|);
      FillNext(f, mem, start, done, p, w);
      WordBytes(s[0], s[1]);
      assert done + [Low(w), High(w)] + Words(s[2..]) == done + Words(s);
      WriteFlashBuffers(f.Fill(start + |done|, w), mem, start, done + [Low(w), High(w)], p, s[0], s[2..]);
    }
  }

  /** A last byte that has no partner is read and dropped. */
  lemma WriteRest(f: Flash, addr: nat, low: Byte, s: seq<Byte>)
    requires f.Valid() && addr < ADDRESS_SPACE && addr % 2 == 0 && |s| < 2
    ensures WriteFlash(f, addr, false, low, s, |s|) == FlashWritten(f, addr, [])
  {
    if |s| == 1 {
      assert WriteFlash(f, addr, true, s[0], [], 0) == FlashWritten(f, addr, []);
    }
  }

  lemma FitsMemory(f: Flash, mem: seq<Byte>, start: nat, done: seq<Byte>, p: nat)
    requires InFlight(f, mem, start, done, p)
    ensures p + f.page <= |mem|
  {
  }

  /** All full pages so far are in flash and the current address is behind them. */
  ghost predicate WrittenTo(d: Cdc, mem: seq<Byte>, start: nat, done: seq<Byte>) {
    && d.Valid() && d.flash.Blank() && |mem| == |d.flash.mem|
    && Aligned(start, d.flash.page) && Aligned(|done|, d.flash.page)
    && d.addr == start + |done| <= |mem|
    && d.flash.mem == Overlay(mem, start, done, start + |done|)
  }

  lemma EvenDone(d: Cdc, mem: seq<Byte>, start: nat, done: seq<Byte>)
    requires WrittenTo(d, mem, start, done)
    ensures |done| % 2 == 0
  {
    AlignedEven(|done|, d.flash.page);
  }

  /** One block write: the page is erased, and then holds the data. */
  lemma WriteOne(d: Cdc, mem: seq<Byte>, start: nat, done: seq<Byte>, data: seq<Byte>)
    requires WrittenTo(d, mem, start, done) && |data| <= d.flash.page
    requires start + |done| + d.flash.page <= |mem|
    ensures var e := Exec(d, WriteCommand(MEMORY_FLASH, data));
            && e.reply == [OK] && e.rest == [] && e.cdc == d.(flash := e.cdc.flash, addr := d.addr + |Words(data)|)
            && e.cdc.flash.page == d.flash.page && e.cdc.flash.Blank()
            && e.cdc.flash.mem == Overlay(mem, start, done + Words(data), start + |done| + d.flash.page)
  {
    hide Exec, WriteCommand, WriteFlash, Flash.Erase, Flash.Commit, InFlight, Overlay, Offset;
    var p := start + |done|;
    ExecWrite(d, MEMORY_FLASH, data);
    EvenDone(d, mem, start, done);
    OpenPage(d.flash, mem, start, done);
    var f := d.flash.Erase(p);
    WriteFlashBuffers(f, mem, start, done, p, 0, data);
    CommitOpen(WriteFlash(f, p, false, 0, data, |data|).flash, mem, start, done + Words(data), p);
  }

  /** A full page leaves everything ready for the next block. */
  lemma WriteFullPage(d: Cdc, mem: seq<Byte>, start: nat, done: seq<Byte>, data: seq<Byte>)
    requires WrittenTo(d, mem, start, done) && |data| == d.flash.page && start + |done| + |data| <= |mem|
    ensures var e := Exec(d, WriteCommand(MEMORY_FLASH, data));
            e.reply == [OK] && e.rest == [] && WrittenTo(e.cdc, mem, start, done + data)
            && e.cdc == d.(flash := e.cdc.flash, addr := e.cdc.addr) && e.cdc.flash.page == d.flash.page
  {
    hide Exec, WriteCommand, Overlay, Offset;
    EvenPage(d.flash);
    assert Words(data) == data;
    WriteOne(d, mem, start, done, data);
    NextPage(|done|, d.flash.page);
    assert start + |done + data| == start + |done| + d.flash.page;
  }

  /** Blocks that fill whole pages, except perhaps the last. */
  ghost predicate PageBlocks(blocks: seq<seq<Byte>>, page: nat) {
    && (forall i | 0 <= i < |blocks| - 1 :: |blocks[i]| == page)
    && (blocks != [] ==> |blocks[|blocks| - 1]| <= page)
  }

  ghost function WriteCommands(memory: Byte, blocks: seq<seq<Byte>>): (r: seq<seq<Byte>>)
    requires forall i | 0 <= i < |blocks| :: |blocks[i]| < 0x1_0000
    ensures |r| == |blocks|
    decreases |blocks|
  {
    if blocks == [] then [] else [WriteCommand(memory, blocks[0])] + WriteCommands(memory, blocks[1..])
  }

  ghost predicate Confirmed(replies: seq<seq<Byte>>) { forall i | 0 <= i < |replies| :: replies[i] == [OK] }

  lemma RunStep(d: Cdc, commands: seq<seq<Byte>>)
    requires d.Valid() && commands != []
    ensures var e := Exec(d, commands[0]);
            var more := Run(e.cdc, commands[1..]);
            Run(d, commands) == Session(more.cdc, [e.reply] + more.replies)
  {
    hide Exec, Cdc.Valid;
  }

  /** One more command at the end of a session. */
  lemma {:induction false} RunNext(d: Cdc, commands: seq<seq<Byte>>, c: seq<Byte>)
    requires d.Valid()
    ensures var r := Run(d, commands);
            var e := Exec(r.cdc, c);
            Run(d, commands + [c]) == Session(e.cdc, r.replies + [e.reply])
    decreases |commands|
  {
    hide Exec, Run, Cdc.Valid;
    var all := commands + [c];
    RunStep(d, all);
    if commands == [] {
      assert all[1..] == [];
      RunNone(d);
      RunNone(Exec(d, c).cdc);
      assert [Exec(d, c).reply] + [] == [] + [Exec(d, c).reply];
    } else {
      assert all[0] == commands[0] && all[1..] == commands[1..] + [c];
      RunStep(d, commands);
      RunNext(Exec(d, commands[0]).cdc, commands[1..], c);
    }
  }

  lemma RunNone(d: Cdc)
    requires d.Valid()
    ensures Run(d, []) == Session(d, [])
  {
  }

  lemma TailBlocks(blocks: seq<seq<Byte>>, page: nat)
    requires PageBlocks(blocks, page) && |blocks| > 1
    ensures PageBlocks(blocks[1..], page) && |blocks[0]| == page
  {
    var more := blocks[1..];
    assert more[|more| - 1] == blocks[|blocks| - 1];
    assert forall i | 0 <= i < |more| - 1 :: more[i] == blocks[i + 1];
  }

  lemma OneFlat(block: seq<Byte>)
    ensures Flatten([block]) == block
  {
    assert Flatten([block]) == block + Flatten([]);
  }

  /** The session confirmed every command; in flash `data` lies at `start` and the rest of its last page
      is blank; nothing else but the current address has changed. */
  ghost predicate Laid(d: Cdc, r: Session, mem: seq<Byte>, start: nat, data: seq<Byte>, end: nat) {
    && Confirmed(r.replies) && r.cdc == d.(flash := r.cdc.flash, addr := r.cdc.addr)
    && r.cdc.flash.page == d.flash.page && r.cdc.flash.Blank()
    && r.cdc.flash.mem == Overlay(mem, start, data, end)
  }

  /** Consecutive block writes lay their blocks end to end, page by page. */
  lemma {:induction false} WriteAll(
    d: Cdc, mem: seq<Byte>, start: nat, done: seq<Byte>, blocks: seq<seq<Byte>>, end: nat)
    requires WrittenTo(d, mem, start, done) && blocks != [] && PageBlocks(blocks, d.flash.page)
    requires end == start + |done| + d.flash.page * |blocks| <= |mem|
    requires forall i | 0 <= i < |blocks| :: |blocks[i]| < 0x1_0000
    ensures Laid(d, Run(d, WriteCommands(MEMORY_FLASH, blocks)), mem, start, done + Words(Flatten(blocks)), end)
    decreases |blocks|
  {
    hide Exec, Run, WriteCommand, Overlay, Offset, WrittenTo, Flatten, PageBlocks, Cdc.Valid, Flash.Valid;
    var commands := WriteCommands(MEMORY_FLASH, blocks);
    Basics(d, mem, start, done);
    RunStep(d, commands);
    if |blocks| == 1 {
      assert blocks == [blocks[0]];
      OneFlat(blocks[0]);
      LastBlock(blocks, d.flash.page);
      WriteOne(d, mem, start, done, blocks[0]);
      assert commands[1..] == [];
      RunNone(Exec(d, commands[0]).cdc);
    } else {
      TailBlocks(blocks, d.flash.page);
      PagesLeft(d.flash.page, |blocks|);
      WriteFullPage(d, mem, start, done, blocks[0]);
      assert commands[1..] == WriteCommands(MEMORY_FLASH, blocks[1..]);
      WriteAll(Exec(d, commands[0]).cdc, mem, start, done + blocks[0], blocks[1..], end);
      FlattenFirst(done, blocks, d.flash.page);
    }
  }

  lemma Basics(d: Cdc, mem: seq<Byte>, start: nat, done: seq<Byte>)
    requires WrittenTo(d, mem, start, done)
    ensures d.Valid() && (d.flash.page == 128 || d.flash.page == 256)
  {
  }

  lemma LastBlock(blocks: seq<seq<Byte>>, page: nat)
    requires PageBlocks(blocks, page) && |blocks| == 1
    ensures |blocks[0]| <= page
  {
  }

  lemma PagesLeft(page: nat, n: nat)
    requires n > 1
    ensures page + page * (n - 1) == page * n && page * (n - 1) >= page
  {
  }

  lemma FlattenFirst(done: seq<Byte>, blocks: seq<seq<Byte>>, page: nat)
    requires blocks != [] && |blocks[0]| == page && (page == 128 || page == 256)
    ensures done + blocks[0] + Words(Flatten(blocks[1..])) == done + Words(Flatten(blocks))
  {
    hide Words;
    WordsBehind(blocks[0], Flatten(blocks[1..]), page / 2);
    SeqAssoc(done, blocks[0], Words(Flatten(blocks[1..])));
  }

  lemma WordsBehind(a: seq<Byte>, b: seq<Byte>, n: nat)
    requires |a| == 2 * n
    ensures Words(a + b) == a + Words(b)
  {
    assert |a + b| / 2 == n + |b| / 2;
  }

  lemma SeqAssoc(a: seq<Byte>, b: seq<Byte>, c: seq<Byte>)
    ensures a + b + c == a + (b + c)
  {
  }

  // Reading flash.

  lemma ReadNoFlash(f: Flash, addr: nat, high: bool)
    requires f.Valid() && addr < ADDRESS_SPACE && addr % 2 == 0
    ensures ReadFlash(f, addr, high, 0) == BlockRead([], addr)
    ensures high ==> 2 * ((addr + 1) / 2) == addr
  {
  }

  lemma ReadFlashStep(f: Flash, addr: nat, high: bool, n: nat)
    requires f.Valid() && |f.mem| <= 0x2_0000 && addr % 2 == 0 && addr + (if high then 1 else 0) < |f.mem| && n > 0
    ensures var more := ReadFlash(f, if high then addr + 2 else addr, !high, n - 1);
            ReadFlash(f, addr, high, n) == BlockRead([f.mem[addr + if high then 1 else 0]] + more.bytes, more.addr)
  {
    hide Or, Flash.Valid;
    OrHigh(addr);
    ReadInside(f, addr + if high then 1 else 0);
    assert Next(addr) == addr + 2;
  }

  /** Reading from either byte of a word returns the bytes from there on. */
  lemma {:induction false} ReadFlashBytes(f: Flash, addr: nat, high: bool, n: nat)
    requires f.Valid() && |f.mem| <= 0x2_0000 && addr % 2 == 0
    requires addr + (if high then 1 else 0) + n <= |f.mem|
    ensures addr < ADDRESS_SPACE
    ensures var pos := addr + if high then 1 else 0;
            var r := ReadFlash(f, addr, high, n);
            r.bytes == f.mem[pos..pos + n] && r.addr == 2 * ((pos + n) / 2)
    decreases n
  {
    hide ReadFlash, Flash.Valid;
    if n == 0 {
      ReadNoFlash(f, addr, high);
      EvenEnd(addr, 0);
    } else {
      ReadFlashStep(f, addr, high, n);
      ReadFlashBytes(f, if high then addr + 2 else addr, !high, n - 1);
      SliceFirst(f.mem, addr + (if high then 1 else 0), n);
    }
  }

  lemma EvenEnd(addr: nat, n: nat)
    requires addr % 2 == 0 && n % 2 == 0
    ensures 2 * ((addr + n) / 2) == addr + n
  {
  }

  lemma ReadOne(d: Cdc, size: Word)
    requires d.Valid() && d.addr + size <= |d.flash.mem|
    ensures Exec(d, ReadCommand(MEMORY_FLASH, size)) ==
            Outcome(d.(addr := 2 * ((d.addr + size) / 2)), d.flash.mem[d.addr..d.addr + size], [])
  {
    hide Exec, ReadCommand, ReadFlash;
    ExecRead(d, MEMORY_FLASH, size);
    ReadFlashBytes(d.flash, d.addr, false, size);
  }

  ghost function Total(sizes: seq<Word>): nat {
    if sizes == [] then 0 else sizes[0] as int + Total(sizes[1..])
  }

  ghost function ReadCommands(memory: Byte, sizes: seq<Word>): (r: seq<seq<Byte>>)
    ensures |r| == |sizes|
  {
    if sizes == [] then [] else [ReadCommand(memory, sizes[0])] + ReadCommands(memory, sizes[1..])
  }

  /** Every read but the last is of whole words: the next read starts at the word where the last one ended. */
  ghost predicate WordSizes(sizes: seq<Word>) { forall i | 0 <= i < |sizes| - 1 :: sizes[i] % 2 == 0 }

  /** Consecutive block reads return the flash from the current address on. */
  lemma {:induction false} ReadAll(d: Cdc, sizes: seq<Word>)
    requires d.Valid() && WordSizes(sizes) && d.addr + Total(sizes) <= |d.flash.mem|
    ensures var r := Run(d, ReadCommands(MEMORY_FLASH, sizes));
            && Flatten(r.replies) == d.flash.mem[d.addr..d.addr + Total(sizes)]
            && r.cdc == d.(addr := r.cdc.addr)
    decreases |sizes|
  {
    hide Exec, Run, ReadCommand, Flash.Valid, Flatten;
    if sizes == [] {
      RunNone(d);
      NoneFlat();
    } else {
      var commands := ReadCommands(MEMORY_FLASH, sizes);
      var n, a := sizes[0], d.addr;
      RunStep(d, commands);
      ReadOne(d, n);
      assert commands[1..] == ReadCommands(MEMORY_FLASH, sizes[1..]);
      var e := Exec(d, commands[0]).cdc;
      if |sizes| == 1 {
        RunNone(e);
        NoneFlat();
      } else {
        EvenEnd(a, n);
        MoreSizes(sizes);
        ReadAll(e, sizes[1..]);
      }
      FlattenMore(d.flash.mem[a..a + n], Run(e, commands[1..]).replies);
      SliceJoin(d.flash.mem, a, a + n, a + Total(sizes));
    }
  }

  lemma MoreSizes(sizes: seq<Word>)
    requires WordSizes(sizes) && sizes != []
    ensures WordSizes(sizes[1..])
  {
    var more := sizes[1..];
    assert forall i | 0 <= i < |more| - 1 :: more[i] == sizes[i + 1];
  }

  lemma NoneFlat()
    ensures Flatten<Byte>([]) == []
  {
  }

  lemma SliceJoin(s: seq<Byte>, a: nat, b: nat, c: nat)
    requires a <= b <= c <= |s|
    ensures s[a..b] + s[b..c] == s[a..c]
  {
  }

  lemma FlattenMore(first: seq<Byte>, more: seq<seq<Byte>>)
    ensures Flatten([first] + more) == first + Flatten(more)
  {
    assert ([first] + more)[1..] == more;
  }

  // Address lines. The current address has 32 bits; a flash of a power of two decodes only the low ones, so two
  // addresses that decode alike cannot be told apart.

  ghost predicate Mirror(d: Cdc, e: Cdc) {
    && d.Valid() && e.Valid() && UsbFlash(d.flash)
    && e == d.(addr := e.addr) && d.flash.Decode(d.addr) == d.flash.Decode(e.addr)
  }

  lemma DecodedMirror(d: Cdc, start: nat)
    requires d.Valid() && UsbFlash(d.flash) && start == d.flash.Decode(d.addr)
    ensures Mirror(d, d.(addr := start))
  {
    hide Offset, Wrap;
    WrapInside(start, |d.flash.mem|);
    WrapNext(d.addr, |d.flash.mem|);
  }

  lemma {:induction false} WrapNext(a: nat, n: nat)
    requires n > 2 && n % 2 == 0 && a % 2 == 0
    ensures Wrap(a, n) % 2 == 0 && Wrap(a + 1, n) == Wrap(a, n) + 1
    ensures Wrap(a + 2, n) == if Wrap(a, n) + 2 == n then 0 else Wrap(a, n) + 2
    decreases a
  {
    if a >= n {
      WrapNext(a - n, n);
    } else if a + 2 == n {
      WrapInside(0, n);
    }
  }

  lemma WrapSpace(f: Flash)
    requires UsbFlash(f)
    ensures Wrap(ADDRESS_SPACE, |f.mem|) == 0
  {
    hide Wrap;
    WrapIsMod(ADDRESS_SPACE, |f.mem|);
  }

  /** Stepping past the end of the address space stays in step with the flash. */
  lemma NextDecodes(f: Flash, a: nat, b: nat)
    requires UsbFlash(f) && a % 2 == 0 && b % 2 == 0 && a < ADDRESS_SPACE && b < ADDRESS_SPACE
    requires f.Decode(a) == f.Decode(b)
    ensures f.Decode(Next(a)) == f.Decode(Next(b)) && f.Decode(a + 1) == f.Decode(b + 1)
  {
    hide Offset, Aligned, Wrap;
    WrapNext(a, |f.mem|);
    WrapNext(b, |f.mem|);
    WrapInside(0, |f.mem|);
    WrapSpace(f);
  }

  /** Pages are decoded from the low address lines. */
  lemma {:induction false} WrapOffset(a: nat, n: nat, page: nat)
    requires (page == 128 || page == 256) && n > 0 && Aligned(n, page)
    ensures Offset(Wrap(a, n), page) == Offset(a, page)
    decreases a
  {
    hide Offset;
    if a >= n {
      WrapOffset(a - n, n, page);
      AlignedSum(n, a - n, page);
    }
  }

  lemma {:induction false} MirrorRead(f: Flash, a: nat, b: nat, high: bool, n: nat)
    requires UsbFlash(f) && a % 2 == 0 && b % 2 == 0 && a < ADDRESS_SPACE && b < ADDRESS_SPACE
    requires f.Decode(a) == f.Decode(b)
    ensures var r, q := ReadFlash(f, a, high, n), ReadFlash(f, b, high, n);
            r.bytes == q.bytes && f.Decode(r.addr) == f.Decode(q.addr)
    decreases n
  {
    hide Or, Flash.Decode, Next, UsbFlash;
    if n > 0 {
      OrHigh(a);
      OrHigh(b);
      NextDecodes(f, a, b);
      MirrorRead(f, if high then Next(a) else a, if high then Next(b) else b, !high, n - 1);
    }
  }

  lemma {:induction false} MirrorWrite(f: Flash, a: nat, b: nat, high: bool, low: Byte, s: seq<Byte>, n: nat)
    requires UsbFlash(f) && a % 2 == 0 && b % 2 == 0 && a < ADDRESS_SPACE && b < ADDRESS_SPACE
    requires f.Decode(a) == f.Decode(b)
    ensures var r, q := WriteFlash(f, a, high, low, s, n), WriteFlash(f, b, high, low, s, n);
            r.flash == q.flash && r.rest == q.rest && f.Decode(r.addr) == f.Decode(q.addr)
    decreases n
  {
    hide Wrap, Next, MakeWord, Low, High, Offset;
    if n > 0 {
      if high {
        NextDecodes(f, a, b);
        WrapOffset(a, |f.mem|, f.page);
        WrapOffset(b, |f.mem|, f.page);
        var g := f.Fill(a, MakeWord(low, Head(s)));
        FilledDecode(f, g, a);
        FilledDecode(f, g, Next(a));
        FilledDecode(f, g, Next(b));
        MirrorWrite(g, Next(a), Next(b), false, low, Tail(s), n - 1);
        FilledDecode(f, g, WriteFlash(g, Next(a), false, low, Tail(s), n - 1).addr);
        FilledDecode(f, g, WriteFlash(g, Next(b), false, low, Tail(s), n - 1).addr);
      } else {
        MirrorWrite(f, a, b, true, Head(s), Tail(s), n - 1);
      }
    }
  }

  lemma FilledDecode(f: Flash, g: Flash, a: nat)
    requires UsbFlash(f) && g.Valid() && g.mem == f.mem
    ensures UsbFlash(g) && g.Decode(a) == f.Decode(a)
  {
  }

  /** A block command for flash. */
  ghost predicate FlashCommand(c: seq<Byte>) {
    |c| >= 4 && (c[0] == BLOCK_WRITE || c[0] == BLOCK_READ) && c[3] == MEMORY_FLASH
  }

  ghost predicate FlashCommands(cs: seq<seq<Byte>>) { forall i | 0 <= i < |cs| :: FlashCommand(cs[i]) }

  lemma MirrorWriteBlock(d: Cdc, e: Cdc, size: Word, s: seq<Byte>)
    requires Mirror(d, e)
    ensures var r, q := WriteBlock(d, MEMORY_FLASH, size, s), WriteBlock(e, MEMORY_FLASH, size, s);
            r.reply == q.reply && Mirror(r.cdc, q.cdc)
  {
    hide WriteFlash, Flash.Decode, Offset, AndByte;
    var f := d.flash.Erase(d.addr);
    assert f == d.flash.Erase(e.addr);
    SameDecode(d.flash, f, d.addr);
    SameDecode(d.flash, f, e.addr);
    MirrorWrite(f, d.addr, e.addr, false, 0, s, size);
    var w, v := WriteFlash(f, d.addr, false, 0, s, size), WriteFlash(f, e.addr, false, 0, s, size);
    SameDecode(f, w.flash, d.addr);
    SameDecode(f, w.flash, e.addr);
    var g := w.flash.Commit(d.addr);
    assert g == v.flash.Commit(e.addr);
    SameDecode(f, g, w.addr);
    SameDecode(f, g, v.addr);
  }

  lemma MirrorReadBlock(d: Cdc, e: Cdc, size: Word, s: seq<Byte>)
    requires Mirror(d, e)
    ensures var r, q := ReadBlock(d, MEMORY_FLASH, size, s), ReadBlock(e, MEMORY_FLASH, size, s);
            r.reply == q.reply && Mirror(r.cdc, q.cdc)
  {
    hide ReadFlash, Flash.Decode, Offset;
    MirrorRead(d.flash, d.addr, e.addr, false, size);
  }

  lemma MirrorExec(d: Cdc, e: Cdc, c: seq<Byte>)
    requires Mirror(d, e) && FlashCommand(c)
    ensures Exec(d, c).reply == Exec(e, c).reply && Mirror(Exec(d, c).cdc, Exec(e, c).cdc)
  {
    hide Exec, WriteBlock, ReadBlock, Mirror, MakeWord;
    MirrorValid(d, e);
    ExecBlock(d, c, c[0] == BLOCK_WRITE);
    ExecBlock(e, c, c[0] == BLOCK_WRITE);
    assert Tail(c)[2..] == c[3..];
    var size := MakeWord(c[2], c[1]);
    MirrorWriteBlock(d, e, size, Tail(Tail(Tail(Tail(c)))));
    MirrorReadBlock(d, e, size, Tail(Tail(Tail(Tail(c)))));
  }

  lemma MirrorValid(d: Cdc, e: Cdc)
    requires Mirror(d, e)
    ensures d.Valid() && e.Valid()
  {
  }

  /** Flash commands give the same replies at addresses that decode alike, and leave such addresses. */
  lemma {:induction false} MirrorRun(d: Cdc, e: Cdc, commands: seq<seq<Byte>>)
    requires d.Valid() && e.Valid() && Mirror(d, e) && FlashCommands(commands)
    ensures Run(d, commands).replies == Run(e, commands).replies
    ensures Mirror(Run(d, commands).cdc, Run(e, commands).cdc)
    decreases |commands|
  {
    hide Exec, Mirror, FlashCommand, Cdc.Valid;
    if commands != [] {
      MirrorExec(d, e, commands[0]);
      MirrorRun(Exec(d, commands[0]).cdc, Exec(e, commands[0]).cdc, commands[1..]);
    }
  }

  lemma {:induction false} WritesAreFlash(blocks: seq<seq<Byte>>)
    requires forall i | 0 <= i < |blocks| :: |blocks[i]| < 0x1_0000
    ensures FlashCommands(WriteCommands(MEMORY_FLASH, blocks))
    decreases |blocks|
  {
    if blocks != [] {
      WritesAreFlash(blocks[1..]);
      assert FlashCommand(WriteCommand(MEMORY_FLASH, blocks[0]));
    }
  }

  lemma {:induction false} ReadsAreFlash(sizes: seq<Word>)
    ensures FlashCommands(ReadCommands(MEMORY_FLASH, sizes))
  {
    if sizes != [] {
      ReadsAreFlash(sizes[1..]);
      assert FlashCommand(ReadCommand(MEMORY_FLASH, sizes[0]));
    }
  }

  // The round trip.

  lemma RunAddress(d: Cdc, hi: Byte, lo: Byte, commands: seq<seq<Byte>>)
    requires d.Valid()
    ensures var e := d.(addr := AddressOf(hi, lo));
            && e.Valid()
            && Run(d, [AddressCommand(hi, lo)] + commands) ==
               Session(Run(e, commands).cdc, [[OK]] + Run(e, commands).replies)
  {
    hide Exec, Run, AddressCommand, AddressOf;
    ExecAddress(d, hi, lo);
    RunStep(d, [AddressCommand(hi, lo)] + commands);
    assert ([AddressCommand(hi, lo)] + commands)[1..] == commands;
  }

  lemma {:induction false} FlatLength(blocks: seq<seq<Byte>>, page: nat)
    requires PageBlocks(blocks, page)
    ensures |Flatten(blocks)| <= page * |blocks|
    decreases |blocks|
  {
    hide PageBlocks;
    if |blocks| == 1 {
      LastBlock(blocks, page);
      assert blocks == [blocks[0]];
      OneFlat(blocks[0]);
    } else if |blocks| > 1 {
      TailBlocks(blocks, page);
      FlatLength(blocks[1..], page);
      PagesLeft(page, |blocks|);
    }
  }

  /** The flash and the rest of the state after the writes of a round trip. */
  lemma WritePhase(d: Cdc, hi: Byte, lo: Byte, blocks: seq<seq<Byte>>, start: nat, end: nat)
    requires d.Valid() && UsbFlash(d.flash) && d.flash.Blank() && start == d.flash.Decode(AddressOf(hi, lo))
    requires Aligned(start, d.flash.page) && blocks != [] && PageBlocks(blocks, d.flash.page)
    requires forall i | 0 <= i < |blocks| :: |blocks[i]| < 0x1_0000
    requires end == start + d.flash.page * |blocks| <= |d.flash.mem|
    ensures Laid(d, Run(d, [AddressCommand(hi, lo)] + WriteCommands(MEMORY_FLASH, blocks)), d.flash.mem, start,
                 Words(Flatten(blocks)), end)
  {
    hide Run, AddressCommand, AddressOf, WriteCommand, Flatten, PageBlocks, Overlay, Offset, FlashCommands, UsbFlash,
      Flash.Decode;
    var commands := WriteCommands(MEMORY_FLASH, blocks);
    RunAddress(d, hi, lo, commands);
    var e := d.(addr := start);
    DecodedMirror(d.(addr := AddressOf(hi, lo)), start);
    WritesAreFlash(blocks);
    MirrorRun(d.(addr := AddressOf(hi, lo)), e, commands);
    Untouched(d.flash.mem, start);
    ZeroAligned(d.flash.page);
    PositiveProduct(d.flash.page, |blocks|);
    WriteAll(e, d.flash.mem, start, [], blocks, end);
    assert [] + Words(Flatten(blocks)) == Words(Flatten(blocks));
  }

  lemma PositiveProduct(a: nat, b: nat)
    ensures a * b >= 0
  {
  }

  lemma Untouched(mem: seq<Byte>, start: nat)
    ensures mem == Overlay(mem, start, [], start)
  {
  }

  lemma OverlayPrefix(mem: seq<Byte>, start: nat, data: seq<Byte>, end: nat, n: nat)
    requires start + |data| <= |mem| && n <= |data|
    ensures Overlay(mem, start, data, end)[start..start + n] == data[..n]
  {
  }

  lemma ReadPhase(d: Cdc, hi: Byte, lo: Byte, sizes: seq<Word>, start: nat)
    requires d.Valid() && UsbFlash(d.flash) && start == d.flash.Decode(AddressOf(hi, lo))
    requires WordSizes(sizes) && start + Total(sizes) <= |d.flash.mem|
    ensures var r := Run(d, [AddressCommand(hi, lo)] + ReadCommands(MEMORY_FLASH, sizes));
            && r.replies != [] && r.replies[0] == [OK]
            && Flatten(r.replies[1..]) == d.flash.mem[start..start + Total(sizes)]
            && r.cdc == d.(addr := r.cdc.addr)
  {
    hide Run, AddressCommand, AddressOf, ReadCommands, Flatten, Total, UsbFlash, FlashCommands, WordSizes,
      Flash.Decode, Flash.Valid;
    var gets := ReadCommands(MEMORY_FLASH, sizes);
    RunAddress(d, hi, lo, gets);
    var e := d.(addr := start);
    DecodedMirror(d.(addr := AddressOf(hi, lo)), start);
    ReadsAreFlash(sizes);
    MirrorRun(d.(addr := AddressOf(hi, lo)), e, gets);
    ReadAll(e, sizes);
    assert ([[OK]] + Run(e, gets).replies)[1..] == Run(e, gets).replies;
  }

  /** Block round trip: an address that decodes to the start of a page and any number of block writes, all but
      the last of a full page, then the address again and any number of block reads, all but the last of whole
      words, return the bytes written, but for a last byte that has no partner; the rest of the last page is
      blank, and nothing else has changed. */
  lemma FlashRoundTrip(d: Cdc, hi: Byte, lo: Byte, blocks: seq<seq<Byte>>, sizes: seq<Word>, start: nat, end: nat)
    requires d.Valid() && UsbFlash(d.flash) && d.flash.Blank() && start == d.flash.Decode(AddressOf(hi, lo))
    requires Aligned(start, d.flash.page) && blocks != [] && PageBlocks(blocks, d.flash.page)
    requires forall i | 0 <= i < |blocks| :: |blocks[i]| < 0x1_0000
    requires end == start + d.flash.page * |blocks| <= |d.flash.mem|
    requires WordSizes(sizes) && Total(sizes) <= |Words(Flatten(blocks))|
    ensures var w := Run(d, [AddressCommand(hi, lo)] + WriteCommands(MEMORY_FLASH, blocks));
            var r := Run(w.cdc, [AddressCommand(hi, lo)] + ReadCommands(MEMORY_FLASH, sizes));
            && Laid(d, w, d.flash.mem, start, Words(Flatten(blocks)), end)
            && r.replies[0] == [OK] && Flatten(r.replies[1..]) == Flatten(blocks)[..Total(sizes)]
            && r.cdc == w.cdc.(addr := r.cdc.addr)
  {
    hide Run, AddressCommand, AddressOf, WriteCommands, ReadCommands, Flatten, PageBlocks, Overlay, Offset, Confirmed,
      Total,
      Cdc.Valid, Flash.Decode, WordSizes;
    WritePhase(d, hi, lo, blocks, start, end);
    FlatLength(blocks, d.flash.page);
    var w := Run(d, [AddressCommand(hi, lo)] + WriteCommands(MEMORY_FLASH, blocks));
    SameDecode(d.flash, w.cdc.flash, AddressOf(hi, lo));
    ReadPhase(w.cdc, hi, lo, sizes, start);
    OverlayPrefix(d.flash.mem, start, Words(Flatten(blocks)), end, Total(sizes));
    assert Words(Flatten(blocks))[..Total(sizes)] == Flatten(blocks)[..Total(sizes)];
  }

  lemma SameDecode(f: Flash, g: Flash, a: nat)
    requires UsbFlash(f) && g.Valid() && |g.mem| == |f.mem|
    ensures UsbFlash(g) && g.Decode(a) == f.Decode(a)
  {
  }

  // EEPROM.

  lemma {:induction false} WriteEepromBytes(e: seq<Byte>, addr: nat, s: seq<Byte>)
    requires addr % 2 == 0 && addr / 2 + |s| <= |e| <= 0x2_0000 && |e| > 0
    ensures addr < ADDRESS_SPACE
    ensures WriteEeprom(e, addr, s, |s|) == EepromWritten(Splice(e, addr / 2, s), addr + 2 * |s|, [])
    decreases |s|
  {
    hide Splice;
    if s == [] {
      SpliceNone(e, addr / 2);
    } else {
      WrapInside(addr / 2, |e|);
      SpliceFirst(e, addr / 2, s);
      WriteEepromBytes(e[addr / 2 := s[0]], addr + 2, s[1..]);
    }
  }

  lemma ReadNoEeprom(e: seq<Byte>, addr: nat)
    requires addr % 2 == 0 && addr / 2 <= |e| <= 0x2_0000 && |e| > 0
    ensures addr < ADDRESS_SPACE && ReadEeprom(e, addr, 0) == BlockRead([], addr)
  {
  }

  lemma ReadEepromStep(e: seq<Byte>, addr: nat, n: nat)
    requires addr % 2 == 0 && addr / 2 < |e| <= 0x2_0000 && n > 0
    ensures addr + 2 < ADDRESS_SPACE
    ensures var more := ReadEeprom(e, addr + 2, n - 1);
            ReadEeprom(e, addr, n) == BlockRead([e[addr / 2]] + more.bytes, more.addr)
  {
    WrapInside(addr / 2, |e|);
  }

  lemma {:induction false} ReadEepromBytes(e: seq<Byte>, addr: nat, n: nat)
    requires addr % 2 == 0 && addr / 2 + n <= |e| <= 0x2_0000 && |e| > 0
    ensures addr < ADDRESS_SPACE
    ensures ReadEeprom(e, addr, n) == BlockRead(e[addr / 2..addr / 2 + n], addr + 2 * n)
    decreases n
  {
    hide ReadEeprom;
    var a := addr / 2;
    if n == 0 {
      ReadNoEeprom(e, addr);
    } else {
      ReadEepromStep(e, addr, n);
      ReadEepromBytes(e, addr + 2, n - 1);
      SliceFirst(e, a, n);
    }
  }

  /** Consecutive block writes of any sizes lay their blocks end to end. */
  lemma {:induction false} WriteAllEeprom(d: Cdc, blocks: seq<seq<Byte>>)
    requires d.Valid() && d.addr / 2 + |Flatten(blocks)| <= |d.eeprom| <= 0x2_0000
    requires forall i | 0 <= i < |blocks| :: |blocks[i]| < 0x1_0000
    ensures var r := Run(d, WriteCommands(MEMORY_EEPROM, blocks));
            && Confirmed(r.replies)
            && r.cdc == d.(eeprom := Splice(d.eeprom, d.addr / 2, Flatten(blocks)),
                           addr := d.addr + 2 * |Flatten(blocks)|)
    decreases |blocks|
  {
    hide Exec, Run, WriteCommand, Splice, Flash.Valid;
    if blocks == [] {
      RunNone(d);
      SpliceNone(d.eeprom, d.addr / 2);
    } else {
      var commands := WriteCommands(MEMORY_EEPROM, blocks);
      RunStep(d, commands);
      assert Flatten(blocks) == blocks[0] + Flatten(blocks[1..]);
      WriteOneEeprom(d, blocks[0]);
      var e := d.(eeprom := Splice(d.eeprom, d.addr / 2, blocks[0]), addr := d.addr + 2 * |blocks[0]|);
      assert commands[1..] == WriteCommands(MEMORY_EEPROM, blocks[1..]);
      WriteAllEeprom(e, blocks[1..]);
      SpliceMore(d.eeprom, d.addr / 2, blocks[0], Flatten(blocks[1..]));
    }
  }

  lemma WriteOneEeprom(d: Cdc, data: seq<Byte>)
    requires d.Valid() && d.addr / 2 + |data| <= |d.eeprom| <= 0x2_0000 && |data| < 0x1_0000
    ensures Exec(d, WriteCommand(MEMORY_EEPROM, data)) ==
            Outcome(d.(eeprom := Splice(d.eeprom, d.addr / 2, data), addr := d.addr + 2 * |data|), [OK], [])
  {
    hide Exec, WriteCommand, WriteFlash, WriteEeprom, Splice;
    ExecWrite(d, MEMORY_EEPROM, data);
    WriteEepromBytes(d.eeprom, d.addr, data);
  }

  /** Consecutive block reads of any sizes return the EEPROM from the current address on. */
  lemma {:induction false} ReadAllEeprom(d: Cdc, sizes: seq<Word>, a: nat)
    requires d.Valid() && d.addr == 2 * a && a + Total(sizes) <= |d.eeprom| <= 0x2_0000
    ensures var r := Run(d, ReadCommands(MEMORY_EEPROM, sizes));
            && Flatten(r.replies) == d.eeprom[a..a + Total(sizes)]
            && r.cdc == d.(addr := 2 * (a + Total(sizes)))
    decreases |sizes|
  {
    hide Exec, Run, ReadCommand, Flash.Valid, Flatten;
    if sizes == [] {
      RunNone(d);
      NoneFlat();
    } else {
      var commands := ReadCommands(MEMORY_EEPROM, sizes);
      var n := sizes[0];
      RunStep(d, commands);
      ReadOneEeprom(d, n, a);
      assert commands[1..] == ReadCommands(MEMORY_EEPROM, sizes[1..]);
      var e := d.(addr := 2 * (a + n));
      ReadAllEeprom(e, sizes[1..], a + n);
      FlattenMore(d.eeprom[a..a + n], Run(e, commands[1..]).replies);
      SliceJoin(d.eeprom, a, a + n, a + Total(sizes));
    }
  }

  lemma ReadOneEeprom(d: Cdc, size: Word, a: nat)
    requires d.Valid() && d.addr == 2 * a && a + size <= |d.eeprom| <= 0x2_0000
    ensures Exec(d, ReadCommand(MEMORY_EEPROM, size)) ==
            Outcome(d.(addr := 2 * (a + size)), d.eeprom[a..a + size], [])
  {
    hide Exec, ReadCommand, ReadFlash, ReadEeprom;
    ExecRead(d, MEMORY_EEPROM, size);
    ReadEepromBytes(d.eeprom, d.addr, size);
  }

  lemma EepromWritePhase(d: Cdc, hi: Byte, lo: Byte, blocks: seq<seq<Byte>>, start: nat)
    requires d.Valid() && hi < 0x40 && start == 0x100 * hi as int + lo as int
    requires forall i | 0 <= i < |blocks| :: |blocks[i]| < 0x1_0000
    requires start + |Flatten(blocks)| <= |d.eeprom| <= 0x2_0000
    ensures var w := Run(d, [AddressCommand(hi, lo)] + WriteCommands(MEMORY_EEPROM, blocks));
            && Confirmed(w.replies)
            && w.cdc == d.(eeprom := Splice(d.eeprom, start, Flatten(blocks)), addr := w.cdc.addr)
  {
    hide Run, AddressCommand, AddressOf, WriteCommands, Flatten, Splice, Flash.Valid;
    RunAddress(d, hi, lo, WriteCommands(MEMORY_EEPROM, blocks));
    LowAddress(hi, lo);
    WriteAllEeprom(d.(addr := 2 * start), blocks);
  }

  lemma EepromReadPhase(d: Cdc, hi: Byte, lo: Byte, sizes: seq<Word>, start: nat)
    requires d.Valid() && hi < 0x40 && start == 0x100 * hi as int + lo as int
    requires start + Total(sizes) <= |d.eeprom| <= 0x2_0000
    ensures var r := Run(d, [AddressCommand(hi, lo)] + ReadCommands(MEMORY_EEPROM, sizes));
            && r.replies != [] && Flatten(r.replies[1..]) == d.eeprom[start..start + Total(sizes)]
            && r.cdc == d.(addr := r.cdc.addr)
  {
    hide Run, AddressCommand, AddressOf, ReadCommands, Flatten, Flash.Valid, Total;
    var gets := ReadCommands(MEMORY_EEPROM, sizes);
    RunAddress(d, hi, lo, gets);
    LowAddress(hi, lo);
    var e := d.(addr := 2 * start);
    ReadAllEeprom(e, sizes, start);
    assert ([[OK]] + Run(e, gets).replies)[1..] == Run(e, gets).replies;
  }

  /** The EEPROM round trip, with blocks and reads of any sizes; the flash is not touched. */
  lemma EepromRoundTrip(d: Cdc, hi: Byte, lo: Byte, blocks: seq<seq<Byte>>, sizes: seq<Word>, start: nat)
    requires d.Valid() && hi < 0x40 && start == 0x100 * hi as int + lo as int
    requires forall i | 0 <= i < |blocks| :: |blocks[i]| < 0x1_0000
    requires start + |Flatten(blocks)| <= |d.eeprom| <= 0x2_0000 && Total(sizes) <= |Flatten(blocks)|
    ensures var w := Run(d, [AddressCommand(hi, lo)] + WriteCommands(MEMORY_EEPROM, blocks));
            var r := Run(w.cdc, [AddressCommand(hi, lo)] + ReadCommands(MEMORY_EEPROM, sizes));
            && Confirmed(w.replies)
            && w.cdc == d.(eeprom := Splice(d.eeprom, start, Flatten(blocks)), addr := w.cdc.addr)
            && Flatten(r.replies[1..]) == Flatten(blocks)[..Total(sizes)] && r.cdc == w.cdc.(addr := r.cdc.addr)
  {
    hide Run, AddressCommand, WriteCommands, ReadCommands, Flatten, Splice, Cdc.Valid, Total, Confirmed;
    EepromWritePhase(d, hi, lo, blocks, start);
    var w := Run(d, [AddressCommand(hi, lo)] + WriteCommands(MEMORY_EEPROM, blocks));
    EepromReadPhase(w.cdc, hi, lo, sizes, start);
    SplicePrefix(d.eeprom, start, Flatten(blocks), Total(sizes));
  }
}
