/** Host and device together: what the programming loop leaves in the device's flash. */
module HidProgramming {
  import opened Bytes
  import opened FlashMemory
  import opened Endpoints
  import opened HidModel

  // Packets.

  lemma {:induction false} PacketsWhole(data: seq<Byte>)
    requires |data| % 2 == 0 && data != []
    ensures Packets(data) != [] && Flatten(Packets(data)) == data
    ensures OutPipe([], Packets(data)).WholeWords()
    decreases |data|
  {
    if |data| <= CONTROL_PACKET {
      assert Flatten([data]) == data + Flatten([]);
    } else {
      var rest := data[CONTROL_PACKET..];
      PacketsWhole(rest);
      var ps := Packets(data);
      assert ps[0] == data[..CONTROL_PACKET] && ps[1..] == Packets(rest);
    }
  }

  // One report.

  lemma FillPageStep(f: Flash, a: nat, out: OutPipe, k: nat)
    requires f.Valid() && k < f.page / 2 && !out.Dry()
    ensures FillPage(f, a, out, k) ==
            FillPage(f.Fill(a + 2 * k, out.Ready().PeekWord()), a, out.Ready().DropWord(), k + 1)
  {
    hide Flash.Fill, Flash.Valid;
  }

  lemma FillPageEnd(f: Flash, a: nat, out: OutPipe)
    requires f.Valid()
    ensures FillPage(f, a, out, f.page / 2) == Filled(f, true)
  {
  }

  /** The fill loop buffers exactly the bytes that follow on the stream. */
  lemma {:induction false} FillPageBuffers(f: Flash, mem: seq<Byte>, a: nat, done: seq<Byte>, out: OutPipe, k: nat)
    requires f.Valid() && (f.page == 128 || f.page == 256)
    requires InFlight(f, mem, a, done, a) && |done| == 2 * k && k <= f.page / 2
    requires out.WholeWords() && 2 * k + |out.Stream()| == f.page
    ensures var r := FillPage(f, a, out, k);
            r.complete && InFlight(r.flash, mem, a, done + out.Stream(), a)
    decreases f.page / 2 - k
  {
    hide Flash.Fill, Flash.Valid, InFlight, FillPage, OutPipe.Stream, OutPipe.WholeWords, Low, High;
    if k == f.page / 2 {
      FillPageEnd(f, a, out);
      assert done + out.Stream() == done;
    } else {
      ReadWord(out);
      FillPageStep(f, a, out, k);
      var w := out.Ready().PeekWord();
      FillNext(f, mem, a, done, a, w);
      NextWord(out, w);
      FillPageBuffers(f.Fill(a + 2 * k, w), mem, a, done + [Low(w), High(w)], out.Ready().DropWord(), k + 1);
      assert done + [Low(w), High(w)] + out.Stream()[2..] == done + out.Stream();
    }
  }

  lemma NextWord(out: OutPipe, w: Word)
    requires |out.Stream()| >= 2 && w == MakeWord(out.Stream()[0], out.Stream()[1])
    ensures Low(w) == out.Stream()[0] && High(w) == out.Stream()[1]
  {
  }

  /** The first word of a report is its address, and what follows is its page data. */
  lemma ReportHeader(w: Word, data: seq<Byte>)
    requires |data| % 2 == 0
    ensures var ps := Packets([Low(w), High(w)] + data);
            && ps != []
            && var out := OutPipe(ps[0], ps[1..]);
               out.PeekWord() == w && out.DropWord().Stream() == data && out.DropWord().WholeWords()
  {
    hide Packets, OutPipe.PeekWord, OutPipe.DropWord, OutPipe.Stream, OutPipe.WholeWords, Flatten, Low, High, MakeWord;
    var report := [Low(w), High(w)] + data;
    PacketsWhole(report);
    var ps := Packets(report);
    FirstPacket(ps);
    ReadWord(OutPipe(ps[0], ps[1..]));
    WordParts(w);
    assert report[2..] == data;
  }

  lemma FirstPacket(ps: seq<seq<Byte>>)
    requires ps != [] && OutPipe([], ps).WholeWords()
    ensures var out := OutPipe(ps[0], ps[1..]);
            out.WholeWords() && out.Stream() == Flatten(ps) && !out.Dry() && out.Ready() == out
  {
  }

  /** A page report erases and programs exactly its page. */
  lemma ReportPrograms(d: Device, w: Word, data: seq<Byte>)
    requires d.flash.Valid() && (d.flash.page == 128 || d.flash.page == 256) && d.flash.Blank()
    requires |data| == d.flash.page && d.bootStart <= |d.flash.mem|
    requires w != START_APPLICATION && Aligned(PageAddress(d.far, w), d.flash.page)
    ensures var e := SetReport(d, Packets([Low(w), High(w)] + data));
            var a := PageAddress(d.far, w);
            && e == d.(flash := e.flash) && e.flash.page == d.flash.page && e.flash.Blank()
            && e.flash.mem == if a < d.bootStart then Overlay(d.flash.mem, a, data, a + |data|) else d.flash.mem
  {
    hide Packets, Flash.Erase, Flash.Fill, Flash.Commit, Flash.Valid, FillPage, Overlay, Offset, PageAddress, InFlight,
      OutPipe.PeekWord, OutPipe.DropWord, OutPipe.Stream, OutPipe.WholeWords, Low, High;
    EvenPage(d.flash);
    ReportHeader(w, data);
    var ps := Packets([Low(w), High(w)] + data);
    var out := OutPipe(ps[0], ps[1..]).DropWord();
    var a := PageAddress(d.far, w);
    if a < d.bootStart {
      Opened(d.flash, a);
      FillPageBuffers(d.flash.Erase(a), d.flash.mem, a, [], out, 0);
      assert [] + data == data;
      CommitOpen(FillPage(d.flash.Erase(a), a, out, 0).flash, d.flash.mem, a, data, a);
    }
  }

  lemma Opened(f: Flash, a: nat)
    requires f.Valid() && f.Blank() && Aligned(a, f.page) && a < |f.mem|
    ensures InFlight(f.Erase(a), f.mem, a, [], a)
  {
    assert f.mem == Overlay(f.mem, a, [], a);
    OpenPage(f, f.mem, a, []);
  }

  // The whole loop.

  /** A part the loader supports, as its option table and the device's memory describe it. */
  ghost predicate Part(d: Device, codeSize: nat, block: nat) {
    && d.flash.Valid() && d.flash.Blank()
    && block == d.flash.page && |d.flash.mem| == codeSize
    && Aligned(d.bootStart, d.flash.page) && 0 < d.bootStart <= codeSize
    && ((codeSize < 0x1_0000 && !d.far) || (codeSize == 0x2_0000 && block == 256 && d.far))
  }

  /** On these parts the device recovers the address the host sent. */
  lemma AddressesAgree(d: Device, codeSize: nat, block: nat, addr: nat)
    requires Part(d, codeSize, block) && Aligned(addr, block) && addr < codeSize
    ensures PageAddress(d.far, AddressWord(codeSize, addr)) == addr
    ensures AddressWord(codeSize, addr) != START_APPLICATION
  {
    if codeSize < 0x1_0000 {
      NotLast(addr, block);
    } else {
      FarAddress(addr);
    }
  }

  lemma NotLast(addr: nat, block: nat)
    requires block == 128 || block == 256
    requires Aligned(addr, block) && addr < 0x1_0000
    ensures addr % 0x1_0000 == addr && addr != 0xFFFF
  {
  }

  lemma FarAddress(addr: nat)
    requires addr % 256 == 0 && addr < 0x2_0000
    ensures addr / 0x100 % 0x1_0000 == addr / 0x100 && 0x100 * (addr / 0x100) == addr && addr / 0x100 != 0xFFFF
  {
  }

  /** What the loop has written at address x once it has passed it. */
  ghost function FinalByte(mem: seq<Byte>, image: Image, block: nat, bootStart: nat, x: nat): Byte
    requires image.Valid() && (block == 128 || block == 256) && x < |mem|
  {
    var p := x - Offset(x, block);
    if p < bootStart && IsSent(image, p, block) then GetData(image, p, block)[Offset(x, block)] else mem[x]
  }

  /** One turn of the loop, seen from any address. */
  lemma OneBlock(d: Device, image: Image, codeSize: nat, block: nat, addr: nat, x: nat)
    requires Part(d, codeSize, block) && image.Valid()
    requires Aligned(addr, block) && addr < codeSize && x < codeSize && IsSent(image, addr, block)
    ensures var e := SetReport(d, Packets(Report(image, codeSize, block, addr)));
            && Part(e, codeSize, block) && e == d.(flash := e.flash)
            && e.flash.mem[x] == if addr <= x < addr + block && addr < d.bootStart
                                 then GetData(image, addr, block)[x - addr] else d.flash.mem[x]
  {
    hide Packets, SetReport, GetData, IsSent, Offset, Low, High, AddressWord;
    AddressesAgree(d, codeSize, block, addr);
    ReportPrograms(d, AddressWord(codeSize, addr), GetData(image, addr, block));
  }

  /** The programming loop, from addr on: every page from there is as FinalByte says, and every page
      before it is untouched. */
  lemma {:induction false} ProgramFromBytes(d: Device, image: Image, codeSize: nat, block: nat, addr: nat, x: nat)
    requires Part(d, codeSize, block) && image.Valid() && Aligned(addr, block) && x < codeSize
    ensures var r := ProgramFrom(d, image, codeSize, block, addr);
            && Part(r, codeSize, block) && r == d.(flash := r.flash)
            && r.flash.mem[x] == if x < addr then d.flash.mem[x]
                                 else FinalByte(d.flash.mem, image, block, d.bootStart, x)
    decreases if addr < codeSize then codeSize - addr else 0
  {
    hide SetReport, Report, IsSent, GetData, Offset;
    if addr < codeSize {
      NextPage(addr, block);
      var e := if IsSent(image, addr, block) then SetReport(d, Packets(Report(image, codeSize, block, addr))) else d;
      if IsSent(image, addr, block) {
        OneBlock(d, image, codeSize, block, addr, x);
      }
      ProgramFromBytes(e, image, codeSize, block, addr + block, x);
      PageOfByte(addr, block, x);
      Unfold(d, image, codeSize, block, addr);
    }
  }

  lemma Unfold(d: Device, image: Image, codeSize: nat, block: nat, addr: nat)
    requires d.flash.Valid() && image.Valid() && block > 0 && addr < codeSize
    ensures ProgramFrom(d, image, codeSize, block, addr) ==
      ProgramFrom(if IsSent(image, addr, block) then SetReport(d, Packets(Report(image, codeSize, block, addr))) else d,
                  image, codeSize, block, addr + block)
  {
    hide SetReport, Report, IsSent;
  }

  lemma PageOfByte(addr: nat, block: nat, x: nat)
    requires block == 128 || block == 256
    requires Aligned(addr, block)
    ensures addr <= x < addr + block ==> x - Offset(x, block) == addr
  {
    if addr <= x < addr + block {
      OffsetInPage(addr, x - addr, block);
    }
  }

  // End to end.

  /** A page that is not sent holds no byte of the file. */
  lemma SkippedIsEmpty(image: Image, block: nat, x: nat)
    requires image.Valid() && (block == 128 || block == 256) && x < MAX_MEMORY_SIZE
    requires !IsSent(image, x - Offset(x, block), block)
    ensures !image.mask[x]
  {
    var p := x - Offset(x, block);
    assert p + block <= MAX_MEMORY_SIZE by {
      FitsImage(x, block);
    }
    assert p <= x <= p + block - 1;
  }

  lemma FitsImage(x: nat, block: nat)
    requires block == 128 || block == 256
    requires x < MAX_MEMORY_SIZE
    ensures x - Offset(x, block) + block <= MAX_MEMORY_SIZE
    ensures x - Offset(x, block) + block < MAX_MEMORY_SIZE <==> x < MAX_MEMORY_SIZE - block
  {
    if block == 128 {
      Fits128(x);
    } else {
      Fits256(x);
    }
  }

  lemma Fits128(x: nat)
    requires x < 0x1_0000
    ensures x - x % 128 + 128 <= 0x1_0000
    ensures x - x % 128 + 128 < 0x1_0000 <==> x < 0x1_0000 - 128
  {
  }

  lemma Fits256(x: nat)
    requires x < 0x1_0000
    ensures x - x % 256 + 256 <= 0x1_0000
    ensures x - x % 256 + 256 < 0x1_0000 <==> x < 0x1_0000 - 256
  {
  }

  lemma BootIsAligned(x: nat, bootStart: nat, block: nat)
    requires block == 128 || block == 256
    requires Aligned(bootStart, block)
    ensures x - Offset(x, block) < bootStart <==> x < bootStart
  {
    if block == 128 {
      Below128(x, bootStart);
    } else {
      Below256(x, bootStart);
    }
  }

  lemma Below128(x: nat, b: nat)
    requires b % 128 == 0
    ensures x - x % 128 < b <==> x < b
  {
  }

  lemma Below256(x: nat, b: nat)
    requires b % 256 == 0
    ensures x - x % 256 < b <==> x < b
  {
  }

  /** Every address of the device after the programming loop: the boot section is unchanged; in a sent
      page a byte of the file is stored unless it lies in the last block of the image buffer, and any
      other byte is blank; a skipped page is unchanged and held no byte of the file. */
  lemma {:induction false} EveryByte(d: Device, image: Image, codeSize: nat, block: nat, x: nat)
    requires Part(d, codeSize, block) && image.Valid() && x < codeSize
    ensures var r := ProgramFrom(d, image, codeSize, block, 0);
            var sent := IsSent(image, x - Offset(x, block), block);
            var inFile := x < MAX_MEMORY_SIZE && image.mask[x];
            && r.bootStart == d.bootStart && r.run == d.run && |r.flash.mem| == codeSize
            && (x >= d.bootStart ==> r.flash.mem[x] == d.flash.mem[x])
            && (x < d.bootStart && sent ==>
                  r.flash.mem[x] == if inFile && x < MAX_MEMORY_SIZE - block then image.bytes[x] else BLANK)
            && (x < d.bootStart && !sent ==> r.flash.mem[x] == d.flash.mem[x] && !inFile)
  {
    hide ProgramFrom, IsSent, Offset;
    assert Aligned(0, block) by {
      ZeroAligned(block);
    }
    ProgramFromBytes(d, image, codeSize, block, 0, x);
    BootIsAligned(x, d.bootStart, block);
    if x < MAX_MEMORY_SIZE {
      FitsImage(x, block);
      if !IsSent(image, x - Offset(x, block), block) {
        SkippedIsEmpty(image, block, x);
      }
    } else {
      BeyondImage(x, block);
    }
  }

  lemma BeyondImage(x: nat, block: nat)
    requires block == 128 || block == 256
    requires x >= MAX_MEMORY_SIZE
    ensures x - Offset(x, block) + block >= MAX_MEMORY_SIZE
  {
  }

  /** End to end: every byte of the file below the boot section is in flash after the programming loop
      if and only if the file is blank in the last block of the 64 KB image buffer. */
  lemma EndToEnd(d: Device, image: Image, codeSize: nat, block: nat)
    requires Part(d, codeSize, block) && image.Valid()
    ensures var r := ProgramFrom(d, image, codeSize, block, 0);
            && |r.flash.mem| == codeSize
            && ((forall x | 0 <= x < MAX_MEMORY_SIZE && x < d.bootStart && image.mask[x] ::
                   r.flash.mem[x] == image.bytes[x])
                <==>
                (forall x | MAX_MEMORY_SIZE - block <= x < MAX_MEMORY_SIZE && x < d.bootStart && image.mask[x] ::
                   image.bytes[x] == BLANK))
  {
    hide ProgramFrom, IsSent, Offset;
    var r := ProgramFrom(d, image, codeSize, block, 0);
    EveryByte(d, image, codeSize, block, 0);
    forall x | 0 <= x < MAX_MEMORY_SIZE && x < d.bootStart && image.mask[x]
      ensures r.flash.mem[x] == if x < MAX_MEMORY_SIZE - block then image.bytes[x] else BLANK
    {
      EveryByte(d, image, codeSize, block, x);
    }
  }

  // Any reports.

  /** Erasing and committing touch only the page they address. */
  lemma OtherPages(f: Flash, a: nat, x: nat)
    requires f.Valid() && x < |f.mem| && !(f.PageBase(a) <= x < f.PageBase(a) + f.page)
    ensures f.Erase(a).mem[x] == f.mem[x] && f.Commit(a).mem[x] == f.mem[x]
  {
  }

  /** Whatever the packets hold, a report changes at most the page it addresses. */
  lemma ReportStaysInPage(d: Device, packets: seq<seq<Byte>>, x: nat)
    requires d.flash.Valid() && packets != [] && x < |d.flash.mem|
    requires var base := d.flash.PageBase(PageAddress(d.far, OutPipe(packets[0], packets[1..]).PeekWord()));
             !(base <= x < base + d.flash.page)
    ensures var e := SetReport(d, packets);
            && e.far == d.far && e.bootStart == d.bootStart
            && e.flash.page == d.flash.page && |e.flash.mem| == |d.flash.mem| && e.flash.mem[x] == d.flash.mem[x]
  {
    hide Flash.Erase, Flash.Commit, Flash.PageBase, FillPage, PageAddress, OutPipe.PeekWord, OutPipe.DropWord;
    var out := OutPipe(packets[0], packets[1..]);
    var a := PageAddress(d.far, out.PeekWord());
    var filled := FillPage(d.flash.Erase(a), a, out.DropWord(), 0);
    OtherPages(d.flash, a, x);
    SamePageBase(d.flash, filled.flash, a);
    OtherPages(filled.flash, a, x);
  }

  /** A page below an aligned boot section does not reach into it. */
  lemma PageBelow(f: Flash, a: nat, bootStart: nat)
    requires f.Valid() && Aligned(bootStart, f.page) && a < bootStart <= |f.mem|
    ensures f.PageBase(a) + f.page <= bootStart
  {
    hide Offset;
    PageBounds(f, a);
    BootIsAligned(a, bootStart, f.page);
    SubtractOffset(0, a, f.page);
    PagesApart(a - Offset(a, f.page), bootStart, f.page);
  }

  /** The device after any reports, each given by its packets. */
  ghost function Receive(d: Device, reports: seq<seq<seq<Byte>>>): (r: Device)
    requires d.flash.Valid()
    ensures r.flash.Valid()
    decreases |reports|
  {
    if reports == [] then d else Receive(SetReport(d, reports[0]), reports[1..])
  }

  lemma ReportSparesBoot(d: Device, packets: seq<seq<Byte>>, x: nat)
    requires d.flash.Valid() && Aligned(d.bootStart, d.flash.page) && d.bootStart <= x < |d.flash.mem|
    ensures var e := SetReport(d, packets);
            && e.far == d.far && e.bootStart == d.bootStart
            && e.flash.page == d.flash.page && |e.flash.mem| == |d.flash.mem| && e.flash.mem[x] == d.flash.mem[x]
  {
    hide Flash.Erase, Flash.Commit, Flash.PageBase, FillPage, PageAddress, OutPipe.PeekWord, OutPipe.DropWord, Offset;
    if packets != [] {
      var a := PageAddress(d.far, OutPipe(packets[0], packets[1..]).PeekWord());
      if a < d.bootStart {
        PageBelow(d.flash, a, d.bootStart);
        ReportStaysInPage(d, packets, x);
      }
    }
  }

  /** The boot section is safe: no sequence of reports, whatever their packets hold, changes a byte of it. */
  lemma {:induction false} BootSectionIsSafe(d: Device, reports: seq<seq<seq<Byte>>>, x: nat)
    requires d.flash.Valid() && Aligned(d.bootStart, d.flash.page) && d.bootStart <= x < |d.flash.mem|
    ensures var e := Receive(d, reports);
            |e.flash.mem| == |d.flash.mem| && e.flash.mem[x] == d.flash.mem[x]
    decreases |reports|
  {
    hide SetReport, Offset, Flash.Valid;
    if reports != [] {
      PageSizes(d.flash);
      ReportSparesBoot(d, reports[0], x);
      BootSectionIsSafe(SetReport(d, reports[0]), reports[1..], x);
    }
  }

  // 64 KB parts.

  /** A part on which the host sends page numbers and the device takes them for byte addresses. */
  ghost predicate Part64(d: Device) {
    && d.flash.Valid() && d.flash.Blank() && d.flash.page == 256 && |d.flash.mem| == 0x1_0000
    && !d.far && 256 <= d.bootStart
  }

  /** The fill loop, entered with `done` buffered from address k on. */
  lemma {:induction false} FillPageRing(f: Flash, k: nat, done: seq<Byte>, out: OutPipe, n: nat)
    requires f.Valid() && f.page == 256 && |done| == 2 * n <= 256 && f.buf == Ring(256, 2 * (Offset(k, 256) / 2), done)
    requires out.WholeWords() && 2 * n + |out.Stream()| == 256
    ensures var r := FillPage(f, k, out, n);
            |done + out.Stream()| == 256 && r.complete &&
            r.flash.buf == Ring(256, 2 * (Offset(k, 256) / 2), done + out.Stream())
    decreases 128 - n
  {
    hide Flash.Fill, Flash.Valid, FillPage, OutPipe.Stream, OutPipe.WholeWords, OutPipe.PeekWord, OutPipe.DropWord,
      OutPipe.Ready, Low, High, MakeWord, Ring, Offset;
    if n == 128 {
      FillPageEnd(f, k, out);
      assert done + out.Stream() == done;
    } else {
      ReadWord(out);
      FillPageStep(f, k, out, n);
      var w := out.Ready().PeekWord();
      FillRing(f, k, done, w);
      NextWord(out, w);
      FillPageRing(f.Fill(k + 2 * n, w), k, done + [Low(w), High(w)], out.Ready().DropWord(), n + 1);
      assert done + [Low(w), High(w)] + out.Stream()[2..] == done + out.Stream();
    }
  }

  /** The first page, once block k has been sent: the block, rotated by its number. */
  ghost function Rotated(image: Image, k: nat): (r: seq<Byte>)
    requires image.Valid()
    ensures |r| == 256
  {
    Ring(256, 2 * (k / 2), GetData(image, 256 * k, 256))
  }

  lemma FirstPage(f: Flash, k: nat)
    requires f.Valid() && f.page == 256 && k < 256 && 256 <= |f.mem|
    ensures f.PageBase(k) == 0 && Offset(k, 256) == k
  {
    WrapInside(k, |f.mem|);
  }

  /** The page of address k, filled with a whole page of data and committed. */
  lemma PageRotates(f: Flash, k: Word, out: OutPipe, data: seq<Byte>)
    requires f.Valid() && f.Blank() && f.page == 256 && 256 <= |f.mem| && k < 256 && |data| == 256
    requires out.WholeWords() && out.Stream() == data
    ensures var filled := FillPage(f.Erase(k), k, out, 0);
            var g := filled.flash.Commit(k);
            && filled.complete && g.Blank() && g.page == 256 && |g.mem| == |f.mem|
            && g.mem == Splice(f.mem, 0, Ring(256, 2 * (k / 2), data))
  {
    hide Flash.Erase, Flash.Fill, Flash.Commit, FillPage, Splice, Offset, Ring, Flash.PageBase, OutPipe.Stream,
      OutPipe.WholeWords;
    FirstPage(f, k);
    EraseSplices(f, k);
    EmptyRing(256, 2 * (k / 2));
    FillPageRing(f.Erase(k), k, [], out, 0);
    assert [] + data == data;
    var g := FillPage(f.Erase(k), k, out, 0).flash;
    FirstPage(g, k);
    CommitSplices(g, f.mem, k);
  }

  /** A report for page k < 256 rewrites the first page, from offset k on and round. */
  lemma ReportRotates(d: Device, k: Word, data: seq<Byte>)
    requires Part64(d) && k < 256 && |data| == 256
    ensures var e := SetReport(d, Packets([Low(k), High(k)] + data));
            && Part64(e) && e == d.(flash := e.flash)
            && e.flash.mem == Splice(d.flash.mem, 0, Ring(256, 2 * (k / 2), data))
  {
    hide Packets, Flash.Erase, Flash.Commit, FillPage, Splice, Ring, OutPipe.PeekWord, OutPipe.DropWord, OutPipe.Stream,
      OutPipe.WholeWords, Low, High, Flash.Valid;
    ReportHeader(k, data);
    var ps := Packets([Low(k), High(k)] + data);
    PageRotates(d.flash, k, OutPipe(ps[0], ps[1..]).DropWord(), data);
  }

  /** The last block that is sent from block n on, if any. */
  ghost function LastSent(image: Image, n: nat): Option<nat>
    requires image.Valid() && n <= 256
    decreases 256 - n
  {
    if n == 256 then None
    else if LastSent(image, n + 1).Some? then LastSent(image, n + 1)
    else if IsSent(image, 256 * n, 256) then Some(n)
    else None
  }

  lemma SpliceTwice(mem: seq<Byte>, x: seq<Byte>, y: seq<Byte>)
    requires |x| == |y| <= |mem|
    ensures Splice(Splice(mem, 0, x), 0, y) == Splice(mem, 0, y)
  {
  }

  lemma BlockNumber(n: nat)
    requires n < 256
    ensures AddressWord(0x1_0000, 256 * n) == n && 256 * n + 256 == 256 * (n + 1)
  {
  }

  /** The programming loop on a 64 KB part, from block n on: the first page ends as the last block sent,
      rotated by its number; no other page changes. */
  lemma {:induction false} Part64KB(d: Device, image: Image, n: nat)
    requires Part64(d) && image.Valid() && n <= 256
    ensures var r := ProgramFrom(d, image, 0x1_0000, 256, 256 * n);
            && Part64(r) && r == d.(flash := r.flash)
            && r.flash.mem ==
               if LastSent(image, n).Some? then Splice(d.flash.mem, 0, Rotated(image, LastSent(image, n).value))
               else d.flash.mem
    decreases 256 - n
  {
    hide SetReport, Packets, IsSent, ProgramFrom, GetData, Low, High, Splice, Ring, Flash.Valid, Flash.Blank,
      AddressWord;
    if n == 256 {
      Finished(d, image, 256 * n);
    } else {
      Unfold(d, image, 0x1_0000, 256, 256 * n);
      BlockNumber(n);
      var data := GetData(image, 256 * n, 256);
      if IsSent(image, 256 * n, 256) {
        ReportRotates(d, n, data);
        var e := SetReport(d, Packets([Low(n), High(n)] + data));
        Part64KB(e, image, n + 1);
        if LastSent(image, n + 1).Some? {
          SpliceTwice(d.flash.mem, Rotated(image, n), Rotated(image, LastSent(image, n + 1).value));
        }
      } else {
        Part64KB(d, image, n + 1);
      }
    }
  }

  lemma Finished(d: Device, image: Image, addr: nat)
    requires d.flash.Valid() && image.Valid() && addr >= 0x1_0000
    ensures ProgramFrom(d, image, 0x1_0000, 256, addr) == d
  {
  }

  /** The first block is always sent. */
  lemma {:induction false} SomethingSent(image: Image)
    requires image.Valid()
    ensures LastSent(image, 0).Some? && LastSent(image, 0).value < 256
  {
    assert IsSent(image, 256 * 0, 256);
    LastSentBelow(image, 0);
  }

  lemma {:induction false} LastSentBelow(image: Image, n: nat)
    requires image.Valid() && n <= 256
    ensures LastSent(image, n).Some? ==> n <= LastSent(image, n).value < 256
    decreases 256 - n
  {
    hide IsSent;
    if n < 256 {
      LastSentBelow(image, n + 1);
    }
  }

  /** On a 64 KB part all file bytes below the boot section arrive if and only if those behind the first page
      were in flash before, and those of the first page are what the last block sent shows there once rotated. */
  lemma Part64KBArrivesIff(d: Device, image: Image)
    requires Part64(d) && image.Valid()
    ensures var r := ProgramFrom(d, image, 0x1_0000, 256, 0);
            && |r.flash.mem| == 0x1_0000 && LastSent(image, 0).Some?
            && var first := Rotated(image, LastSent(image, 0).value);
               ((forall x | 0 <= x < 0x1_0000 && x < d.bootStart && image.mask[x] :: r.flash.mem[x] == image.bytes[x])
                <==>
                && (forall x | 256 <= x < 0x1_0000 && x < d.bootStart && image.mask[x] ::
                      d.flash.mem[x] == image.bytes[x])
                && (forall x | 0 <= x < 256 && image.mask[x] :: first[x] == image.bytes[x]))
  {
    hide ProgramFrom, LastSent, Rotated, Flash.Valid, Flash.Blank;
    SomethingSent(image);
    Part64KB(d, image, 0);
    var r := ProgramFrom(d, image, 0x1_0000, 256, 0);
    var first := Rotated(image, LastSent(image, 0).value);
    assert forall x | 0 <= x < 0x1_0000 :: r.flash.mem[x] == if x < 256 then first[x] else d.flash.mem[x];
  }
}
