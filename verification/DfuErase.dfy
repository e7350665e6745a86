/** DFU chip erase, blank check and read commands: what they leave behind in every state and after every
    session. */
module DfuErase {
  import opened Bytes
  import opened FlashMemory
  import opened Endpoints
  import opened DfuModel
  import opened DfuSecure
  import L = DfuDownload
  import P = DfuPartial

  // The erase loop.

  /** Erasing and committing a page leaves in it what the buffer held. */
  lemma ErasePage(f: Flash, a: nat)
    requires f.Valid() && Aligned(a, f.page) && a < |f.mem|
    ensures a + f.page <= |f.mem|
    ensures f.Erase(a).Commit(a).mem == Splice(f.mem, a, f.buf) && f.Erase(a).Commit(a).Blank()
  {
    hide Offset, Splice, Flash.Erase, Flash.Commit;
    EraseSplices(f, a);
    PageBounds(f, a);
    PageBounds(f.Erase(a), a);
    CommitSplices(f.Erase(a), f.mem, a);
  }

  /** From a blank buffer, erasing clears every page from `a` to `limit` and no other. */
  lemma {:induction false} EraseFromClears(f: Flash, a: nat, limit: nat)
    requires f.Valid() && f.Blank()
    requires Aligned(a, f.page) && Aligned(limit, f.page) && a <= limit <= |f.mem|
    ensures EraseFrom(f, a, limit).mem == Splice(f.mem, a, Blanks(limit - a))
    ensures EraseFrom(f, a, limit).Blank()
    decreases limit - a
  {
    hide Flash.Erase, Flash.Commit, Offset, Splice, Blanks;
    if a < limit {
      ErasePage(f, a);
      NextPage(a, f.page);
      PagesApart(a, limit, f.page);
      EraseFromClears(f.Erase(a).Commit(a), a + f.page, limit);
      BlanksJoin(f.page, limit - a - f.page);
      SpliceMore(f.mem, a, Blanks(f.page), Blanks(limit - a - f.page));
    } else {
      NoBlanks();
      SpliceNone(f.mem, a);
    }
  }

  lemma BlanksJoin(a: nat, b: nat)
    ensures Blanks(a) + Blanks(b) == Blanks(a + b)
  {
  }

  lemma NoBlanks()
    ensures Blanks(0) == []
  {
  }

  lemma EraseStarts(f: Flash, limit: nat)
    requires f.Valid() && limit > 0
    ensures EraseFrom(f, 0, limit) == EraseFrom(f.Erase(0).Commit(0), f.page, limit)
  {
    hide Flash.Erase, Flash.Commit;
  }

  /** Chip erase: the application section is blank but for the first page, which keeps whatever
      the page buffer held; the boot section is unchanged. */
  lemma ChipErase(f: Flash, bootStart: nat)
    requires f.Valid() && Aligned(bootStart, f.page) && 0 < bootStart <= |f.mem|
    ensures f.page <= bootStart
    ensures EraseFrom(f, 0, bootStart).mem == Splice(f.mem, 0, f.buf + Blanks(bootStart - f.page))
    ensures EraseFrom(f, 0, bootStart).Blank()
  {
    hide Flash.Erase, Flash.Commit, EraseFrom, Blanks, Offset, Splice;
    ZeroAligned(f.page);
    NextPage(0, f.page);
    ErasePage(f, 0);
    PagesApart(0, bootStart, f.page);
    EraseFromClears(f.Erase(0).Commit(0), f.page, bootStart);
    EraseStarts(f, bootStart);
    SpliceMore(f.mem, 0, f.buf, Blanks(bootStart - f.page));
  }

  // What waits in the page buffer.

  /** Number of words that can still be read. */
  ghost function WordReads(out: OutPipe): nat { |out.Readable()| / 2 }

  lemma ReadsDown(out: OutPipe)
    requires !out.Dry()
    ensures WordReads(out) > 0 && WordReads(out.Ready().DropWord()) == WordReads(out) - 1
  {
    hide OutPipe.Readable, OutPipe.Ready, OutPipe.DropWord, OutPipe.PeekWord, OutPipe.Dry;
    ReadPadded(out);
  }

  lemma DryReads(out: OutPipe)
    requires out.Dry()
    ensures WordReads(out) == 0
  {
    NothingReadable(out);
  }

  /** The programming loop gets all its words if and only if there are enough to read, and then it leaves the
      page buffer blank, whatever it held. */
  lemma {:induction false} WriteWordsEnds(f: Flash, out: OutPipe, a: nat, p: nat, filled: nat, remaining: nat)
    requires f.Valid()
    ensures var r := WriteWords(f, out, a, p, filled, remaining);
            && r.flash.page == f.page
            && (r.attached <==> remaining <= WordReads(out))
            && (r.attached && remaining > 0 ==> r.flash.Blank())
    decreases remaining
  {
    hide Flash.Fill, Flash.Erase, Flash.Valid, OutPipe.Ready, OutPipe.DropWord, OutPipe.PeekWord, OutPipe.Dry,
      WordReads;
    if remaining > 0 {
      if out.Dry() {
        DryReads(out);
      } else {
        ReadsDown(out);
        var next := out.Ready().DropWord();
        var g := f.Fill(a, out.Ready().PeekWord());
        if remaining > 1 {
          if filled + 1 == f.page / 2 {
            WriteWordsEnds(g.Commit(p).Erase(a + 2), next, a + 2, a + 2, 0, remaining - 1);
          } else {
            WriteWordsEnds(g, next, a + 2, p, filled + 1, remaining - 1);
          }
        }
      }
    }
  }

  /** The words of the unfinished page when the packets end, given those already buffered for it. */
  ghost function Leftover(out: OutPipe, done: seq<Byte>, page: nat): (r: seq<Byte>)
    requires |done| % 2 == 0 && page % 2 == 0 && |done| < page
    ensures |r| < page
    decreases WordReads(out)
  {
    if out.Dry() then done
    else
      ReadsDown(out);
      var w := out.Ready().PeekWord();
      var next := out.Ready().DropWord();
      if |done| + 2 == page then Leftover(next, [], page) else Leftover(next, done + [Low(w), High(w)], page)
  }

  lemma LeftoverStep(out: OutPipe, done: seq<Byte>, page: nat)
    requires |done| % 2 == 0 && page % 2 == 0 && |done| < page && !out.Dry()
    ensures var w := out.Ready().PeekWord();
            var next := out.Ready().DropWord();
            Leftover(out, done, page) ==
            if |done| + 2 == page then Leftover(next, [], page) else Leftover(next, done + [Low(w), High(w)], page)
  {
    hide OutPipe.Ready, OutPipe.PeekWord, OutPipe.DropWord, OutPipe.Dry, WordReads, Low, High;
  }

  lemma LeftoverDry(out: OutPipe, done: seq<Byte>, page: nat)
    requires |done| % 2 == 0 && page % 2 == 0 && |done| < page && out.Dry()
    ensures Leftover(out, done, page) == done
  {
  }

  /** A loop that runs out of packets leaves exactly the words of its unfinished page in the buffer: over a blank
      buffer if it has finished a page before, over what the buffer held if not. */
  lemma {:induction false} WriteWordsLeaves(
    f: Flash, buf: seq<Byte>, out: OutPipe, p: nat, done: seq<Byte>, filled: nat, remaining: nat)
    requires f.Valid() && (f.page == 128 || f.page == 256) && f.page % 2 == 0 && |buf| == f.page
    requires |done| % 2 == 0 && |done| == 2 * filled < f.page
    requires remaining > WordReads(out) && f.buf == RingOver(buf, L.WordOffset(p, f.page), done)
    ensures WriteWords(f, out, p + |done|, p, filled, remaining).flash.buf ==
            RingOver(if filled + WordReads(out) >= f.page / 2 then Blanks(f.page) else buf,
                     L.WordOffset(p, f.page), Leftover(out, done, f.page))
    decreases remaining
  {
    hide Flash.Fill, Flash.Erase, Flash.Valid, OutPipe.Ready, OutPipe.DropWord, OutPipe.PeekWord, OutPipe.Dry,
      WordReads,
      Offset, RingOver, Leftover, Low, High;
    if out.Dry() {
      DryReads(out);
      LeftoverDry(out, done, f.page);
    } else {
      ReadsDown(out);
      var w, next := out.Ready().PeekWord(), out.Ready().DropWord();
      FillRingOver(f, buf, p, done, w);
      LeftoverStep(out, done, f.page);
      var g := f.Fill(p + |done|, w);
      if |done| + 2 == f.page {
        var h := g.Commit(p).Erase(p + f.page);
        NothingOver(Blanks(f.page), L.WordOffset(p + f.page, f.page));
        SameOffset(p, f.page);
        ErasedBuffer(g.Commit(p), p + f.page);
        WriteWordsLeaves(h, Blanks(f.page), next, p + f.page, [], 0, remaining - 1);
      } else {
        WriteWordsLeaves(g, buf, next, p, done + [Low(w), High(w)], filled + 1, remaining - 1);
      }
    }
  }

  lemma ErasedBuffer(f: Flash, a: nat)
    requires f.Valid()
    ensures f.Erase(a).buf == f.buf
  {
  }

  // One request.

  ghost predicate Loads(d: Dfu, r: Request) {
    d.Valid() && r.toInterface && r.request == REQ_DNLOAD && r.length != 0 && r.packets != []
  }

  /** The device with the command of a request loaded, and before it the command that waited for the request done. */
  ghost function Loaded(d: Dfu, r: Request): (e: Dfu)
    requires Loads(d, r)
    ensures e.Valid()
  {
    var e := FinishExit(d.(sent := d.sent.(dataSize := r.length)));
    e.(sent := LoadCommand(e.sent, r.packets[0]))
  }

  /** The device once it has processed the command of a request, before the data stage. */
  ghost function Commanded(d: Dfu, r: Request): (e: Dfu)
    requires Loads(d, r)
    ensures e.Valid()
  {
    ProcessCommand(Loaded(d, r))
  }

  /** The command is a chip erase, and there is an application section to erase. */
  ghost predicate ErasesNow(d: Dfu)
    requires d.Valid()
  {
    d.part.bootStart > 0 && IsChipErase(d.sent)
  }

  /** The request, or the command that waited for it, erases the chip. */
  ghost predicate ErasesIn(d: Dfu, r: Request)
    requires d.Valid()
  {
    || (r.toInterface && r.request == REQ_DNLOAD && d.waitForExit && ErasesNow(d))
    || (Loads(d, r) && ErasesNow(Loaded(d, r)))
  }

  /** The request goes on to download to flash. */
  ghost predicate ToFlash(e: Dfu)
    requires e.Valid()
  {
    e.state == DFU_DNLOAD_IDLE && e.sent.dataSize != 0 && e.sent.data[0] == 0x00
  }

  /** Number of words the packets of the request are good for. */
  ghost function Supply(e: Dfu, r: Request): nat
    requires r.packets != []
  {
    WordReads(L.Payload(r, e.startAddr))
  }

  /** The request downloads to flash and its packets end before its range does. */
  ghost predicate CutShort(d: Dfu, r: Request) {
    Loads(d, r) && ToFlash(Commanded(d, r)) && Supply(Commanded(d, r), r) < Commanded(d, r).ByteCount() / 2
  }

  /** The request downloads to flash at least one word, and all it is asked for. */
  ghost predicate Completes(d: Dfu, r: Request) {
    && Loads(d, r) && ToFlash(Commanded(d, r))
    && 0 < Commanded(d, r).ByteCount() / 2 <= Supply(Commanded(d, r), r)
  }

  /** The words of the unfinished page of a download cut short. */
  ghost function LeftBy(d: Dfu, r: Request): (s: seq<Byte>)
    requires CutShort(d, r)
    ensures |s| < Commanded(d, r).flash.page
  {
    EvenPage(Commanded(d, r).flash);
    Leftover(L.Payload(r, Commanded(d, r).startAddr), [], Commanded(d, r).flash.page)
  }

  /** The request leaves the page buffer blank, whatever it held: a chip erase or a completed download. */
  ghost predicate Clears(d: Dfu, r: Request)
    requires d.Valid()
  {
    !CutShort(d, r) && (ErasesIn(d, r) || Completes(d, r))
  }

  /** The download cut short begins with a blank buffer: it has erased the chip first, or finished a page. */
  ghost predicate StartsAfresh(d: Dfu, r: Request)
    requires CutShort(d, r)
  {
    ErasesIn(d, r) || Supply(Commanded(d, r), r) >= d.flash.page / 2
  }

  /** The page buffer after a request, given what it held before. */
  ghost function Leaves(d: Dfu, r: Request, buf: seq<Byte>): (s: seq<Byte>)
    requires d.Valid() && |buf| == d.flash.page
    ensures |s| == |buf|
  {
    if CutShort(d, r) then
      SamePart(d, r);
      RingOver(if StartsAfresh(d, r) then Blanks(d.flash.page) else buf,
               L.WordOffset(Commanded(d, r).FlashAddress(), d.flash.page), LeftBy(d, r))
    else if Clears(d, r) then Blanks(d.flash.page)
    else buf
  }

  lemma {:induction false} EraseFromBuffer(f: Flash, a: nat, limit: nat)
    requires f.Valid()
    ensures EraseFrom(f, a, limit).buf == if a < limit then Blanks(f.page) else f.buf
    decreases if a < limit then limit - a else 0
  {
    hide Flash.Erase, Flash.Valid;
    if a < limit {
      EraseFromBuffer(f.Erase(a).Commit(a), a + f.page, limit);
    }
  }

  /** A command clears the buffer if it erases the chip, and leaves it alone if not. */
  lemma CommandBuffer(d: Dfu)
    requires d.Valid()
    ensures var e := ProcessCommand(d);
            && e.flash.page == d.flash.page && e.part == d.part
            && e.flash.buf == if ErasesNow(d) then Blanks(d.flash.page) else d.flash.buf
  {
    hide ProcessRead, ProcessMemRead, ProcessMemProg, ProcessWrite, Flash.Valid, IsChipErase;
    ProgBuffer(d);
    DispFlash(d);
    ReadFlash(d);
    WriteCommand(d);
  }

  lemma ProgBuffer(d: Dfu)
    requires d.Valid()
    ensures var e := ProcessMemProg(d); e.flash.page == d.flash.page && e.part == d.part && e.flash.buf == d.flash.buf
  {
    hide Flash.Valid, MakeWord, Flash.PageBase;
  }

  lemma DispFlash(d: Dfu)
    requires d.Valid()
    ensures ProcessMemRead(d).flash == d.flash && ProcessMemRead(d).part == d.part
  {
    hide Flash.Valid, FirstNonBlank, MakeWord;
  }

  lemma ReadFlash(d: Dfu)
    requires d.Valid()
    ensures ProcessRead(d).flash == d.flash && ProcessRead(d).part == d.part
  {
    hide Flash.Valid, ReadVersion, ReadSignature;
  }

  lemma WriteCommand(d: Dfu)
    requires d.Valid()
    ensures d.sent.command == COMMAND_WRITE ==>
            var e := ProcessWrite(d);
            && e.flash.page == d.flash.page && e.part == d.part
            && e.flash.buf == if ErasesNow(d) then Blanks(d.flash.page) else d.flash.buf
    ensures d.sent.command != COMMAND_WRITE ==> !ErasesNow(d)
  {
    hide Flash.Valid, EraseFrom, Blanks;
    EraseFromBuffer(d.flash, 0, d.part.bootStart);
  }

  lemma LoadedBuffer(d: Dfu, r: Request)
    requires Loads(d, r)
    ensures var e := Loaded(d, r);
            && e.flash.page == d.flash.page && e.part == d.part
            && e.flash.buf == if d.waitForExit && ErasesNow(d) then Blanks(d.flash.page) else d.flash.buf
  {
    hide ProcessCommand, Flash.Valid, LoadCommand;
    CommandBuffer(d.(sent := d.sent.(dataSize := r.length)));
  }

  lemma CommandedBuffer(d: Dfu, r: Request)
    requires Loads(d, r)
    ensures var e := Commanded(d, r);
            && e.flash.page == d.flash.page && e.part == d.part
            && e.flash.buf == if ErasesIn(d, r) then Blanks(d.flash.page) else d.flash.buf
  {
    hide ProcessCommand, Flash.Valid, Loaded, ErasesNow;
    LoadedBuffer(d, r);
    CommandBuffer(Loaded(d, r));
  }

  lemma SamePart(d: Dfu, r: Request)
    requires Loads(d, r)
    ensures Commanded(d, r).flash.page == d.flash.page && (d.flash.page == 128 || d.flash.page == 256)
  {
    hide Commanded, ErasesIn;
    CommandedBuffer(d, r);
    PageSizes(d.flash);
  }

  /** The data stage of a flash download. */
  lemma DataBuffer(e: Dfu, out: OutPipe)
    requires e.Valid() && (e.flash.page == 128 || e.flash.page == 256) && e.flash.page % 2 == 0
    ensures var r := DataStage(e, out).flash;
            var o, n := Discard(Discard(out, FILLER_SIZE), e.startAddr % PACKET_SIZE), e.ByteCount() / 2;
            && r.page == e.flash.page
            && r.buf == if !ToFlash(e) || n == 0 then e.flash.buf
                        else if n <= WordReads(o) then Blanks(e.flash.page)
                        else RingOver(if WordReads(o) >= e.flash.page / 2 then Blanks(e.flash.page) else e.flash.buf,
                                      L.WordOffset(e.FlashAddress(), e.flash.page), Leftover(o, [], e.flash.page))
  {
    hide WriteWords, WriteEeprom, Discard, Flash.Valid, WordReads, Dfu.ByteCount, RingOver, Leftover, L.WordOffset,
      Blanks;
    if ToFlash(e) {
      var o, n, a := Discard(Discard(out, FILLER_SIZE), e.startAddr % PACKET_SIZE), e.ByteCount() / 2, e.FlashAddress();
      WriteWordsEnds(e.flash, o, a, a, 0, n);
      if n > WordReads(o) {
        NothingOver(e.flash.buf, L.WordOffset(a, e.flash.page));
        P.BufferSize(e.flash);
        WriteWordsLeaves(e.flash, e.flash.buf, o, a, [], 0, n);
      } else if n == 0 {
        NoWords(e.flash, o, a);
      }
    }
  }

  lemma NoWords(f: Flash, out: OutPipe, a: nat)
    requires f.Valid()
    ensures WriteWords(f, out, a, a, 0, 0).flash == f
  {
  }

  /** The page buffer after every request, whatever it held before. */
  lemma StepBuffer(d: Dfu, r: Request)
    requires d.Valid() && |d.flash.buf| == d.flash.page
    ensures Step(d, r).0.flash.page == d.flash.page
    ensures Step(d, r).0.flash.buf == Leaves(d, r, d.flash.buf)
  {
    hide Step, Dfu.Valid, Loads, CutShort, Completes, ErasesIn;
    if Loads(d, r) {
      LoadedStep(d, r);
    } else {
      OtherStep(d, r);
    }
  }

  lemma LoadedStep(d: Dfu, r: Request)
    requires Loads(d, r) && |d.flash.buf| == d.flash.page
    ensures Step(d, r).0.flash.page == d.flash.page
    ensures Step(d, r).0.flash.buf == Leaves(d, r, d.flash.buf)
  {
    hide ProcessCommand, DataStage, Discard, LoadCommand, Flash.Valid, Dfu.ByteCount, AfterCommand, WordReads, Leftover,
      RingOver, L.WordOffset, ErasesNow, Blanks;
    var e := Commanded(d, r);
    FinishExitKeeps(d.(sent := d.sent.(dataSize := r.length)));
    CommandedBuffer(d, r);
    SamePart(d, r);
    EvenPage(e.flash);
    DataBuffer(e, OutPipe(AfterCommand(r.packets[0]), r.packets[1..]));
  }

  /** A request without a command of its own. */
  lemma OtherStep(d: Dfu, r: Request)
    requires d.Valid() && !Loads(d, r)
    ensures var e := Step(d, r).0;
            && e.flash.page == d.flash.page
            && e.flash.buf == if ErasesIn(d, r) then Blanks(d.flash.page) else d.flash.buf
    ensures !CutShort(d, r) && !Completes(d, r)
  {
    hide ProcessCommand, DataStage, ReadWords, ReadEeprom, Flash.Valid, LoadCommand;
    if r.toInterface && r.request == REQ_DNLOAD {
      var d1 := d.(sent := d.sent.(dataSize := r.length));
      CommandBuffer(d1);
      FinishExitKeeps(d1);
      if r.length == 0 {
        NoData(FinishExit(d1), OutPipe([], r.packets));
      }
    }
  }

  lemma NoData(e: Dfu, out: OutPipe)
    requires e.Valid() && e.sent.dataSize == 0
    ensures DataStage(e, out).flash == e.flash
  {
  }

  // Whole sessions.

  lemma {:induction false} RunPage(d: Dfu, rs: seq<Request>)
    requires d.Valid()
    ensures Run(d, rs).0.flash.page == d.flash.page
    decreases |rs|
  {
    hide Step, Leaves, Flash.Valid;
    if rs != [] {
      var c := Run(d, rs[..|rs| - 1]).0;
      RunPage(d, rs[..|rs| - 1]);
      P.BufferSize(c.flash);
      StepBuffer(c, rs[|rs| - 1]);
    }
  }

  /** What waits in the page buffer after a session: each request in turn clears it, leaves words of an unfinished
      page in it, or leaves it alone. */
  ghost function Waiting(d: Dfu, rs: seq<Request>): (s: seq<Byte>)
    requires d.Valid()
    ensures |s| == d.flash.page
    decreases |rs|
  {
    if rs == [] then d.flash.buf
    else
      RunPage(d, rs[..|rs| - 1]);
      Leaves(Run(d, rs[..|rs| - 1]).0, rs[|rs| - 1], Waiting(d, rs[..|rs| - 1]))
  }

  lemma WaitingLast(d: Dfu, rs: seq<Request>)
    requires d.Valid() && rs != []
    ensures Run(d, rs[..|rs| - 1]).0.flash.page == d.flash.page
    ensures Waiting(d, rs) == Leaves(Run(d, rs[..|rs| - 1]).0, rs[|rs| - 1], Waiting(d, rs[..|rs| - 1]))
  {
    hide Run, Leaves, Flash.Valid;
    RunPage(d, rs[..|rs| - 1]);
  }

  /** The page buffer over every session, from any state. */
  lemma {:induction false} WaitingIs(d: Dfu, rs: seq<Request>)
    requires d.Valid()
    ensures Run(d, rs).0.flash.page == d.flash.page && Run(d, rs).0.flash.buf == Waiting(d, rs)
    decreases |rs|
  {
    hide Step, Leaves, Flash.Valid;
    if rs != [] {
      var c := Run(d, rs[..|rs| - 1]).0;
      WaitingIs(d, rs[..|rs| - 1]);
      WaitingLast(d, rs);
      P.BufferSize(c.flash);
      StepBuffer(c, rs[|rs| - 1]);
    }
  }

  ghost predicate SomeCutShort(d: Dfu, rs: seq<Request>)
    requires d.Valid()
    decreases |rs|
  {
    rs != [] && (SomeCutShort(d, rs[..|rs| - 1]) || CutShort(Run(d, rs[..|rs| - 1]).0, rs[|rs| - 1]))
  }

  /** The buffer was blank at the start or has been cleared since, and no download has been cut short after that. */
  ghost predicate Settled(d: Dfu, rs: seq<Request>)
    requires d.Valid()
    decreases |rs|
  {
    if rs == [] then d.flash.Blank()
    else
      var c, last := Run(d, rs[..|rs| - 1]).0, rs[|rs| - 1];
      Clears(c, last) || (!CutShort(c, last) && Settled(d, rs[..|rs| - 1]))
  }

  /** The condition on the requests since the last one that cleared the buffer is enough. */
  lemma {:induction false} SettledBuffer(d: Dfu, rs: seq<Request>)
    requires d.Valid() && Settled(d, rs)
    ensures Waiting(d, rs) == Blanks(d.flash.page) && Run(d, rs).0.flash.Blank()
    decreases |rs|
  {
    hide Run, CutShort, Clears, Dfu.Valid, Blanks, Waiting, Leaves;
    WaitingIs(d, rs);
    if rs == [] {
      NothingWaits(d);
    } else {
      var front, last := rs[..|rs| - 1], rs[|rs| - 1];
      WaitingLast(d, rs);
      if !Clears(Run(d, front).0, last) {
        SettledBuffer(d, front);
      }
      SettledStep(Run(d, front).0, last, Waiting(d, front));
    }
  }

  lemma NothingWaits(d: Dfu)
    requires d.Valid()
    ensures Waiting(d, []) == d.flash.buf
  {
  }

  lemma SettledStep(d: Dfu, r: Request, buf: seq<Byte>)
    requires d.Valid() && |buf| == d.flash.page
    requires Clears(d, r) || (!CutShort(d, r) && buf == Blanks(d.flash.page))
    ensures Leaves(d, r, buf) == Blanks(d.flash.page)
  {
    hide CutShort, ErasesIn, Completes, Blanks, Dfu.Valid;
  }

  lemma KeptOrCleared(d: Dfu, r: Request, buf: seq<Byte>)
    requires d.Valid() && |buf| == d.flash.page && !CutShort(d, r)
    ensures Leaves(d, r, buf) == if Clears(d, r) then Blanks(d.flash.page) else buf
  {
    hide CutShort, Clears, Dfu.Valid;
  }

  /** Over every session from a blank buffer: it is blank unless a flash download was cut short. */
  lemma {:induction false} SessionBuffer(d: Dfu, rs: seq<Request>)
    requires d.Valid() && d.flash.Blank() && !SomeCutShort(d, rs)
    ensures Settled(d, rs) && Run(d, rs).0.flash.Blank()
    decreases |rs|
  {
    hide Step, CutShort, Clears, Dfu.Valid;
    if rs != [] {
      SessionBuffer(d, rs[..|rs| - 1]);
    }
    SettledBuffer(d, rs);
  }

  // Chip erase after a session.

  /** An idle device handles a command-carrying request by processing the command alone. */
  lemma CommandStep(d: Dfu, r: Request)
    requires Loads(d, r) && !d.waitForExit
    requires ProcessCommand(d.(sent := SentAfter(d.sent, r))).state != DFU_DNLOAD_IDLE
    ensures Step(d, r).0 == ProcessCommand(d.(sent := SentAfter(d.sent, r)))
  {
    hide ProcessCommand, LoadCommand, Flash.Valid;
  }

  lemma EraseCommand(d: Dfu)
    requires d.Valid() && IsChipErase(d.sent)
    ensures ProcessCommand(d) == d.(flash := EraseFrom(d.flash, 0, d.part.bootStart), isSecure := false)
  {
    hide EraseFrom, Flash.Valid;
  }

  lemma LoadStep(d: Dfu, r: Request)
    requires Loads(d, r) && !d.waitForExit
    ensures Step(d, r).0 ==
            DataStage(ProcessCommand(d.(sent := SentAfter(d.sent, r))),
                      OutPipe(AfterCommand(r.packets[0]), r.packets[1..]))
  {
    hide ProcessCommand, LoadCommand, DataStage, Flash.Valid;
  }

  /** A chip erase of a device that is not about to exit and has an application section. */
  ghost predicate ErasesChipNow(e: Dfu, erase: Request) {
    && Loads(e, erase) && !e.waitForExit && IsChipErase(SentAfter(e.sent, erase))
    && Aligned(e.part.bootStart, e.flash.page) && 0 < e.part.bootStart
  }

  /** The request finds the device in a download and carries bytes behind its command, which the device then takes for
      data of that download. */
  ghost predicate RunsOn(e: Dfu, r: Request)
    requires e.Valid()
  {
    e.state == DFU_DNLOAD_IDLE && SentAfter(e.sent, r).dataSize != 0
  }

  /** The device once the erase loop is done, before the data stage. */
  ghost function Erased(e: Dfu, erase: Request): (g: Dfu)
    requires ErasesChipNow(e, erase)
    ensures g.Valid()
  {
    e.(sent := SentAfter(e.sent, erase), flash := EraseFrom(e.flash, 0, e.part.bootStart), isSecure := false)
  }

  lemma ErasedFlash(e: Dfu, erase: Request)
    requires ErasesChipNow(e, erase)
    ensures var g := Erased(e, erase);
            && e.flash.page <= e.part.bootStart
            && g.flash.mem == Splice(e.flash.mem, 0, e.flash.buf + Blanks(e.part.bootStart - e.flash.page))
            && g.flash.Blank() && g.flash.page == e.flash.page
            && Step(e, erase).0 == DataStage(g, OutPipe(AfterCommand(erase.packets[0]), erase.packets[1..]))
  {
    hide Step, SentAfter, EraseFrom, ProcessCommand, DataStage, Splice, Offset, IsChipErase;
    EraseCommand(e.(sent := SentAfter(e.sent, erase)));
    LoadStep(e, erase);
    ChipErase(e.flash, e.part.bootStart);
  }

  /** Without a download to run on into, the request ends with the erase loop; it ends a download without data. */
  lemma EraseStep(e: Dfu, erase: Request)
    requires ErasesChipNow(e, erase) && !RunsOn(e, erase)
    ensures Step(e, erase).0 ==
            Erased(e, erase).(state := if e.state == DFU_DNLOAD_IDLE then DFU_IDLE else e.state)
  {
    hide Step, SentAfter, EraseFrom, Splice, Offset, IsChipErase, AfterCommand;
    ErasedFlash(e, erase);
  }

  /** The bytes behind the command that end up in flash: all the range of the download takes, or those of the pages
      that are full before the packets end. */
  ghost function RunOnWords(e: Dfu, r: Request): seq<Byte>
    requires e.Valid() && r.packets != []
  {
    PageSizes(e.flash);
    var t, n := L.Stock(r, e.startAddr), 2 * (e.ByteCount() / 2);
    if !RunsOn(e, r) then [] else if n <= |t| then t[..n] else t[..P.Whole(|t|, e.flash.page)]
  }

  /** The download has no word left to take, or the request has none. */
  ghost predicate TakesNothing(e: Dfu, r: Request)
    requires e.Valid() && r.packets != []
  {
    e.ByteCount() / 2 == 0 || L.Stock(r, e.startAddr) == []
  }

  /** The range of the download lies in flash, below address k. */
  ghost predicate RangeBelow(e: Dfu, k: nat)
    requires e.Valid()
  {
    e.FlashAddress() < k && e.FlashAddress() + 2 * (e.ByteCount() / 2) <= k
  }

  /** A chip erase that runs on into a download: what the loop writes into the memory just erased. */
  lemma EraseRunsOn(e: Dfu, erase: Request)
    requires ErasesChipNow(e, erase) && RunsOn(e, erase) && RangeBelow(e, |e.flash.mem|)
    ensures var g := Erased(e, erase);
            && e.flash.page <= e.part.bootStart
            && g.flash.mem == Splice(e.flash.mem, 0, e.flash.buf + Blanks(e.part.bootStart - e.flash.page))
            && g.flash.Blank() && g.flash.page == e.flash.page && RangeBelow(g, |g.flash.mem|)
            && P.StageLays(g, Step(e, erase).0.flash.mem, e.FlashAddress(), L.Stock(erase, e.startAddr))
  {
    hide Step, SentAfter, EraseFrom, Splice, Offset, AfterCommand, DataStage, P.StageLays, Dfu.ByteCount, Discard,
      Blanks;
    var g := Erased(e, erase);
    ErasedFlash(e, erase);
    L.SameCount(e, g);
    P.StageMemory(g, OutPipe(AfterCommand(erase.packets[0]), erase.packets[1..]), g.FlashAddress());
  }

  /** It writes nothing if it takes no word. */
  lemma EraseTakesNothing(e: Dfu, erase: Request)
    requires ErasesChipNow(e, erase) && RunsOn(e, erase) && TakesNothing(e, erase)
    ensures Step(e, erase).0.flash == Erased(e, erase).flash && RunOnWords(e, erase) == []
  {
    hide Step, SentAfter, EraseFrom, Splice, Offset, AfterCommand, WriteWords, Dfu.ByteCount, Discard, OutPipe.Readable;
    var g := Erased(e, erase);
    ErasedFlash(e, erase);
    L.SameCount(e, g);
    var out := L.Payload(erase, e.startAddr);
    if e.ByteCount() / 2 == 0 {
      NoWords(g.flash, out, g.FlashAddress());
    } else {
      if !out.Dry() {
        ReadPadded(out);
      }
      P.LoopDry(g.flash, out, g.FlashAddress(), g.FlashAddress(), 0, g.ByteCount() / 2);
    }
  }

  /** The memory after the erase loop. */
  lemma ErasedBlank(mem: seq<Byte>, buf: seq<Byte>, page: nat, k: nat)
    requires |buf| == page <= k <= |mem|
    ensures var m := Splice(mem, 0, buf + Blanks(k - page));
            && SameFrom(m, mem, k) && P.BlankIn(m, page, k) && (P.BlankIn(m, 0, k) <==> buf == Blanks(page))
  {
    var m := Splice(mem, 0, buf + Blanks(k - page));
    assert forall i | 0 <= i < page :: m[i] == buf[i];
    assert buf == Blanks(page) <==> forall i | 0 <= i < page :: buf[i] == BLANK;
  }

  /** One chip erase, in terms of the page buffer before it. */
  lemma EraseCompletes(e: Dfu, erase: Request)
    requires ErasesChipNow(e, erase)
    requires RunsOn(e, erase) && !TakesNothing(e, erase) ==> RangeBelow(e, e.part.bootStart)
    ensures Step(e, erase).0.flash.mem == Splice(e.flash.mem, 0, Blanks(e.part.bootStart)) <==>
            e.flash.buf == Blanks(e.flash.page) && RunOnWords(e, erase) == Blanks(|RunOnWords(e, erase)|)
  {
    hide Step, Splice, Blanks, Offset, IsChipErase, SentAfter, EraseFrom, TakesNothing, RangeBelow, RunsOn;
    ErasedFlash(e, erase);
    P.BufferSize(e.flash);
    SameStart(e.flash.mem, e.flash.buf, e.flash.page, e.part.bootStart);
    P.EmptyBlanks();
    if !RunsOn(e, erase) {
      EraseStep(e, erase);
    } else if TakesNothing(e, erase) {
      EraseTakesNothing(e, erase);
    } else {
      RunOnCompletes(e, erase);
    }
  }

  lemma RunOnCompletes(e: Dfu, erase: Request)
    requires ErasesChipNow(e, erase) && RunsOn(e, erase) && RangeBelow(e, e.part.bootStart)
    ensures Step(e, erase).0.flash.mem == Splice(e.flash.mem, 0, Blanks(e.part.bootStart)) <==>
            e.flash.buf == Blanks(e.flash.page) && RunOnWords(e, erase) == Blanks(|RunOnWords(e, erase)|)
  {
    hide Step, Splice, Blanks, Offset, IsChipErase, SentAfter, EraseFrom, RunsOn, Dfu.ByteCount, P.BlankIn, SameFrom,
      L.LayOnto, P.CutOnto, L.WordOffset, L.Stock, P.Whole;
    var a, k, page, t := e.FlashAddress(), e.part.bootStart, e.flash.page, L.Stock(erase, e.startAddr);
    var g, s := Erased(e, erase), Step(e, erase).0.flash.mem;
    L.SameCount(e, g);
    EraseRunsOn(e, erase);
    PageSizes(e.flash);
    P.BufferSize(e.flash);
    ErasedBlank(e.flash.mem, e.flash.buf, page, k);
    var n, b, o := 2 * (e.ByteCount() / 2), a - Offset(a, page), L.WordOffset(a, page);
    L.BaseFits(g.flash, a, n);
    P.BlankWithin(g.flash.mem, page, b + page, k);
    if n <= |t| {
      P.BlankLayOnto(g.flash.mem, b, o, t[..n], page, k);
    } else {
      P.BlankCutOnto(g.flash.mem, b, o, t, page, k);
    }
    P.SameChain(s, g.flash.mem, e.flash.mem, k);
    P.BlankedIff(s, e.flash.mem, k);
  }

  /** Chip erase after any session, from any state: the application section ends blank, and the boot section as it
      was, if and only if only blanks wait in the page buffer and the erase does not run on to write other words. */
  lemma EraseIsCompleteIff(d: Dfu, rs: seq<Request>, erase: Request)
    requires d.Valid() && ErasesChipNow(Run(d, rs).0, erase)
    requires var e := Run(d, rs).0;
             RunsOn(e, erase) && !TakesNothing(e, erase) ==> RangeBelow(e, e.part.bootStart)
    ensures var e := Run(d, rs).0;
            Step(e, erase).0.flash.mem == Splice(e.flash.mem, 0, Blanks(e.part.bootStart)) <==>
            Waiting(d, rs) == Blanks(d.flash.page) && RunOnWords(e, erase) == Blanks(|RunOnWords(e, erase)|)
  {
    hide Run, Step, SentAfter, Splice, Offset, IsChipErase, Waiting, Blanks, RunOnWords, RunsOn, TakesNothing,
      RangeBelow;
    WaitingIs(d, rs);
    EraseCompletes(Run(d, rs).0, erase);
  }

  /** Chip erase after any session in which no flash download has been cut short since the buffer was last cleared:
      the whole application section is blank and the boot section unchanged, unless the erase runs on. */
  lemma SessionErase(d: Dfu, rs: seq<Request>, erase: Request)
    requires d.Valid() && Settled(d, rs) && ErasesChipNow(Run(d, rs).0, erase) && !RunsOn(Run(d, rs).0, erase)
    ensures var e := Run(d, rs).0;
            && Step(e, erase).0.flash.mem == Splice(e.flash.mem, 0, Blanks(e.part.bootStart))
            && Step(e, erase).0.flash.Blank() && !Step(e, erase).0.isSecure
  {
    hide Run, Step, Splice, Waiting, Settled, Blanks, Offset, IsChipErase, SentAfter, RunsOn, EraseFrom;
    SettledBuffer(d, rs);
    EraseIsCompleteIff(d, rs, erase);
    P.EmptyBlanks();
    EraseStep(Run(d, rs).0, erase);
    ErasedFlash(Run(d, rs).0, erase);
  }

  /** A second chip erase is complete, whatever the buffer held before the first, unless the first runs on into a
      download that is cut short or the second runs on itself. */
  lemma EraseTwice(d: Dfu, first: Request, second: Request)
    requires ErasesChipNow(d, first) && !CutShort(d, first)
    requires ErasesChipNow(Step(d, first).0, second) && !RunsOn(Step(d, first).0, second)
    ensures var e := Step(d, first).0;
            Step(e, second).0.flash.mem == Splice(e.flash.mem, 0, Blanks(e.part.bootStart))
  {
    hide Step, SentAfter, Splice, Offset, IsChipErase, RunsOn, CutShort, Completes, Blanks, EraseFrom;
    var e := Step(d, first).0;
    P.BufferSize(d.flash);
    StepBuffer(d, first);
    EraseIsErase(d, first);
    EraseCompletes(e, second);
    P.EmptyBlanks();
  }

  lemma EraseIsErase(d: Dfu, erase: Request)
    requires ErasesChipNow(d, erase)
    ensures ErasesIn(d, erase)
  {
  }

  /** One download cut short since the buffer was last blank, and nothing behind it that clears the buffer or is cut
      short: chip erase is complete if and only if the words of its unfinished page are blank. */
  lemma OneCutShort(d: Dfu, rs: seq<Request>, r: Request, more: seq<Request>)
    requires d.Valid() && Settled(d, rs) && CutShort(Run(d, rs).0, r)
    requires Idles(d, rs + [r], more)
    ensures Waiting(d, rs + [r] + more) == Blanks(d.flash.page) <==>
            LeftBy(Run(d, rs).0, r) == Blanks(|LeftBy(Run(d, rs).0, r)|)
  {
    hide Run, Waiting, Settled, Idles, Blanks, CutShort, LeftBy, Leaves;
    var c := Run(d, rs).0;
    SettledBuffer(d, rs);
    IdlesKeep(d, rs + [r], more);
    WaitingNext(d, rs, r);
    LeavesBlankIff(c, r);
    WaitingIs(d, rs);
  }

  /** None of the requests that follow a session clears the buffer or is cut short. */
  ghost predicate Idles(d: Dfu, rs: seq<Request>, more: seq<Request>)
    requires d.Valid()
    decreases |more|
  {
    more == [] ||
    (var c, last := Run(d, rs + more[..|more| - 1]).0, more[|more| - 1];
     Idles(d, rs, more[..|more| - 1]) && !Clears(c, last) && !CutShort(c, last))
  }

  lemma {:induction false} IdlesKeep(d: Dfu, rs: seq<Request>, more: seq<Request>)
    requires d.Valid() && Idles(d, rs, more)
    ensures Waiting(d, rs + more) == Waiting(d, rs)
    decreases |more|
  {
    hide Run, Waiting, Clears, CutShort, Leaves;
    if more == [] {
      assert rs + more == rs;
    } else {
      var front, last := more[..|more| - 1], more[|more| - 1];
      IdlesKeep(d, rs, front);
      assert rs + more == rs + front + [last];
      WaitingNext(d, rs + front, last);
      KeptOrCleared(Run(d, rs + front).0, last, Waiting(d, rs + front));
    }
  }

  lemma WaitingNext(d: Dfu, rs: seq<Request>, r: Request)
    requires d.Valid()
    ensures Run(d, rs).0.flash.page == d.flash.page
    ensures Waiting(d, rs + [r]) == Leaves(Run(d, rs).0, r, Waiting(d, rs))
  {
    hide Run, Leaves, Waiting;
    var all := rs + [r];
    assert all[..|all| - 1] == rs;
    WaitingLast(d, all);
  }

  lemma {:induction false} LeavesBlankIff(d: Dfu, r: Request)
    requires d.Valid() && CutShort(d, r)
    ensures Leaves(d, r, Blanks(d.flash.page)) == Blanks(d.flash.page) <==> LeftBy(d, r) == Blanks(|LeftBy(d, r)|)
  {
    hide CutShort, LeftBy, StartsAfresh, Commanded, L.WordOffset, RingOver;
    LoadsCut(d, r);
    SamePart(d, r);
    assert Leaves(d, r, Blanks(d.flash.page)) ==
           RingOver(Blanks(d.flash.page), L.WordOffset(Commanded(d, r).FlashAddress(), d.flash.page), LeftBy(d, r));
    P.BlankRing(d.flash.page, L.WordOffset(Commanded(d, r).FlashAddress(), d.flash.page), LeftBy(d, r));
  }

  lemma LoadsCut(d: Dfu, r: Request)
    requires CutShort(d, r)
    ensures Loads(d, r)
  {
  }

  lemma SameStart(mem: seq<Byte>, buf: seq<Byte>, page: nat, k: nat)
    requires |buf| == page <= k <= |mem|
    ensures Splice(mem, 0, buf + Blanks(k - page)) == Splice(mem, 0, Blanks(k)) <==> buf == Blanks(page)
  {
    var x, y := buf + Blanks(k - page), Blanks(k);
    SplicePrefix(mem, 0, x, k);
    SplicePrefix(mem, 0, y, k);
    assert x[..k] == x && y[..k] == y;
    assert x[..page] == buf && y[..page] == Blanks(page);
    BlanksJoin(page, k - page);
  }

  /** A download that stops after its first word: chip erase then leaves that word at address 0. */
  lemma InterruptedErase(d: Dfu, prog: Request, n: nat, w: Word, abort: Request, erase: Request)
    requires L.Open(d) && d.flash.Blank() && d.flash64K == 0 && L.IsProgCommand(prog, 0, n) && n >= 4
    requires |prog.packets[0]| == PACKET_SIZE && prog.packets[1..] == [[Low(w), High(w)]]
    requires abort.toInterface && abort.request == REQ_ABORT
    requires var e := Step(Step(d, prog).0, abort).0;
             Loads(e, erase) && IsChipErase(SentAfter(e.sent, erase))
    requires Aligned(d.part.bootStart, d.flash.page) && 0 < d.part.bootStart
    ensures var e := Step(Step(d, prog).0, abort).0;
            && |Step(e, erase).0.flash.mem| == |d.flash.mem| >= 2
            && Step(e, erase).0.flash.mem[..2] == [Low(w), High(w)]
  {
    hide Step, SentAfter, EraseFrom, ProcessCommand, Splice, Offset, IsChipErase, L.RangeCommand, Ring, Low, High;
    var c, e := Step(d, prog).0, Step(Step(d, prog).0, abort).0;
    InterruptedDownload(d, prog, n, w);
    AbortStep(c, abort);
    EraseCommand(e.(sent := SentAfter(e.sent, erase)));
    CommandStep(e, erase);
    ChipErase(e.flash, e.part.bootStart);
    FirstWord(e.flash.mem, e.flash.page, Low(w), High(w), e.part.bootStart);
  }

  lemma AbortStep(d: Dfu, r: Request)
    requires d.Valid() && r.toInterface && r.request == REQ_ABORT
    ensures Step(d, r).0 == d.(sent := d.sent.(dataSize := r.length), state := DFU_IDLE)
  {
    hide Dnload, Upload;
  }

  lemma FirstWord(mem: seq<Byte>, page: nat, x: Byte, y: Byte, k: nat)
    requires 2 <= page <= k <= |mem|
    ensures Splice(mem, 0, Ring(page, 0, [x, y]) + Blanks(k - page))[..2] == [x, y]
  {
  }

  /** After its only word the loop waits in vain: the word stays in the buffer. */
  lemma InterruptedDownload(d: Dfu, prog: Request, n: nat, w: Word)
    requires L.Open(d) && d.flash.Blank() && d.flash64K == 0 && L.IsProgCommand(prog, 0, n) && n >= 4
    requires |prog.packets[0]| == PACKET_SIZE && prog.packets[1..] == [[Low(w), High(w)]]
    ensures var c := Step(d, prog).0;
            && c.flash.buf == Ring(d.flash.page, 0, [Low(w), High(w)]) && c.flash.page == d.flash.page
            && |c.flash.mem| == |d.flash.mem| && c.part == d.part && !c.waitForExit && c.Valid()
  {
    hide L.RangeCommand, LoadCommand, AfterCommand, Discard, WriteWords, ProcessCommand, Dfu.ByteCount, Ring, Low, High,
      Flash.Erase, Flash.Valid;
    var d1 := d.(sent := d.sent.(dataSize := prog.length));
    L.ProgCommand(d1, prog, 0, n);
    L.DiscardInPacket(prog.packets[0][6..], prog.packets[1..]);
    L.DiscardInPacket([], prog.packets[1..]);
    ErasedBuffer(d.flash, 0);
    OneWord(d.flash.Erase(0), OutPipe([], [[Low(w), High(w)]]), w, n / 2);
    WriteWordsEnds(d.flash.Erase(0), OutPipe([], [[Low(w), High(w)]]), 0, 0, 0, n / 2);
    PartStays(d1.(sent := LoadCommand(d1.sent, prog.packets[0])));
  }

  lemma PartStays(d: Dfu)
    requires d.Valid()
    ensures ProcessCommand(d).part == d.part
  {
    hide Flash.Valid, EraseFrom, FirstNonBlank, Flash.Erase;
  }

  lemma OneWord(f: Flash, out: OutPipe, w: Word, remaining: nat)
    requires f.Valid() && f.Blank() && out == OutPipe([], [[Low(w), High(w)]]) && remaining >= 2
    ensures WriteWords(f, out, 0, 0, 0, remaining).flash.buf == Ring(f.page, 0, [Low(w), High(w)])
  {
    hide RingOver, Flash.Fill, WriteWords, Leftover, OutPipe.Readable;
    PageSizes(f);
    NothingOver(f.buf, 0);
    assert Flatten(out.rest) == out.rest[0] + Flatten(out.rest[1..]) && out.rest[1..] == [];
    WholeReadable(out);
    EvenPage(f);
    WriteWordsLeaves(f, f.buf, out, 0, [], 0, remaining);
    LeftoverStep(out, [], f.page);
    WordParts(w);
    LeftoverDry(out.Ready().DropWord(), [Low(w), High(w)], f.page);
    assert [] + [Low(w), High(w)] == [Low(w), High(w)];
  }

  /** A chip erase that runs on: a download of one word that got none, then a chip erase with a word behind it. Only
      blanks wait in the page buffer, and yet the word is at address 0 afterwards. */
  lemma ErasedThenWritten(d: Dfu, prog: Request, erase: Request, lo: Byte, hi: Byte)
    requires L.Open(d) && d.flash.Blank() && d.flash64K == 0
    requires Aligned(d.part.bootStart, d.flash.page) && 0 < d.part.bootStart
    requires L.IsProgCommand(prog, 0, 2) && |prog.packets[0]| == PACKET_SIZE && prog.packets[1..] == []
    requires erase.toInterface && erase.request == REQ_DNLOAD && erase.length == 34
    requires |erase.packets| == 2 && erase.packets[1] == [lo, hi] && |erase.packets[0]| == PACKET_SIZE
    requires erase.packets[0][..6] == [COMMAND_WRITE, 0x00, 0xFF, 0, 0, 0]
    ensures var e := Step(d, prog).0;
            && ErasesChipNow(e, erase) && e.flash.Blank()
            && |Step(e, erase).0.flash.mem| == |d.flash.mem| >= 2
            && Step(e, erase).0.flash.mem[..2] == [lo, hi]
            && (lo != BLANK ==> Step(e, erase).0.flash.mem != Splice(e.flash.mem, 0, Blanks(e.part.bootStart)))
  {
    hide Step, SentAfter, EraseFrom, Splice, Offset, Dfu.ByteCount, P.StageLays, Blanks, L.RangeCommand, L.Stock, Ring,
      LoadCommand;
    var e := Step(d, prog).0;
    EmptyDownload(d, prog);
    LoadsErase(e.sent, erase);
    FirstPage(e.flash);
    EraseRunsOn(e, erase);
    WordBehind(erase, lo, hi);
    L.SameCount(e, Erased(e, erase));
    StageWord(Erased(e, erase), Step(e, erase).0.flash.mem, e.flash.mem, e.part.bootStart, lo, hi);
    FirstBlank(e.flash.mem, e.part.bootStart);
  }

  lemma FirstBlank(mem: seq<Byte>, k: nat)
    requires 0 < k <= |mem|
    ensures Splice(mem, 0, Blanks(k))[0] == BLANK
  {
  }

  lemma FirstPage(f: Flash)
    requires f.Valid()
    ensures f.page <= |f.mem| && 128 <= f.page && Offset(0, f.page) == 0
  {
  }

  /** A download of one word that gets none leaves the device in it. */
  lemma EmptyDownload(d: Dfu, prog: Request)
    requires L.Open(d) && d.flash.Blank() && d.flash64K == 0
    requires L.IsProgCommand(prog, 0, 2) && |prog.packets[0]| == PACKET_SIZE && prog.packets[1..] == []
    ensures var e := Step(d, prog).0;
            && e.Valid() && e.flash.Blank() && e.flash.page == d.flash.page && |e.flash.mem| == |d.flash.mem|
            && e.part == d.part && !e.waitForExit && e.state == DFU_DNLOAD_IDLE
            && e.FlashAddress() == 0 && e.startAddr == 0 && e.ByteCount() == 2
  {
    hide L.RangeCommand, LoadCommand, AfterCommand, Discard, WriteWords, ProcessCommand, Dfu.ByteCount,
      Flash.Erase, Flash.Valid;
    var d1 := d.(sent := d.sent.(dataSize := prog.length));
    L.ProgCommand(d1, prog, 0, 2);
    L.DiscardInPacket(prog.packets[0][6..], prog.packets[1..]);
    L.DiscardInPacket([], prog.packets[1..]);
    ErasedBuffer(d.flash, 0);
    P.LoopDry(d.flash.Erase(0), OutPipe([], []), 0, 0, 0, 1);
    var g := ProcessCommand(d1.(sent := LoadCommand(d1.sent, prog.packets[0])));
    PartStays(d1.(sent := LoadCommand(d1.sent, prog.packets[0])));
    assert Step(d, prog).0 == g;
  }

  lemma LoadsErase(c: Command, erase: Request)
    requires |c.data| == 5 && erase.toInterface && erase.request == REQ_DNLOAD && erase.length == 34
    requires |erase.packets| == 2 && |erase.packets[0]| == PACKET_SIZE
    requires erase.packets[0][..6] == [COMMAND_WRITE, 0x00, 0xFF, 0, 0, 0]
    ensures IsChipErase(SentAfter(c, erase)) && SentAfter(c, erase).dataSize == 28
  {
    var p := erase.packets[0];
    assert p[0] == p[..6][0] && p[1] == p[..6][1] && p[2] == p[..6][2];
    assert SentAfter(c, erase).data == p[1..][..5] + c.data[5..];
  }

  /** The word in the second packet is the only one that can be read. */
  lemma WordBehind(r: Request, lo: Byte, hi: Byte)
    requires |r.packets| == 2 && r.packets[1] == [lo, hi] && |r.packets[0]| == PACKET_SIZE
    ensures L.Stock(r, 0) == [lo, hi]
  {
    hide Discard;
    var p := r.packets[0];
    assert r.packets[1..] == [[lo, hi]];
    assert AfterCommand(p) == p[6..];
    L.DiscardInPacket(p[6..], r.packets[1..]);
    L.DiscardInPacket([], r.packets[1..]);
    assert Flatten([[lo, hi]]) == [lo, hi] + Flatten([]);
    WholeReadable(OutPipe([], [[lo, hi]]));
  }

  lemma StageWord(g: Dfu, m: seq<Byte>, mem: seq<Byte>, k: nat, lo: Byte, hi: Byte)
    requires g.Valid() && g.FlashAddress() == 0 && g.ByteCount() == 2 && g.flash.Blank() && Offset(0, g.flash.page) == 0
    requires 128 <= g.flash.page <= k <= |mem| == |g.flash.mem|
    requires g.flash.mem == Splice(mem, 0, Blanks(g.flash.page) + Blanks(k - g.flash.page))
    requires P.StageLays(g, m, 0, [lo, hi])
    ensures |m| == |mem| && m[..2] == [lo, hi]
  {
    hide Dfu.ByteCount, Offset, L.LayOnto, P.CutOnto, Aligned, Blanks, Splice;
    PageSizes(g.flash);
    L.BaseFits(g.flash, 0, 2);
    assert [lo, hi][..2] == [lo, hi];
    L.OntoLast(g.flash.mem, Blanks(g.flash.page), 0, 0, [lo, hi], g.flash.page);
    BurnFirst(mem, g.flash.page, k, lo, hi);
  }

  lemma BurnFirst(mem: seq<Byte>, page: nat, k: nat, lo: Byte, hi: Byte)
    requires 2 <= page <= k <= |mem|
    ensures Burned(Splice(mem, 0, Blanks(page) + Blanks(k - page)), 0, RingOver(Blanks(page), 0, [lo, hi]))[..2] ==
            [lo, hi]
  {
    hide AndByte;
    AndBlank(lo);
    AndBlank(hi);
    AndBytes(lo);
    AndBytes(hi);
  }

  lemma AndBytes(x: Byte)
    ensures AndByte(BLANK, x) == x
  {
    AndBlank(x);
  }

  // Blank check and read commands.

  ghost predicate IsBlankCheck(c: Command) {
    |c.data| == 5 && c.command == COMMAND_DISP_DATA && c.data[0] == 0x01
  }

  /** The device after a blank check command, up to its data stage. */
  lemma BlankCommand(d: Dfu)
    requires d.Valid() && !d.isSecure && IsBlankCheck(d.sent)
    ensures var a := FirstNonBlank(d.flash.mem, 0, d.part.bootStart);
            ProcessCommand(d) ==
            if a == d.part.bootStart then d
            else d.(flash64K := a / 0x1_0000 % 0x100, startAddr := a % 0x1_0000,
                    state := DFU_ERROR, status := ERR_CHECK_ERASED)
  {
    hide FirstNonBlank, Flash.Valid;
  }

  lemma EepromStage(d: Dfu, out: OutPipe)
    requires d.Valid() && d.sent.data[0] == 0x01
    ensures var e := DataStage(d, out);
            && e.flash == d.flash && (d.state != DFU_DNLOAD_IDLE ==> e == d)
            && (d.state == DFU_DNLOAD_IDLE ==> e.state == DFU_DNLOAD_IDLE || e.state == DFU_IDLE)
  {
    hide WriteEeprom, Discard, Flash.Valid;
  }

  /** Blank check, in every state: the device is in dfuERROR afterwards exactly when some application byte is not
      blank or it was before; the next UPLOAD then returns the low 16 bits of the least such address. */
  lemma BlankCheck(d: Dfu, check: Request, up: Request)
    requires Loads(d, check) && !d.isSecure && !d.waitForExit && d.part.bootStart <= 0x100_0000
    requires IsBlankCheck(SentAfter(d.sent, check)) && up.toInterface && up.request == REQ_UPLOAD
    ensures var e := Step(d, check).0;
            var a := FirstNonBlank(d.flash.mem, 0, d.part.bootStart);
            var dirty := exists i | 0 <= i < d.part.bootStart :: d.flash.mem[i] != BLANK;
            && e.flash == d.flash && (e.state == DFU_ERROR <==> dirty || d.state == DFU_ERROR)
            && (dirty ==>
                  && e.status == ERR_CHECK_ERASED && e.FlashAddress() == a && e.eeprom == d.eeprom
                  && Step(e, up).1 == Reply(false, [[Low(a % 0x1_0000), High(a % 0x1_0000)]]))
            && (!dirty && d.state != DFU_DNLOAD_IDLE ==> e == d.(sent := SentAfter(d.sent, check)))
  {
    hide LoadCommand, SentAfter, DataStage, ProcessCommand, Flash.Valid, AfterCommand, Low, High, Dnload;
    var c := d.(sent := SentAfter(d.sent, check));
    LoadStep(d, check);
    BlankCommand(c);
    EepromStage(ProcessCommand(c), OutPipe(AfterCommand(check.packets[0]), check.packets[1..]));
  }

  /** What a READ command names: the version bytes, the manufacturer and the signature. */
  ghost function ReadTable(part: Part): map<(Byte, Byte), Byte>
    requires |part.signature| == 3
  {
    map[(0, 0) := 0x20, (0, 1) := 0xDC, (0, 2) := 0xFB,
        (1, 0x30) := 0x58, (1, 0x31) := part.signature[0],
        (1, 0x60) := part.signature[1], (1, 0x61) := part.signature[2]]
  }

  lemma ReadCommand(d: Dfu)
    requires d.Valid() && d.sent.command == COMMAND_READ
    ensures var key := (d.sent.data[0], d.sent.data[1]);
            var table := ReadTable(d.part);
            ProcessCommand(d) ==
            if key in table then d.(responseByte := table[key])
            else if key.0 <= 1 then ReadError(d)
            else d
  {
    hide Flash.Valid, ProcessMemProg, ProcessMemRead, ProcessWrite;
  }

  /** A READ command, secure mode or not and in every state, and the UPLOAD behind it: the reply is the byte the command
      names, and the device enters dfuERROR exactly for an index that names nothing. Only a command that runs on into
      a download can change a memory. */
  lemma ReadThenUpload(d: Dfu, read: Request, up: Request)
    requires Loads(d, read) && !d.waitForExit
    requires SentAfter(d.sent, read).command == COMMAND_READ && up.toInterface && up.request == REQ_UPLOAD
    ensures var c := SentAfter(d.sent, read);
            var key, table := (c.data[0], c.data[1]), ReadTable(d.part);
            var e := Step(d, read).0;
            var failed := key !in table && key.0 <= 1;
            && (e.state == DFU_ERROR <==> d.state == DFU_ERROR || failed)
            && (failed ==> e.status == ERR_ADDRESS)
            && (key in table && (d.state == DFU_IDLE || (d.state == DFU_DNLOAD_IDLE && !RunsOn(d, read))) ==>
                  e.state == DFU_IDLE && Step(e, up).1 == Reply(false, [[table[key]]]))
            && (failed || !RunsOn(d, read) ==> e.flash == d.flash && e.eeprom == d.eeprom)
            && (!failed && RunsOn(d, read) ==> e.state == DFU_DNLOAD_IDLE)
  {
    hide LoadCommand, SentAfter, ProcessCommand, Flash.Valid, ReadTable, Dnload, WriteWords, WriteEeprom, Discard,
      Dfu.ByteCount, AfterCommand;
    ReadCommand(d.(sent := SentAfter(d.sent, read)));
    LoadStep(d, read);
  }

  /** Chip erase in any state, then blank check: the application section is blank, the boot section is
      unchanged, and the blank check raises no error. */
  lemma EraseThenBlankCheck(d: Dfu, erase: Request, check: Request, up: Request)
    requires ErasesChipNow(d, erase) && !RunsOn(d, erase) && d.flash.Blank() && d.part.bootStart <= 0x100_0000
    requires check.toInterface && check.request == REQ_DNLOAD && check.length != 0 && check.packets != []
    requires IsBlankCheck(SentAfter(SentAfter(d.sent, erase), check)) && up.toInterface && up.request == REQ_UPLOAD
    ensures var e := Step(d, erase).0;
            && e.flash.mem == Splice(d.flash.mem, 0, Blanks(d.part.bootStart)) && !e.isSecure
            && Step(e, check).0 == e.(sent := SentAfter(e.sent, check))
  {
    hide SentAfter, EraseFrom, Step, Offset, IsChipErase, FirstNonBlank, RunsOn;
    EraseStep(d, erase);
    ErasedFlash(d, erase);
    BlanksJoin(d.flash.page, d.part.bootStart - d.flash.page);
    BlankCheck(Step(d, erase).0, check, up);
  }
}
