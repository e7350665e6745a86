/** DFU download and upload: what a PROG_START request leaves in flash, and that a later
    DISP_DATA and UPLOAD return it. */
module DfuDownload {
  import opened Bytes
  import opened FlashMemory
  import opened Endpoints
  import opened DfuModel

  /** The programming loop with the endpoint left out: `data` is the bytes it reads. */
  ghost function Program(f: Flash, a: nat, p: nat, filled: nat, data: seq<Byte>): (r: Flash)
    requires f.Valid()
    decreases |data|
  {
    if |data| < 2 then f
    else
      var g := f.Fill(a, MakeWord(data[0], data[1]));
      if |data| < 4 then g.Commit(p)
      else if filled + 1 == f.page / 2 then Program(g.Commit(p).Erase(a + 2), a + 2, a + 2, 0, data[2..])
      else Program(g, a + 2, p, filled + 1, data[2..])
  }

  /** However the host cuts its data into packets: as long as there are words to read, the loop stays attached and
      programs exactly those it wants. */
  lemma {:induction false} WriteWordsReads(f: Flash, out: OutPipe, a: nat, p: nat, filled: nat, remaining: nat)
    requires f.Valid() && 2 * remaining <= |out.Readable()|
    ensures var r := WriteWords(f, out, a, p, filled, remaining);
            && r.attached
            && r.flash == Program(f, a, p, filled, out.Readable()[..2 * remaining])
    decreases remaining
  {
    hide Flash.Fill, Flash.Erase, Flash.Commit, Flash.Valid, OutPipe.Readable, OutPipe.Dry, OutPipe.PeekWord,
      OutPipe.DropWord, OutPipe.Ready, MakeWord;
    if remaining > 0 {
      if out.Dry() {
        NothingReadable(out);
      }
      ReadPadded(out);
      var next := out.Ready().DropWord();
      var g := f.Fill(a, out.Ready().PeekWord());
      assert out.Readable()[..2 * remaining][2..] == next.Readable()[..2 * (remaining - 1)];
      if remaining > 1 {
        if filled + 1 == f.page / 2 {
          WriteWordsReads(g.Commit(p).Erase(a + 2), next, a + 2, a + 2, 0, remaining - 1);
        } else {
          WriteWordsReads(g, next, a + 2, p, filled + 1, remaining - 1);
        }
      }
    }
  }

  // What the programming loop leaves in memory.

  /** The memory after `data` has been programmed from offset o of the page at `base` on. The source counts
      page/2 words and then moves on to the next page, so a page filled from offset o takes the words that
      belong in front of o from behind the end of the page. */
  ghost function LayFrom(mem: seq<Byte>, base: nat, o: nat, data: seq<Byte>, page: nat): (r: seq<Byte>)
    requires page == 128 || page == 256
    requires Aligned(base, page) && Aligned(|mem|, page) && base < |mem| && base + |data| <= |mem|
    ensures |r| == |mem|
    decreases |data|
  {
    PagesApart(base, |mem|, page);
    NextPage(base, page);
    if |data| <= page then Splice(mem, base, Ring(page, o, data))
    else LayFrom(Splice(mem, base, Ring(page, o, data[..page])), base + page, o, data[page..], page)
  }

  lemma LayLast(mem: seq<Byte>, base: nat, o: nat, data: seq<Byte>, page: nat)
    requires page == 128 || page == 256
    requires Aligned(base, page) && Aligned(|mem|, page) && base < |mem| && base + |data| <= |mem| && |data| <= page
    ensures base + page <= |mem| && LayFrom(mem, base, o, data, page) == Splice(mem, base, Ring(page, o, data))
  {
    hide Offset, Ring, Splice;
    PagesApart(base, |mem|, page);
  }

  lemma LayNext(mem: seq<Byte>, base: nat, o: nat, data: seq<Byte>, page: nat)
    requires page == 128 || page == 256
    requires Aligned(base, page) && Aligned(|mem|, page) && base < |mem| && base + |data| <= |mem| && |data| > page
    ensures Aligned(base + page, page)
    ensures LayFrom(mem, base, o, data, page) ==
            LayFrom(Splice(mem, base, Ring(page, o, data[..page])), base + page, o, data[page..], page)
  {
    hide Offset, Ring, Splice;
    PagesApart(base, |mem|, page);
    NextPage(base, page);
  }

  /** The same for a loop that finds `mem` and `buf` in memory and page buffer and has not erased its first page: the
      first page is programmed over what it holds, from a buffer that keeps what is not filled. */
  ghost function LayOnto(mem: seq<Byte>, buf: seq<Byte>, base: nat, o: nat, data: seq<Byte>, page: nat): (r: seq<Byte>)
    requires page == 128 || page == 256
    requires Aligned(base, page) && Aligned(|mem|, page) && base < |mem| && base + |data| <= |mem| && |buf| == page
    ensures |r| == |mem|
  {
    PagesApart(base, |mem|, page);
    NextPage(base, page);
    if data == [] then mem
    else if |data| <= page then Burned(mem, base, RingOver(buf, o, data))
    else LayFrom(Burned(mem, base, RingOver(buf, o, data[..page])), base + page, o, data[page..], page)
  }

  /** The same with the first page erased. */
  ghost function LayOver(mem: seq<Byte>, buf: seq<Byte>, base: nat, o: nat, data: seq<Byte>, page: nat): (r: seq<Byte>)
    requires page == 128 || page == 256
    requires Aligned(base, page) && Aligned(|mem|, page) && base < |mem| && base + |data| <= |mem| && |buf| == page
    ensures |r| == |mem|
  {
    PagesApart(base, |mem|, page);
    LayOnto(Splice(mem, base, Blanks(page)), buf, base, o, data, page)
  }

  lemma OntoLast(mem: seq<Byte>, buf: seq<Byte>, base: nat, o: nat, data: seq<Byte>, page: nat)
    requires page == 128 || page == 256
    requires Aligned(base, page) && Aligned(|mem|, page) && base < |mem| && base + |data| <= |mem| && |buf| == page
    requires 0 < |data| <= page
    ensures base + page <= |mem|
    ensures LayOnto(mem, buf, base, o, data, page) == Burned(mem, base, RingOver(buf, o, data))
  {
    hide Offset, RingOver, Burned;
    PagesApart(base, |mem|, page);
  }

  lemma OntoNext(mem: seq<Byte>, buf: seq<Byte>, base: nat, o: nat, data: seq<Byte>, page: nat)
    requires page == 128 || page == 256
    requires Aligned(base, page) && Aligned(|mem|, page) && base < |mem| && base + |data| <= |mem| && |buf| == page
    requires |data| > page
    ensures Aligned(base + page, page)
    ensures LayOnto(mem, buf, base, o, data, page) ==
            LayFrom(Burned(mem, base, RingOver(buf, o, data[..page])), base + page, o, data[page..], page)
  {
    hide Offset, RingOver, Burned, LayFrom;
    PagesApart(base, |mem|, page);
    NextPage(base, page);
  }

  /** A buffer that has been filled all round does not show what it held. */
  lemma FullRing(buf: seq<Byte>, o: nat, data: seq<Byte>)
    requires |data| == |buf| && o < |buf|
    ensures RingOver(buf, o, data) == Ring(|buf|, o, data)
  {
  }

  /** What the buffer held shows only if the data ends on the first page and leaves a part of it. */
  lemma OverBuffer(mem: seq<Byte>, buf: seq<Byte>, base: nat, o: nat, data: seq<Byte>, page: nat)
    requires page == 128 || page == 256
    requires Aligned(base, page) && Aligned(|mem|, page) && base < |mem| && base + |data| <= |mem| && |buf| == page
    requires o < page
    ensures base + page <= |mem|
    ensures LayOver(mem, buf, base, o, data, page) ==
            if 0 < |data| < page then Splice(mem, base, RingOver(buf, o, data))
            else LayFrom(mem, base, o, data, page)
  {
    hide Offset, RingOver, Burned, LayFrom, LayOnto, Splice, Ring, Blanks;
    PagesApart(base, |mem|, page);
    var m := Splice(mem, base, Blanks(page));
    if data == [] {
      LayLast(mem, base, o, data, page);
      EmptyRing(page, o);
      OntoNone(m, buf, base, o, page);
    } else if |data| <= page {
      OntoLast(m, buf, base, o, data, page);
      BurnErased(mem, base, RingOver(buf, o, data));
      if |data| == page {
        FullRing(buf, o, data);
        LayLast(mem, base, o, data, page);
      }
    } else {
      OntoNext(m, buf, base, o, data, page);
      BurnErased(mem, base, RingOver(buf, o, data[..page]));
      FullRing(buf, o, data[..page]);
      LayNext(mem, base, o, data, page);
    }
  }

  lemma OntoNone(mem: seq<Byte>, buf: seq<Byte>, base: nat, o: nat, page: nat)
    requires page == 128 || page == 256
    requires Aligned(base, page) && Aligned(|mem|, page) && base < |mem| && |buf| == page
    ensures LayOnto(mem, buf, base, o, [], page) == mem
  {
    hide Offset, RingOver, Burned, LayFrom;
  }

  /** With a blank buffer it never shows. */
  lemma OverBlank(mem: seq<Byte>, base: nat, o: nat, data: seq<Byte>, page: nat)
    requires page == 128 || page == 256
    requires Aligned(base, page) && Aligned(|mem|, page) && base < |mem| && base + |data| <= |mem| && o < page
    ensures LayOver(mem, Blanks(page), base, o, data, page) == LayFrom(mem, base, o, data, page)
  {
    hide Offset, RingOver, LayFrom, LayOver, Splice, Blanks;
    OverBuffer(mem, Blanks(page), base, o, data, page);
    if 0 < |data| < page {
      LayLast(mem, base, o, data, page);
    }
  }

  /** Offset of the word of address p in its page: bit 0 of an address is not decoded. */
  ghost function WordOffset(p: nat, page: nat): (o: nat)
    requires page == 128 || page == 256
    ensures o <= Offset(p, page) < page
  {
    2 * (Offset(p, page) / 2)
  }

  /** Where the loop stands: `done` is buffered for the page of address p, over what the buffer held. */
  ghost predicate Filling(f: Flash, buf: seq<Byte>, p: nat, done: seq<Byte>) {
    && f.Valid() && (f.page == 128 || f.page == 256) && p < |f.mem| && |buf| == f.page
    && |done| % 2 == 0 && |done| < f.page
    && f.buf == RingOver(buf, WordOffset(p, f.page), done)
  }

  lemma StartFilling(f: Flash, p: nat)
    requires f.Valid() && (f.page == 128 || f.page == 256) && p < |f.mem| && |f.buf| == f.page
    ensures Filling(f, f.buf, p, [])
  {
    hide Offset, RingOver, WordOffset;
    NothingOver(f.buf, WordOffset(p, f.page));
  }

  /** The next page, erased, is ready to be filled. */
  lemma NextFilling(f: Flash, p: nat)
    requires f.Valid() && (f.page == 128 || f.page == 256) && f.Blank() && p < |f.mem|
    ensures var b := p - Offset(p, f.page);
            b + f.page <= |f.mem| && f.Erase(p).mem == Splice(f.mem, b, Blanks(f.page))
    ensures Filling(f.Erase(p), Blanks(f.page), p, [])
  {
    hide Offset, RingOver, WordOffset, Splice, Flash.Erase;
    EraseSplices(f, p);
    PageBounds(f, p);
    NothingOver(Blanks(f.page), WordOffset(p, f.page));
  }

  /** The page is full, or the data at its end: the commit programs what was buffered. */
  lemma CommitFilled(g: Flash, p: nat)
    requires g.Valid() && p < |g.mem| && |g.buf| == g.page
    ensures var b := p - Offset(p, g.page);
            b + g.page <= |g.mem| && g.Commit(p).mem == Burned(g.mem, b, g.buf) && g.Commit(p).Blank()
  {
    hide Offset, Burned, Flash.Commit, Flash.PageBase;
    PageBounds(g, p);
    CommitBurns(g, p);
  }

  lemma FillStep(f: Flash, buf: seq<Byte>, p: nat, done: seq<Byte>, w: Word)
    requires Filling(f, buf, p, done)
    ensures var g := f.Fill(p + |done|, w);
            && g.Valid() && g.mem == f.mem && g.page == f.page
            && |done| + 2 <= f.page && g.buf == RingOver(buf, WordOffset(p, f.page), done + [Low(w), High(w)])
  {
    hide Offset, RingOver, Low, High, Flash.Fill;
    FillRingOver(f, buf, p, done, w);
  }

  /** Stays inside memory: the last page the data touches is a whole page. */
  lemma BaseFits(f: Flash, p: nat, n: nat)
    requires f.Valid() && p < |f.mem| && p + n <= |f.mem|
    ensures var b := p - Offset(p, f.page);
            Aligned(b, f.page) && Aligned(|f.mem|, f.page) && b < |f.mem| && b + n <= |f.mem|
  {
    SubtractOffset(0, p, f.page);
  }

  lemma ProgramStep(f: Flash, a: nat, p: nat, filled: nat, data: seq<Byte>)
    requires f.Valid() && |data| >= 2
    ensures var g := f.Fill(a, MakeWord(data[0], data[1]));
            Program(f, a, p, filled, data) ==
            if |data| < 4 then g.Commit(p)
            else if filled + 1 == f.page / 2 then Program(g.Commit(p).Erase(a + 2), a + 2, a + 2, 0, data[2..])
            else Program(g, a + 2, p, filled + 1, data[2..])
  {
    hide Flash.Fill, Flash.Erase, Flash.Commit, Flash.Valid, MakeWord;
  }

  lemma SameWordOffset(p: nat, page: nat)
    requires page == 128 || page == 256
    ensures WordOffset(p + page, page) == WordOffset(p, page)
  {
    hide Offset;
    SameOffset(p, page);
  }

  /** At a page turn the loop begins anew with the next page erased and a blank buffer. */
  lemma OntoTurn(mem: seq<Byte>, buf: seq<Byte>, base: nat, o: nat, first: seq<Byte>, rest: seq<Byte>, page: nat)
    requires page == 128 || page == 256
    requires Aligned(base, page) && Aligned(|mem|, page) && |buf| == |first| == page && o < page
    requires rest != [] && base + |first| + |rest| <= |mem|
    ensures Aligned(base + page, page) && base + page + page <= |mem|
    ensures var m := Burned(mem, base, RingOver(buf, o, first));
            LayOnto(mem, buf, base, o, first + rest, page) ==
            LayOnto(Splice(m, base + page, Blanks(page)), Blanks(page), base + page, o, rest, page)
  {
    hide Offset, RingOver, LayFrom, LayOnto, Splice, Blanks, Burned;
    NextPage(base, page);
    PagesApart(base + page, |mem|, page);
    assert (first + rest)[..page] == first && (first + rest)[page..] == rest;
    OntoNext(mem, buf, base, o, first + rest, page);
    OverBlank(Burned(mem, base, RingOver(buf, o, first)), base + page, o, rest, page);
  }

  /** The programming loop, entered with `done` buffered for the page of p, lays out `done` and `data`. */
  lemma {:induction false} ProgramLays(f: Flash, buf: seq<Byte>, p: nat, done: seq<Byte>, filled: nat, data: seq<Byte>)
    requires f.Valid() && (f.page == 128 || f.page == 256)
    requires Filling(f, buf, p, done) && |done| == 2 * filled
    requires |data| % 2 == 0 && data != [] && p + |done| + |data| <= |f.mem|
    ensures var b := p - Offset(p, f.page);
            var r := Program(f, p + |done|, p, filled, data);
            && Aligned(b, f.page) && Aligned(|f.mem|, f.page) && b < |f.mem| && b + |done + data| <= |f.mem|
            && r.Blank() && r.page == f.page
            && r.mem == LayOnto(f.mem, buf, b, WordOffset(p, f.page), done + data, f.page)
    decreases |data|
  {
    hide Offset, WordOffset, RingOver, Splice, Burned, Flash.Fill, Flash.Commit, Flash.Erase, Flash.Valid,
      LayFrom, LayOnto, LayOver, Program, Low, High, MakeWord, Aligned, Blanks;
    BaseFits(f, p, |done| + |data|);
    var b, o := p - Offset(p, f.page), WordOffset(p, f.page);
    var w := MakeWord(data[0], data[1]);
    WordBytes(data[0], data[1]);
    FillStep(f, buf, p, done, w);
    var g := f.Fill(p + |done|, w);
    var done' := done + [data[0], data[1]];
    assert done + data == done' + data[2..];
    ProgramStep(f, p + |done|, p, filled, data);
    if |data| < 4 {
      assert done' == done + data;
      CommitFilled(g, p);
      OntoLast(f.mem, buf, b, o, done', f.page);
    } else if |done'| == f.page {
      CommitFilled(g, p);
      var h := g.Commit(p);
      NextFilling(h, p + f.page);
      SameOffset(p, f.page);
      SameWordOffset(p, f.page);
      ProgramLays(h.Erase(p + f.page), Blanks(f.page), p + f.page, [], 0, data[2..]);
      assert [] + data[2..] == data[2..];
      OntoTurn(f.mem, buf, b, o, done', data[2..], f.page);
    } else {
      ProgramLays(g, buf, p, done', filled + 1, data[2..]);
    }
  }

  /** The words a loop takes and where they go, whatever memory and buffer hold when it begins. */
  lemma WriteOnto(f: Flash, out: OutPipe, start: nat, words: nat)
    requires f.Valid() && (f.page == 128 || f.page == 256) && |f.buf| == f.page
    requires start + 2 * words <= |f.mem| && start < |f.mem| && 2 * words <= |out.Readable()|
    ensures var w := WriteWords(f, out, start, start, 0, words);
            var b := start - Offset(start, f.page);
            && w.attached && w.flash.page == f.page
            && w.flash.buf == (if words == 0 then f.buf else Blanks(f.page))
            && Aligned(b, f.page) && Aligned(|f.mem|, f.page)
            && w.flash.mem == LayOnto(f.mem, f.buf, b, WordOffset(start, f.page), out.Readable()[..2 * words], f.page)
  {
    hide Flash.Erase, Flash.Valid, LayOnto, Offset, WordOffset, Filling, Aligned, Program, WriteWords,
      RingOver, Splice, OutPipe.Readable, Blanks;
    var data := out.Readable()[..2 * words];
    StartFilling(f, start);
    BaseFits(f, start, 2 * words);
    WriteWordsReads(f, out, start, start, 0, words);
    if words > 0 {
      ProgramLays(f, f.buf, start, [], 0, data);
      assert [] + data == data;
    } else {
      assert data == [];
      ProgramNone(f, start, start);
      OntoNone(f.mem, f.buf, start - Offset(start, f.page), WordOffset(start, f.page), f.page);
    }
  }

  // Reading the layout back.

  /** End of the last page that n bytes programmed at `start` touch. */
  ghost function PageEnd(start: nat, n: nat, page: nat): nat
    requires page == 128 || page == 256
  {
    var last := if n == 0 then start else start + n - 1;
    last - Offset(last, page) + page
  }

  lemma PageEndUnique(start: nat, n: nat, page: nat, q: nat)
    requires page == 128 || page == 256
    requires Aligned(q, page) && q < start + n <= q + page && n > 0
    ensures PageEnd(start, n, page) == q + page
  {
    OffsetInPage(q, start + n - 1 - q, page);
  }

  /** Only the pages of the data change. */
  lemma {:induction false} LayOutside(mem: seq<Byte>, base: nat, o: nat, data: seq<Byte>, page: nat, x: nat)
    requires page == 128 || page == 256
    requires Aligned(base, page) && Aligned(|mem|, page) && base < |mem| && base + |data| <= |mem|
    requires x < |mem| && (x < base || x >= PageEnd(base, |data|, page))
    ensures LayFrom(mem, base, o, data, page)[x] == mem[x]
    decreases |data|
  {
    hide Offset, Ring, LayFrom;
    if |data| <= page {
      LayLast(mem, base, o, data, page);
      if |data| > 0 {
        PageEndUnique(base, |data|, page, base);
      }
    } else {
      LayNext(mem, base, o, data, page);
      LayOutside(Splice(mem, base, Ring(page, o, data[..page])), base + page, o, data[page..], page, x);
      PageEndAhead(base, |data|, page);
    }
  }

  lemma PageEndAhead(base: nat, n: nat, page: nat)
    requires page == 128 || page == 256
    requires Aligned(base, page) && n > page
    ensures PageEnd(base, n, page) >= base + n
  {
  }

  /** The first page of the layout. */
  lemma LayHead(mem: seq<Byte>, base: nat, o: nat, data: seq<Byte>, page: nat, j: nat)
    requires page == 128 || page == 256
    requires Aligned(base, page) && Aligned(|mem|, page) && base < |mem| && base + |data| <= |mem| && j < page
    ensures base + page <= |mem|
    ensures LayFrom(mem, base, o, data, page)[base + j] ==
            Ring(page, o, if |data| <= page then data else data[..page])[j]
  {
    hide Offset, Ring, LayFrom;
    PagesApart(base, |mem|, page);
    if |data| <= page {
      LayLast(mem, base, o, data, page);
    } else {
      LayNext(mem, base, o, data, page);
      LayOutside(Splice(mem, base, Ring(page, o, data[..page])), base + page, o, data[page..], page, base + j);
    }
  }

  /** What a download from the even address `start` leaves at the place of its i-th byte: the byte, if its word is
      filled into the page it belongs to. Otherwise the place lies on the next page, which holds there the byte one
      page further on in the data, or is blank, or was not reached. The place behind the last byte counts too. */
  ghost function Landing(mem: seq<Byte>, start: nat, data: seq<Byte>, page: nat, i: nat): Byte
    requires page == 128 || page == 256
    requires i <= |data| && start + |data| <= |mem| && start + i < |mem|
  {
    if Offset(i, page) + Offset(start, page) < page then
      if i < |data| then data[i] else if i > 0 && Offset(i, page) == 0 then mem[start + i] else BLANK
    else if i + page < |data| then data[i + page]
    else if i - Offset(i, page) + page < |data| then BLANK
    else mem[start + i]
  }

  lemma {:induction false} LayByte(mem: seq<Byte>, base: nat, o: nat, data: seq<Byte>, page: nat, i: nat)
    requires page == 128 || page == 256
    requires Aligned(base, page) && Aligned(|mem|, page) && o < page && base + o + |data| <= |mem|
    requires i <= |data| && base + o + i < |mem|
    ensures Offset(base + o, page) == o && base < |mem|
    ensures LayFrom(mem, base, o, data, page)[base + o + i] == Landing(mem, base + o, data, page, i)
    decreases |data|
  {
    hide Offset, Ring, LayFrom, Splice;
    OffsetInPage(base, o, page);
    PagesApart(base, |mem|, page);
    if i < page {
      SmallOffset(i, page);
      LayFirst(mem, base, o, data, page, i);
    } else if |data| > page {
      LayNext(mem, base, o, data, page);
      var m := Splice(mem, base, Ring(page, o, data[..page]));
      SpliceBehind(mem, base, Ring(page, o, data[..page]), base + o + i);
      OffsetInPage(base + page, o, page);
      LayByte(m, base + page, o, data[page..], page, i - page);
      SameOffset(i - page, page);
    } else {
      LayLast(mem, base, o, data, page);
      SpliceBehind(mem, base, Ring(page, o, data), base + o + i);
      SmallOffset(0, page);
      SameOffset(0, page);
    }
  }

  lemma SmallOffset(i: nat, page: nat)
    requires page == 128 || page == 256
    requires i < page
    ensures Offset(i, page) == i
  {
  }

  lemma SpliceBehind(mem: seq<Byte>, a: nat, data: seq<Byte>, x: nat)
    requires a + |data| <= x < |mem|
    ensures Splice(mem, a, data)[x] == mem[x]
  {
  }

  /** A byte of the first chunk. */
  lemma LayFirst(mem: seq<Byte>, base: nat, o: nat, data: seq<Byte>, page: nat, i: nat)
    requires page == 128 || page == 256
    requires Aligned(base, page) && Aligned(|mem|, page) && o < page && base + o + |data| <= |mem|
    requires i <= |data| && i < page && base + o + i < |mem| && Offset(i, page) == i && Offset(base + o, page) == o
    ensures base < |mem|
    ensures LayFrom(mem, base, o, data, page)[base + o + i] == Landing(mem, base + o, data, page, i)
  {
    hide Offset, LayFrom, Splice;
    if o + i < page {
      LayHead(mem, base, o, data, page, o + i);
    } else if |data| <= page {
      LayLast(mem, base, o, data, page);
      SpliceBehind(mem, base, Ring(page, o, data), base + o + i);
    } else {
      LayNext(mem, base, o, data, page);
      var m := Splice(mem, base, Ring(page, o, data[..page]));
      LayHead(m, base + page, o, data[page..], page, o + i - page);
    }
  }

  /** From a page boundary every byte lands where it belongs, and the rest of the last page is blank. */
  lemma {:induction false} LayAligned(mem: seq<Byte>, base: nat, data: seq<Byte>, page: nat)
    requires page == 128 || page == 256
    requires Aligned(base, page) && Aligned(|mem|, page) && base < |mem| && base + |data| <= |mem|
    ensures LayFrom(mem, base, 0, data, page) == Overlay(mem, base, data, PageEnd(base, |data|, page))
    decreases |data|
  {
    hide Offset, LayFrom;
    if |data| <= page {
      LayLast(mem, base, 0, data, page);
      if |data| > 0 {
        PageEndUnique(base, |data|, page, base);
      }
      assert Splice(mem, base, Ring(page, 0, data)) == Overlay(mem, base, data, base + page);
    } else {
      LayNext(mem, base, 0, data, page);
      var m := Splice(mem, base, Ring(page, 0, data[..page]));
      LayAligned(m, base + page, data[page..], page);
      PageEndAhead(base, |data|, page);
      OverlayJoins(mem, base, data, page, PageEnd(base, |data|, page));
    }
  }

  lemma OverlayJoins(mem: seq<Byte>, base: nat, data: seq<Byte>, page: nat, end: nat)
    requires page < |data| && base + |data| <= |mem| && end >= base + |data|
    ensures Overlay(Splice(mem, base, Ring(page, 0, data[..page])), base + page, data[page..], end) ==
            Overlay(mem, base, data, end)
  {
  }

  // The requests.

  /** A six-byte command for the flash range of n bytes at 16-bit address `start`. */
  ghost function RangeCommand(command: Byte, start: Word, n: nat): (c: seq<Byte>)
    ensures |c| == 6
  {
    var end := (start + n + 0xFFFF) % 0x1_0000;
    [command, 0x00, High(start), Low(start), High(end), Low(end)]
  }

  /** Loading a range command recovers the range. */
  lemma LoadRange(d: Dfu, command: Byte, start: Word, n: nat, rest: seq<Byte>)
    requires d.Valid() && n < 0x1_0000
    ensures AfterCommand(RangeCommand(command, start, n) + rest) == rest
    ensures var c := LoadCommand(d.sent, RangeCommand(command, start, n) + rest);
            var l := LoadAddresses(d.(sent := c));
            && c.command == command && c.data[0] == 0x00
            && c.dataSize == (d.sent.dataSize - 6) % 0x1_0000
            && l.startAddr == start && l.ByteCount() == n
  {
    hide LoadCommand, AfterCommand, Low, High, MakeWord, Flash.Valid;
    LoadSix(d.sent, RangeCommand(command, start, n), rest);
    CountWraps(start, n);
    WordParts(start);
    WordParts((start + n + 0xFFFF) % 0x1_0000);
  }

  lemma LoadSix(old_: Command, c: seq<Byte>, rest: seq<Byte>)
    requires |old_.data| == 5 && |c| == 6
    ensures LoadCommand(old_, c + rest) == Command(c[0], c[1..], (old_.dataSize - 6) % 0x1_0000)
    ensures AfterCommand(c + rest) == rest
  {
    assert (c + rest)[1..][..5] == c[1..];
    assert old_.data[5..] == [];
    assert (c + rest)[6..] == rest;
  }

  lemma CountWraps(start: Word, n: nat)
    requires n < 0x1_0000
    ensures ((start + n + 0xFFFF) % 0x1_0000 - start + 1) % 0x1_0000 == n
  {
    var m := start + n + 0xFFFF;
    if m < 0x1_0000 {
      assert m % 0x1_0000 == m;
    } else if m < 0x2_0000 {
      assert m % 0x1_0000 == m - 0x1_0000;
    } else {
      assert m % 0x1_0000 == m - 0x2_0000;
    }
  }

  /** Filler that fits in the rest of the packet is dropped byte by byte. */
  lemma {:induction false} DiscardInPacket(filler: seq<Byte>, rest: seq<seq<Byte>>)
    ensures Discard(OutPipe(filler, rest), |filler|) == OutPipe([], rest)
    decreases |filler|
  {
    if filler != [] {
      DiscardInPacket(filler[1..], rest);
    }
  }

  /** The data stage of a flash download lays out the words it is asked for. */
  lemma DownloadData(f: Flash, out: OutPipe, start: nat, words: nat)
    requires f.Valid() && (f.page == 128 || f.page == 256) && |f.buf| == f.page
    requires start + 2 * words <= |f.mem| && start < |f.mem| && 2 * words <= |out.Readable()|
    ensures var w := WriteWords(f.Erase(start), out, start, start, 0, words);
            var b := start - Offset(start, f.page);
            && w.attached && w.flash.page == f.page
            && w.flash.buf == (if words == 0 then f.buf else Blanks(f.page))
            && Aligned(b, f.page) && Aligned(|f.mem|, f.page)
            && w.flash.mem == LayOver(f.mem, f.buf, b, WordOffset(start, f.page), out.Readable()[..2 * words], f.page)
  {
    hide Flash.Erase, Flash.Valid, LayOnto, Offset, WordOffset, Aligned, WriteWords, Splice, OutPipe.Readable, Blanks;
    EraseSplices(f, start);
    PageBounds(f, start);
    WriteOnto(f.Erase(start), out, start, words);
    BaseFits(f, start, 2 * words);
  }

  lemma ProgramNone(f: Flash, a: nat, p: nat)
    requires f.Valid()
    ensures Program(f, a, p, 0, []) == f
  {
  }

  /** A PROG_START request for n bytes of flash at `start`. */
  ghost predicate IsProgCommand(r: Request, start: Word, n: nat) {
    && r.toInterface && r.request == REQ_DNLOAD
    && r.length != 0 && (r.length - 6) % 0x1_0000 != 0
    && r.packets != [] && n < 0x1_0000
    && |r.packets[0]| >= 6
    && r.packets[0][..6] == RangeCommand(COMMAND_PROG_START, start, n)
  }

  /** What is left of the packets once filler and alignment bytes have been discarded. */
  ghost function Payload(r: Request, start: Word): OutPipe
    requires r.packets != []
  {
    Discard(Discard(OutPipe(AfterCommand(r.packets[0]), r.packets[1..]), FILLER_SIZE), start % PACKET_SIZE)
  }

  /** The words that can be read from it. */
  ghost function Stock(r: Request, start: Word): seq<Byte>
    requires r.packets != []
  {
    Payload(r, start).Readable()
  }

  /** The request holds all the words of its range. */
  ghost predicate Supplied(r: Request, start: Word, n: nat) {
    IsProgCommand(r, start, n) && 2 * (n / 2) <= |Stock(r, start)|
  }

  /** The words the loop takes from the packets. */
  ghost function Taken(r: Request, start: Word, n: nat): (s: seq<Byte>)
    requires Supplied(r, start, n)
    ensures |s| == 2 * (n / 2) <= n
  {
    Stock(r, start)[..2 * (n / 2)]
  }

  /** A PROG_START request as a host sends it: the command and 26 filler bytes in one packet, then whole-word
      packets that begin with the data. */
  ghost predicate IsProgRequest(r: Request, start: Word, data: seq<Byte>) {
    && IsProgCommand(r, start, |data|) && |r.packets[0]| == PACKET_SIZE
    && OutPipe([], r.packets[1..]).WholeWords()
    && data <= Flatten(r.packets[1..])
  }

  /** The boot loader takes commands: neither locked nor about to exit. */
  ghost predicate Open(d: Dfu) {
    d.Valid() && !d.isSecure && !d.waitForExit
  }

  lemma AlignedLow(high: Byte, low: Word, page: nat)
    requires page == 128 || page == 256
    requires Aligned(low, page)
    ensures Aligned(0x1_0000 * high + low, page)
    ensures low % PACKET_SIZE == 0
  {
    if page == 128 {
      Low128(high, low);
    } else {
      Low256(high, low);
    }
  }

  lemma Low128(high: Byte, low: Word)
    requires low % 128 == 0
    ensures (0x1_0000 * (high as int) + low) % 128 == 0 && low % 32 == 0
  {
    var q := low / 128;
    assert 0x1_0000 * (high as int) + low == 128 * (512 * high as int + q);
    assert low == 32 * (4 * q);
  }

  lemma Low256(high: Byte, low: Word)
    requires low % 256 == 0
    ensures (0x1_0000 * (high as int) + low) % 256 == 0 && low % 32 == 0
  {
    var q := low / 256;
    assert 0x1_0000 * (high as int) + low == 256 * (256 * high as int + q);
    assert low == 32 * (8 * q);
  }

  lemma SameCount(d: Dfu, e: Dfu)
    ensures d.startAddr == e.startAddr && d.endAddr == e.endAddr ==> d.ByteCount() == e.ByteCount()
  {
  }

  /** The command of a PROG_START request, processed: the range is set up and its first page erased. */
  lemma ProgCommand(d: Dfu, r: Request, start: Word, n: nat)
    requires Open(d) && IsProgCommand(r, start, n) && d.sent.dataSize == r.length
    ensures var c := d.(sent := LoadCommand(d.sent, r.packets[0]));
            var e := ProcessCommand(c);
            && Allowed(c) && Open(e) && e.flash64K == d.flash64K && e.eeprom == d.eeprom
            && e.state == DFU_DNLOAD_IDLE && e.sent == c.sent
            && e.sent.dataSize != 0 && e.sent.data[0] == 0x00
            && e.startAddr == start && e.ByteCount() == n
            && e.FlashAddress() == 0x1_0000 * d.flash64K + start
            && e.flash == d.flash.Erase(e.FlashAddress())
            && AfterCommand(r.packets[0]) == r.packets[0][6..]
  {
    hide LoadCommand, AfterCommand, Flash.Erase, RangeCommand, Dfu.ByteCount, MakeWord,
      ProcessMemRead, ProcessWrite, ProcessRead;
    var c := d.(sent := LoadCommand(d.sent, r.packets[0]));
    SameCount(LoadAddresses(c), ProcessMemProg(c));
    assert r.packets[0] == RangeCommand(COMMAND_PROG_START, start, n) + r.packets[0][6..];
    LoadRange(d, COMMAND_PROG_START, start, n, r.packets[0][6..]);
  }

  /** A range of n bytes inside the flash, at 16-bit address `start` of the current 64 KB page. */
  ghost predicate FlashRange(d: Dfu, start: Word, n: nat, a: nat) {
    a == 0x1_0000 * d.flash64K + start && a < |d.flash.mem| && a + n <= |d.flash.mem|
  }

  /** Programming `words` at address a has turned d into e: its pages are laid out, nothing else has changed. The
      page buffer is blank, unless there was no word to program. */
  ghost predicate Laid(d: Dfu, e: Dfu, a: nat, words: seq<Byte>)
    requires d.Valid() && a < |d.flash.mem| && a + |words| <= |d.flash.mem|
  {
    BaseFits(d.flash, a, |words|);
    && Open(e) && e.flash64K == d.flash64K && e.eeprom == d.eeprom
    && e.flash.page == d.flash.page && e.flash.buf == (if words == [] then d.flash.buf else Blanks(d.flash.page))
    && e.flash.mem == LayOver(d.flash.mem, d.flash.buf,
                              a - Offset(a, d.flash.page), WordOffset(a, d.flash.page), words, d.flash.page)
  }

  /** Download, from any address, with any packets that hold enough words and whatever waits in the page buffer: the
      words taken are laid out page by page, and an odd last byte is dropped. */
  lemma DownloadPrograms(d: Dfu, r: Request, start: Word, n: nat, a: nat)
    requires Open(d) && Supplied(r, start, n) && FlashRange(d, start, n, a)
    ensures Laid(d, Step(d, r).0, a, Taken(r, start, n))
    ensures Step(d, r).1 == NO_REPLY
  {
    hide Flash.Fill, Flash.Erase, Flash.Commit, LayOver, Offset, WordOffset, RangeCommand, LoadCommand, AfterCommand,
      Discard, WriteWords, ProcessCommand, Dfu.ByteCount, Aligned, OutPipe.Readable, Blanks;
    var d1 := d.(sent := d.sent.(dataSize := r.length));
    ProgCommand(d1, r, start, n);
    DownloadData(d.flash, Payload(r, start), a, n / 2);
  }

  // Which bytes of the range hold what was sent.

  /** The same when the page buffer was not blank: words that end on the page they start on keep it behind them. */
  ghost function LandedByte(mem: seq<Byte>, buf: seq<Byte>, start: nat, words: seq<Byte>, page: nat, i: nat): Byte
    requires page == 128 || page == 256
    requires |buf| == page && i <= |words| && start + |words| <= |mem| && start + i < |mem|
  {
    if i == |words| && Offset(start, page) + i < page then buf[Offset(start, page) + i]
    else Landing(mem, start, words, page, i)
  }

  /** What the download of `words` to address a leaves in the range from a on, given the memory and the page buffer
      before it. A word for an odd address goes to the even address before it. */
  ghost function Landed(mem: seq<Byte>, buf: seq<Byte>, a: nat, words: seq<Byte>, page: nat): (s: seq<Byte>)
    requires page == 128 || page == 256
    requires |buf| == page && a + |words| <= |mem|
    ensures |s| == |words|
  {
    seq<Byte>(|words|, i requires 0 <= i < |words| => LandedByte(mem, buf, a - Odd(a), words, page, i + Odd(a)))
  }

  /** Bit 0 of an address. */
  ghost function Odd(a: nat): (x: nat)
    ensures x <= 1 && x <= a
  {
    a % 2
  }

  /** The range holds the bytes. */
  ghost predicate Holds(mem: seq<Byte>, a: nat, s: seq<Byte>) { a + |s| <= |mem| && mem[a..a + |s|] == s }

  lemma WordBase(a: nat, page: nat)
    requires page == 128 || page == 256
    ensures a - Offset(a, page) + WordOffset(a, page) == a - Odd(a)
  {
    if page == 128 {
      Parity128(a);
    } else {
      Parity256(a);
    }
  }

  lemma Parity128(a: nat)
    ensures a % 128 % 2 == a % 2
  {
  }

  lemma Parity256(a: nat)
    ensures a % 256 % 2 == a % 2
  {
  }

  lemma HoldsBytes(mem: seq<Byte>, a: nat, s: seq<Byte>)
    requires a + |s| <= |mem| && forall i | 0 <= i < |s| :: mem[a + i] == s[i]
    ensures Holds(mem, a, s)
  {
  }

  /** One byte of the layout, over any buffer. */
  lemma OverByte(mem: seq<Byte>, buf: seq<Byte>, b: nat, o: nat, words: seq<Byte>, page: nat, i: nat)
    requires page == 128 || page == 256
    requires Aligned(b, page) && Aligned(|mem|, page) && o < page && b < |mem| && b + o + |words| <= |mem|
    requires |buf| == page && words != [] && i <= |words| && b + o + i < |mem|
    ensures LayOver(mem, buf, b, o, words, page)[b + o + i] == LandedByte(mem, buf, b + o, words, page, i)
  {
    hide Offset, LayOver, LayFrom, Landing, RingOver, Splice;
    OffsetInPage(b, o, page);
    OverBuffer(mem, buf, b, o, words, page);
    if |words| < page {
      ShortByte(mem, buf, b, o, words, page, i);
    } else {
      LayByte(mem, b, o, words, page, i);
    }
  }

  lemma ShortByte(mem: seq<Byte>, buf: seq<Byte>, b: nat, o: nat, words: seq<Byte>, page: nat, i: nat)
    requires page == 128 || page == 256
    requires o < page && b + page <= |mem| && b + o + |words| <= |mem| && Offset(b + o, page) == o
    requires |buf| == page && |words| < page && i <= |words| && b + o + i < |mem|
    ensures Splice(mem, b, RingOver(buf, o, words))[b + o + i] == LandedByte(mem, buf, b + o, words, page, i)
  {
    hide Offset, Splice;
    SmallOffset(i, page);
    if o + i < page {
      SpliceInside(mem, b, RingOver(buf, o, words), o + i);
    } else {
      SpliceBehind(mem, b, RingOver(buf, o, words), b + o + i);
    }
  }

  lemma SpliceInside(mem: seq<Byte>, a: nat, data: seq<Byte>, j: nat)
    requires a + |data| <= |mem| && j < |data|
    ensures Splice(mem, a, data)[a + j] == data[j]
  {
  }

  lemma LaidBytes(
    mem: seq<Byte>, buf: seq<Byte>, b: nat, o: nat, x: nat, words: seq<Byte>, page: nat, s: seq<Byte>)
    requires page == 128 || page == 256
    requires Aligned(b, page) && Aligned(|mem|, page) && o < page && b < |mem| && b + o + x + |words| <= |mem|
    requires x <= 1 && |s| == |words| && |buf| == page
    requires forall i | 0 <= i < |words| :: s[i] == LandedByte(mem, buf, b + o, words, page, i + x)
    ensures Holds(LayOver(mem, buf, b, o, words, page), b + o + x, s)
  {
    hide LayOver, Offset, LandedByte, Aligned, Holds;
    var m := LayOver(mem, buf, b, o, words, page);
    forall i | 0 <= i < |words|
      ensures m[b + o + x + i] == s[i]
    {
      OverByte(mem, buf, b, o, words, page, i + x);
    }
    HoldsBytes(m, b + o + x, s);
  }

  lemma LandedBytes(mem: seq<Byte>, buf: seq<Byte>, a: nat, words: seq<Byte>, page: nat, start: nat, x: nat)
    requires page == 128 || page == 256
    requires |buf| == page && a + |words| <= |mem| && x == Odd(a) && start + x == a
    ensures forall i | 0 <= i < |words| ::
              Landed(mem, buf, a, words, page)[i] == LandedByte(mem, buf, start, words, page, i + x)
  {
    hide Offset, LandedByte, Odd;
  }

  /** The range after a download. */
  lemma RangeAfter(mem: seq<Byte>, buf: seq<Byte>, a: nat, words: seq<Byte>, page: nat)
    requires page == 128 || page == 256
    requires Aligned(|mem|, page) && a < |mem| && a + |words| <= |mem| && Aligned(a - Offset(a, page), page)
    requires |buf| == page
    ensures Holds(LayOver(mem, buf, a - Offset(a, page), WordOffset(a, page), words, page), a,
                  Landed(mem, buf, a, words, page))
  {
    hide LayOver, Offset, WordOffset, LandedByte, Landed, Odd, Aligned, Holds;
    var b, o, x := a - Offset(a, page), WordOffset(a, page), Odd(a);
    WordBase(a, page);
    LandedBytes(mem, buf, a, words, page, b + o, x);
    LaidBytes(mem, buf, b, o, x, words, page, Landed(mem, buf, a, words, page));
  }

  /** The range after any download: exactly which byte each address holds. */
  lemma DownloadLands(d: Dfu, r: Request, start: Word, n: nat, a: nat)
    requires Open(d) && Supplied(r, start, n) && FlashRange(d, start, n, a)
    ensures |Step(d, r).0.flash.mem| == |d.flash.mem| && |d.flash.buf| == d.flash.page
    ensures Holds(Step(d, r).0.flash.mem, a, Landed(d.flash.mem, d.flash.buf, a, Taken(r, start, n), d.flash.page))
  {
    hide Step, Supplied, Taken, LayOver, Offset, WordOffset, Landed, Aligned, Holds, Blanks;
    DownloadPrograms(d, r, start, n, a);
    BaseFits(d.flash, a, |Taken(r, start, n)|);
    RangeAfter(d.flash.mem, d.flash.buf, a, Taken(r, start, n), d.flash.page);
  }

  /** From a packet boundary the words taken are those sent. */
  lemma TakenAtBoundary(r: Request, start: Word, data: seq<Byte>)
    requires IsProgRequest(r, start, data) && start % PACKET_SIZE == 0
    ensures Supplied(r, start, |data|) && Taken(r, start, |data|) == Words(data)
  {
    hide RangeCommand, OutPipe.WholeWords, OutPipe.Readable, Flatten, Discard;
    DiscardInPacket(r.packets[0][6..], r.packets[1..]);
    DiscardInPacket([], r.packets[1..]);
    WholeReadable(OutPipe([], r.packets[1..]));
    PipeStream(r.packets[1..]);
    assert Flatten(r.packets[1..])[..2 * (|data| / 2)] == Words(data);
  }

  lemma PipeStream(tail: seq<seq<Byte>>)
    ensures OutPipe([], tail).Stream() == Flatten(tail)
  {
  }

  lemma EvenAddress(high: Byte, low: Word)
    requires low % PACKET_SIZE == 0
    ensures (0x1_0000 * (high as int) + low) % 2 == 0
  {
    assert low == 2 * (16 * (low / 32));
  }

  /** From a page boundary the flash holds exactly the words sent and a blank rest of the last page; every
      other page is unchanged. Only words that end on the first page have behind them what the buffer held. */
  lemma DownloadAligned(d: Dfu, r: Request, start: Word, data: seq<Byte>, a: nat)
    requires Open(d) && IsProgRequest(r, start, data) && Aligned(start, d.flash.page)
    requires FlashRange(d, start, |data|, a)
    ensures a + d.flash.page <= |d.flash.mem| && |d.flash.buf| == d.flash.page
    ensures var w := Words(data);
            Step(d, r).0.flash.mem ==
            if 0 < |w| < d.flash.page then Splice(d.flash.mem, a, w + d.flash.buf[|w|..])
            else Overlay(d.flash.mem, a, w, PageEnd(a, |w|, d.flash.page))
  {
    hide LayFrom, LayOver, Offset, RangeCommand, Step, PageEnd, Overlay, Supplied, Taken, IsProgRequest, RingOver,
      Blanks;
    AlignedLow(d.flash64K, start, d.flash.page);
    BaseFits(d.flash, a, |data|);
    TakenAtBoundary(r, start, data);
    DownloadPrograms(d, r, start, |data|, a);
    OverBuffer(d.flash.mem, d.flash.buf, a, 0, Words(data), d.flash.page);
    if 0 < |Words(data)| < d.flash.page {
      RingFront(d.flash.buf, Words(data));
    } else {
      LayAligned(d.flash.mem, a, Words(data), d.flash.page);
    }
  }

  lemma RingFront(buf: seq<Byte>, data: seq<Byte>)
    requires |data| <= |buf|
    ensures RingOver(buf, 0, data) == data + buf[|data|..]
  {
  }

  /** Every word of the range that its layout puts on the wrong page is there already, in the place it should
      have gone to. From a page boundary, or if the range ends on the page it starts on, there is no such word. */
  ghost predicate Lands(mem: seq<Byte>, a: nat, words: seq<Byte>, page: nat)
    requires page == 128 || page == 256
    requires a + |words| <= |mem|
  {
    forall i | 0 <= i < |words| && Offset(i, page) + Offset(a, page) >= page ::
      words[i] == Landing(mem, a, words, page, i)
  }

  lemma LandsIff(mem: seq<Byte>, buf: seq<Byte>, a: nat, words: seq<Byte>, page: nat)
    requires page == 128 || page == 256
    requires |buf| == page && a + |words| <= |mem| && a % 2 == 0
    ensures Landed(mem, buf, a, words, page) == words <==> Lands(mem, a, words, page)
  {
    hide Offset, Landing;
    var s := Landed(mem, buf, a, words, page);
    LandedBytes(mem, buf, a, words, page, a, 0);
    forall i | 0 <= i < |words| && Offset(i, page) + Offset(a, page) < page
      ensures s[i] == words[i]
    {
      InPlace(mem, a, words, page, i);
    }
  }

  lemma InPlace(mem: seq<Byte>, a: nat, words: seq<Byte>, page: nat, i: nat)
    requires page == 128 || page == 256
    requires i < |words| && a + |words| <= |mem| && Offset(i, page) + Offset(a, page) < page
    ensures Landing(mem, a, words, page, i) == words[i]
  {
  }

  /** From a packet boundary the words sent arrive, whatever the page buffer holds, if and only if they land. */
  lemma DownloadArrivesIff(d: Dfu, r: Request, start: Word, data: seq<Byte>, a: nat)
    requires Open(d) && IsProgRequest(r, start, data) && start % PACKET_SIZE == 0
    requires FlashRange(d, start, |data|, a)
    ensures var e := Step(d, r).0;
            && |e.flash.mem| == |d.flash.mem|
            && (Holds(e.flash.mem, a, Words(data)) <==> Lands(d.flash.mem, a, Words(data), d.flash.page))
  {
    hide Offset, RangeCommand, Step, Lands, Landed, Supplied, Taken, IsProgRequest;
    TakenAtBoundary(r, start, data);
    EvenAddress(d.flash64K, start);
    DownloadLands(d, r, start, |data|, a);
    LandsIff(d.flash.mem, d.flash.buf, a, Words(data), d.flash.page);
  }

  /** A range that does not land: 33 words from the middle of a 128-byte page on. The last word stays in the
      buffer for the page before it, and its place keeps what it held. */
  lemma TornRange(mem: seq<Byte>, words: seq<Byte>)
    requires |words| == 66 && |mem| >= 256 && words[64] != mem[128]
    ensures !Lands(mem, 64, words, 128)
  {
    assert Offset(64, 128) == 64;
    assert Landing(mem, 64, words, 128, 64) == mem[128];
  }

  /** The upload loop sends the flash contents in order, in full packets. */
  lemma {:induction false} ReadWordsSends(f: Flash, pipe: InPipe, a: nat, n: nat)
    requires f.Valid() && a + 2 * n <= |f.mem|
    requires pipe.Packed(PACKET_SIZE) && |pipe.bank| % 2 == 0
    ensures var r := ReadWords(f, pipe, a, n);
            && r.Stream() == pipe.Stream() + f.mem[a..a + 2 * n]
            && r.Packed(PACKET_SIZE)
    decreases n
  {
    hide InPipe.Stream, InPipe.Packed, InPipe.Room, InPipe.Put, Flash.Read, Flash.Valid;
    if n == 0 {
      assert pipe.Stream() + f.mem[a..a + 2 * n] == pipe.Stream();
    } else {
      ReadInside(f, a);
      ReadInside(f, a + 1);
      PutWord(pipe, f.mem[a], f.mem[a + 1]);
      ReadWordsSends(f, pipe.Room(PACKET_SIZE).Put(f.mem[a]).Put(f.mem[a + 1]), a + 2, n - 1);
      TwoMore(pipe.Stream(), f.mem, a, a + 2 * n);
    }
  }

  lemma PutWord(pipe: InPipe, x: Byte, y: Byte)
    requires pipe.Packed(PACKET_SIZE) && |pipe.bank| % 2 == 0
    ensures var two := pipe.Room(PACKET_SIZE).Put(x).Put(y);
            two.Stream() == pipe.Stream() + [x] + [y] && two.Packed(PACKET_SIZE) && |two.bank| % 2 == 0
  {
    hide InPipe.Stream;
    var one := pipe.Room(PACKET_SIZE).Put(x);
    PutStream(pipe, PACKET_SIZE, x);
    assert |one.bank| < PACKET_SIZE && one.Room(PACKET_SIZE) == one;
    PutStream(one, PACKET_SIZE, y);
  }

  lemma TwoMore(s: seq<Byte>, mem: seq<Byte>, a: nat, b: nat)
    requires a + 2 <= b <= |mem|
    ensures s + [mem[a]] + [mem[a + 1]] + mem[a + 2..b] == s + mem[a..b]
  {
  }

  /** Packets that carry `data`, all full but the last. */
  ghost predicate Carries(packets: seq<seq<Byte>>, data: seq<Byte>, size: nat) {
    && packets != []
    && Flatten(packets) == data
    && (forall i | 0 <= i < |packets| - 1 :: |packets[i]| == size)
    && |packets[|packets| - 1]| <= size
  }

  /** UPLOAD after a DISP_DATA returns the whole words of the requested flash range. */
  lemma UploadSends(d: Dfu)
    requires d.Valid() && d.state == DFU_UPLOAD_IDLE && d.sent.data[0] == 0x00
    requires d.FlashAddress() + d.ByteCount() <= |d.flash.mem|
    ensures var a := d.FlashAddress();
            && Carries(Upload(d).1.packets, Words(d.flash.mem[a..a + d.ByteCount()]), PACKET_SIZE)
            && !Upload(d).1.stalled
            && Upload(d).0.flash == d.flash && Upload(d).0.state == DFU_IDLE
  {
    hide ReadWords, Flash.Valid, Dfu.ByteCount;
    var pipe := InPipe([], []);
    var n := d.ByteCount() / 2;
    ReadWordsSends(d.flash, pipe, d.FlashAddress(), n);
    var r := ReadWords(d.flash, pipe, d.FlashAddress(), n);
    SendStream(r);
    assert pipe.Stream() == [];
  }

  /** A DISP_DATA request for n bytes of flash at `start`. */
  ghost predicate IsReadRequest(r: Request, start: Word, n: nat) {
    && r.toInterface && r.request == REQ_DNLOAD && r.length != 0
    && n < 0x1_0000
    && r.packets == [RangeCommand(COMMAND_DISP_DATA, start, n)]
  }

  lemma StaysUploading(d: Dfu, out: OutPipe)
    requires d.Valid() && d.state == DFU_UPLOAD_IDLE
    ensures DataStage(d, out) == d
  {
  }

  lemma DispCommand(d: Dfu, r: Request, start: Word, n: nat)
    requires Open(d) && IsReadRequest(r, start, n)
    ensures var e := Step(d, r).0;
            && Open(e) && e.state == DFU_UPLOAD_IDLE && e.sent.data[0] == 0x00
            && e.startAddr == start && e.ByteCount() == n
            && e.flash == d.flash && e.flash64K == d.flash64K
    ensures Step(d, r).1 == NO_REPLY
  {
    hide LoadCommand, AfterCommand, RangeCommand, DataStage, Dfu.ByteCount, MakeWord, FirstNonBlank,
      ProcessMemProg, ProcessWrite, ProcessRead;
    var d1 := d.(sent := d.sent.(dataSize := r.length));
    assert r.packets[0] == RangeCommand(COMMAND_DISP_DATA, start, n) + [];
    LoadRange(d1, COMMAND_DISP_DATA, start, n, []);
    var c := d1.(sent := LoadCommand(d1.sent, r.packets[0]));
    SameCount(LoadAddresses(c), ProcessMemRead(c));
    StaysUploading(ProcessCommand(c), OutPipe(AfterCommand(r.packets[0]), r.packets[1..]));
  }

  /** Upload: in any state a DISP_DATA and an UPLOAD request return the whole words of the range. */
  lemma UploadReturns(d: Dfu, disp: Request, up: Request, start: Word, n: nat, a: nat)
    requires Open(d) && IsReadRequest(disp, start, n) && FlashRange(d, start, n, a)
    requires up.toInterface && up.request == REQ_UPLOAD
    ensures Carries(Step(Step(d, disp).0, up).1.packets, Words(d.flash.mem[a..a + n]), PACKET_SIZE)
  {
    hide Upload, Carries, Dnload, Dfu.ByteCount;
    DispCommand(d, disp, start, n);
    var e := Step(d, disp).0;
    var g := e.(sent := e.sent.(dataSize := up.length));
    SameCount(e, g);
    UploadSends(g);
  }

  /** Any download followed by an upload of its range: the upload carries exactly the bytes that landed. */
  lemma RoundTrip(d: Dfu, prog: Request, disp: Request, up: Request, start: Word, n: nat, a: nat)
    requires Open(d) && Supplied(prog, start, n)
    requires FlashRange(d, start, n, a) && IsReadRequest(disp, start, n)
    requires up.toInterface && up.request == REQ_UPLOAD
    ensures Carries(Step(Step(Step(d, prog).0, disp).0, up).1.packets,
                    Landed(d.flash.mem, d.flash.buf, a, Taken(prog, start, n), d.flash.page), PACKET_SIZE)
  {
    hide Step, Supplied, Taken, Landed, LayOver, Offset, Carries, IsReadRequest, Blanks;
    DownloadPrograms(d, prog, start, n, a);
    DownloadLands(d, prog, start, n, a);
    var m := Step(d, prog).0.flash.mem;
    UploadReturns(Step(d, prog).0, disp, up, start, n, a);
    assert Words(m[a..a + n]) == m[a..a + 2 * (n / 2)];
  }

  /** From a packet boundary the upload gives back the words sent if and only if they land. */
  lemma RoundTripIff(d: Dfu, prog: Request, disp: Request, up: Request, start: Word, data: seq<Byte>, a: nat)
    requires Open(d) && IsProgRequest(prog, start, data) && start % PACKET_SIZE == 0
    requires FlashRange(d, start, |data|, a) && IsReadRequest(disp, start, |data|)
    requires up.toInterface && up.request == REQ_UPLOAD
    ensures Carries(Step(Step(Step(d, prog).0, disp).0, up).1.packets, Words(data), PACKET_SIZE) <==>
            Lands(d.flash.mem, a, Words(data), d.flash.page)
  {
    hide Step, Supplied, Taken, Landed, Offset, Lands, IsReadRequest, IsProgRequest, Flatten;
    TakenAtBoundary(prog, start, data);
    EvenAddress(d.flash64K, start);
    RoundTrip(d, prog, disp, up, start, |data|, a);
    LandsIff(d.flash.mem, d.flash.buf, a, Words(data), d.flash.page);
  }
}
