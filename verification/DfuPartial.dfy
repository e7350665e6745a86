/** What the programming loop of the DFU boot loader leaves in memory when its packets end before its range does, and
    when the application section is blank after it. */
module DfuPartial {
  import opened Bytes
  import opened FlashMemory
  import opened Endpoints
  import opened DfuModel
  import L = DfuDownload

  /** The part of n bytes that fills whole pages. */
  ghost function Whole(n: nat, page: nat): (q: nat)
    requires page == 128 || page == 256
    ensures q <= n < q + page
  {
    n - Offset(n, page)
  }

  lemma WholeSmall(n: nat, page: nat)
    requires page == 128 || page == 256
    requires n < page
    ensures Whole(n, page) == 0
  {
  }

  lemma WholeNext(n: nat, page: nat)
    requires page == 128 || page == 256
    requires n >= page
    ensures Whole(n, page) == Whole(n - page, page) + page
  {
    hide Offset;
    SameOffset(n - page, page);
  }

  /** Aligned places a whole number of pages on. */
  lemma WholeAligned(base: nat, n: nat, page: nat, size: nat)
    requires page == 128 || page == 256
    requires Aligned(base, page) && Aligned(size, page) && base + n < size
    ensures Aligned(base + Whole(n, page), page) && base + Whole(n, page) + page <= size
  {
    if page == 128 {
      Whole128(base, n);
    } else {
      Whole256(base, n);
    }
    hide Offset;
    PagesApart(base + Whole(n, page), size, page);
  }

  lemma Whole128(base: nat, n: nat)
    requires base % 128 == 0
    ensures (base + (n - n % 128)) % 128 == 0
  {
  }

  lemma Whole256(base: nat, n: nat)
    requires base % 256 == 0
    ensures (base + (n - n % 256)) % 256 == 0
  {
  }

  /** The memory after a loop that got `data` and then ran out of packets, with its first page erased: the layout of
      the pages it has finished, and one more page erased. */
  ghost function CutFrom(mem: seq<Byte>, base: nat, o: nat, data: seq<Byte>, page: nat): (r: seq<Byte>)
    requires page == 128 || page == 256
    requires Aligned(base, page) && Aligned(|mem|, page) && base + |data| < |mem|
    ensures |r| == |mem|
  {
    WholeAligned(base, |data|, page, |mem|);
    var q := Whole(|data|, page);
    Splice(L.LayFrom(mem, base, o, data[..q], page), base + q, Blanks(page))
  }

  /** The same for a loop that finds `mem` and `buf` and has not erased its first page: before the first page is
      finished it has changed nothing. */
  ghost function CutOnto(mem: seq<Byte>, buf: seq<Byte>, base: nat, o: nat, data: seq<Byte>, page: nat): (r: seq<Byte>)
    requires page == 128 || page == 256
    requires Aligned(base, page) && Aligned(|mem|, page) && base + |data| < |mem| && |buf| == page
    ensures |r| == |mem|
  {
    WholeAligned(base, |data|, page, |mem|);
    var q := Whole(|data|, page);
    if q == 0 then mem else Splice(L.LayOnto(mem, buf, base, o, data[..q], page), base + q, Blanks(page))
  }

  lemma CutNone(mem: seq<Byte>, buf: seq<Byte>, base: nat, o: nat, data: seq<Byte>, page: nat)
    requires page == 128 || page == 256
    requires Aligned(base, page) && Aligned(|mem|, page) && base + |data| < |mem| && |buf| == page && |data| < page
    ensures CutOnto(mem, buf, base, o, data, page) == mem
  {
    hide Offset, L.LayOnto, Splice;
    WholeSmall(|data|, page);
  }

  /** Splicing blanks twice, and the empty layout. */
  lemma BlankTwice(mem: seq<Byte>, base: nat, o: nat, page: nat)
    requires page == 128 || page == 256
    requires Aligned(base, page) && Aligned(|mem|, page) && base + page <= |mem|
    ensures var m := Splice(mem, base, Blanks(page));
            Splice(m, base, Blanks(page)) == m && L.LayFrom(mem, base, o, [], page) == m
  {
    hide Offset, L.LayFrom;
    L.LayLast(mem, base, o, [], page);
    EmptyRing(page, o);
  }

  /** Over an erased page the buffer never shows: a page that is programmed has been filled all round. */
  lemma CutErased(mem: seq<Byte>, buf: seq<Byte>, base: nat, o: nat, data: seq<Byte>, page: nat)
    requires page == 128 || page == 256
    requires Aligned(base, page) && Aligned(|mem|, page) && base + |data| < |mem| && |buf| == page && o < page
    ensures base + page <= |mem|
    ensures CutOnto(Splice(mem, base, Blanks(page)), buf, base, o, data, page) == CutFrom(mem, base, o, data, page)
  {
    hide Offset, L.LayFrom, L.LayOnto, Splice, Blanks, Whole;
    WholeAligned(base, |data|, page, |mem|);
    PagesApart(base, |mem|, page);
    var q := Whole(|data|, page);
    if q == 0 {
      assert data[..q] == [];
      BlankTwice(mem, base, o, page);
    } else {
      WholePage(|data|, page);
      L.OverBuffer(mem, buf, base, o, data[..q], page);
    }
  }

  lemma WholePage(n: nat, page: nat)
    requires page == 128 || page == 256
    requires Whole(n, page) > 0
    ensures Whole(n, page) >= page
  {
    hide Offset, Whole;
    if n < page {
      WholeSmall(n, page);
    } else {
      WholeNext(n, page);
    }
  }

  /** A finished page, and the rest. */
  lemma CutNext(mem: seq<Byte>, buf: seq<Byte>, base: nat, o: nat, data: seq<Byte>, page: nat)
    requires page == 128 || page == 256
    requires Aligned(base, page) && Aligned(|mem|, page) && base + |data| < |mem| && |buf| == page && |data| >= page
    ensures base + page <= |mem| && Aligned(base + page, page)
    ensures CutOnto(mem, buf, base, o, data, page) ==
            CutFrom(Burned(mem, base, RingOver(buf, o, data[..page])), base + page, o, data[page..], page)
  {
    hide Offset, L.LayFrom, L.LayOnto, Splice, Blanks, Whole, Burned, RingOver;
    WholeAligned(base, |data|, page, |mem|);
    NextPage(base, page);
    PagesApart(base, |mem|, page);
    WholeNext(|data|, page);
    var q := Whole(|data|, page);
    WholeAligned(base + page, |data| - page, page, |mem|);
    assert data[..q][..page] == data[..page] && data[..q][page..] == data[page..][..q - page];
    var m := Burned(mem, base, RingOver(buf, o, data[..page]));
    if q == page {
      assert data[..q] == data[..page] && data[page..][..q - page] == [];
      L.OntoLast(mem, buf, base, o, data[..page], page);
      BlankTwice(m, base + page, o, page);
    } else {
      L.OntoNext(mem, buf, base, o, data[..q], page);
    }
  }

  /** At a page turn the loop begins anew with the next page erased and a blank buffer. */
  lemma CutTurn(mem: seq<Byte>, buf: seq<Byte>, base: nat, o: nat, first: seq<Byte>, rest: seq<Byte>, page: nat)
    requires page == 128 || page == 256
    requires Aligned(base, page) && Aligned(|mem|, page) && |buf| == |first| == page && o < page
    requires base + |first| + |rest| < |mem|
    ensures Aligned(base + page, page) && base + page + page <= |mem|
    ensures var m := Burned(mem, base, RingOver(buf, o, first));
            CutOnto(mem, buf, base, o, first + rest, page) ==
            CutOnto(Splice(m, base + page, Blanks(page)), Blanks(page), base + page, o, rest, page)
  {
    hide Offset, RingOver, CutFrom, CutOnto, Splice, Blanks, Burned;
    assert (first + rest)[..page] == first && (first + rest)[page..] == rest;
    CutNext(mem, buf, base, o, first + rest, page);
    CutErased(Burned(mem, base, RingOver(buf, o, first)), Blanks(page), base + page, o, rest, page);
  }

  /** The loop that runs out of packets: exactly the pages it has finished are programmed. */
  lemma {:induction false} WriteWordsCut(
    f: Flash, buf: seq<Byte>, out: OutPipe, p: nat, done: seq<Byte>, filled: nat, remaining: nat)
    requires f.Valid() && (f.page == 128 || f.page == 256)
    requires L.Filling(f, buf, p, done) && |done| == 2 * filled
    requires |out.Readable()| < 2 * remaining && p + |done| + 2 * remaining <= |f.mem|
    ensures var b, t := p - Offset(p, f.page), done + out.Readable();
            && Aligned(b, f.page) && Aligned(|f.mem|, f.page) && b + |t| < |f.mem|
            && WriteWords(f, out, p + |done|, p, filled, remaining).flash.mem ==
               CutOnto(f.mem, buf, b, L.WordOffset(p, f.page), t, f.page)
    decreases remaining
  {
    hide Offset, L.WordOffset, RingOver, Splice, Burned, Flash.Fill, Flash.Commit, Flash.Erase, Flash.Valid,
      CutOnto, CutFrom, Low, High, MakeWord, Aligned, Blanks, OutPipe.Readable, OutPipe.Ready, OutPipe.DropWord,
      OutPipe.PeekWord, OutPipe.Dry, WriteWords;
    L.BaseFits(f, p, |done| + 2 * remaining);
    var b, o, t := p - Offset(p, f.page), L.WordOffset(p, f.page), out.Readable();
    if out.Dry() {
      NothingReadable(out);
      assert done + t == done;
      LoopDry(f, out, p + |done|, p, filled, remaining);
      CutNone(f.mem, buf, b, o, done, f.page);
    } else {
      ReadPadded(out);
      LoopStep(f, out, p + |done|, p, filled, remaining);
      var w, next := out.Ready().PeekWord(), out.Ready().DropWord();
      WordBytes(t[0], t[1]);
      L.FillStep(f, buf, p, done, w);
      var g := f.Fill(p + |done|, w);
      var done' := done + [t[0], t[1]];
      assert done + t == done' + t[2..];
      if |done'| == f.page {
        L.CommitFilled(g, p);
        var h := g.Commit(p);
        L.NextFilling(h, p + f.page);
        SameOffset(p, f.page);
        L.SameWordOffset(p, f.page);
        WriteWordsCut(h.Erase(p + f.page), Blanks(f.page), next, p + f.page, [], 0, remaining - 1);
        assert [] + t[2..] == t[2..];
        CutTurn(f.mem, buf, b, o, done', t[2..], f.page);
      } else {
        WriteWordsCut(g, buf, next, p, done', filled + 1, remaining - 1);
      }
    }
  }

  lemma LoopDry(f: Flash, out: OutPipe, a: nat, p: nat, filled: nat, remaining: nat)
    requires f.Valid() && out.Dry()
    ensures WriteWords(f, out, a, p, filled, remaining) == Download(f, out, remaining == 0)
  {
    hide Flash.Valid, Flash.Fill, Flash.Erase, Flash.Commit, OutPipe.Dry;
  }

  lemma LoopStep(f: Flash, out: OutPipe, a: nat, p: nat, filled: nat, remaining: nat)
    requires f.Valid() && !out.Dry() && remaining >= 2
    ensures var g, next := f.Fill(a, out.Ready().PeekWord()), out.Ready().DropWord();
            WriteWords(f, out, a, p, filled, remaining) ==
            if filled + 1 == f.page / 2 then WriteWords(g.Commit(p).Erase(a + 2), next, a + 2, a + 2, 0, remaining - 1)
            else WriteWords(g, next, a + 2, p, filled + 1, remaining - 1)
  {
    hide Flash.Valid, Flash.Fill, Flash.Erase, Flash.Commit, OutPipe.Dry, OutPipe.Ready, OutPipe.PeekWord,
      OutPipe.DropWord;
  }

  // Requests.

  /** The data stage of any device that is about to program flash, for a range inside memory. */
  lemma StageMemory(e: Dfu, out: OutPipe, a: nat)
    requires e.Valid() && e.state == DFU_DNLOAD_IDLE && e.sent.dataSize != 0 && e.sent.data[0] == 0x00
    requires a == e.FlashAddress() && a < |e.flash.mem| && a + 2 * (e.ByteCount() / 2) <= |e.flash.mem|
    ensures StageLays(e, DataStage(e, out).flash.mem, a,
                      Discard(Discard(out, FILLER_SIZE), e.startAddr % PACKET_SIZE).Readable())
  {
    hide WriteWords, Discard, Flash.Valid, Dfu.ByteCount, L.LayOnto, CutOnto, Offset, L.WordOffset, Aligned,
      OutPipe.Readable, L.Filling, Blanks;
    var o, n := Discard(Discard(out, FILLER_SIZE), e.startAddr % PACKET_SIZE), e.ByteCount() / 2;
    PageSizes(e.flash);
    BufferSize(e.flash);
    L.BaseFits(e.flash, a, 2 * n);
    if 2 * n <= |o.Readable()| {
      L.WriteOnto(e.flash, o, a, n);
    } else {
      L.StartFilling(e.flash, a);
      WriteWordsCut(e.flash, e.flash.buf, o, a, [], 0, n);
      assert [] + o.Readable() == o.Readable();
    }
  }

  /** The memory after the loop, given the words it can read: all its range, or the pages it could finish. */
  ghost predicate StageLays(e: Dfu, mem: seq<Byte>, a: nat, t: seq<Byte>)
    requires e.Valid() && a < |e.flash.mem| && a + 2 * (e.ByteCount() / 2) <= |e.flash.mem|
  {
    var n, b := 2 * (e.ByteCount() / 2), a - Offset(a, e.flash.page);
    PageSizes(e.flash);
    BufferSize(e.flash);
    L.BaseFits(e.flash, a, n);
    mem ==
    if n <= |t| then L.LayOnto(e.flash.mem, e.flash.buf, b, L.WordOffset(a, e.flash.page), t[..n], e.flash.page)
    else CutOnto(e.flash.mem, e.flash.buf, b, L.WordOffset(a, e.flash.page), t, e.flash.page)
  }

  lemma BufferSize(f: Flash)
    requires f.Valid()
    ensures |f.buf| == f.page
  {
  }

  /** A download with any packets that hold fewer words than its range, from any address and whatever waits in the
      page buffer: the pages it has finished are laid out, the next one is erased, and nothing else has changed. */
  lemma DownloadCutShort(d: Dfu, r: Request, start: Word, n: nat, a: nat)
    requires L.Open(d) && L.IsProgCommand(r, start, n) && |L.Stock(r, start)| < 2 * (n / 2)
    requires L.FlashRange(d, start, n, a)
    ensures CutLaid(d, Step(d, r).0, a, L.Stock(r, start))
    ensures Step(d, r).0.state == DFU_DNLOAD_IDLE
  {
    hide Flash.Erase, L.LayOnto, Offset, L.WordOffset, L.RangeCommand, LoadCommand, AfterCommand,
      Discard, WriteWords, ProcessCommand, Dfu.ByteCount, Aligned, OutPipe.Readable, Blanks, CutOnto, CutFrom, Splice,
      L.Filling;
    var d1 := d.(sent := d.sent.(dataSize := r.length));
    L.ProgCommand(d1, r, start, n);
    var f, out := d.flash.Erase(a), L.Payload(r, start);
    EraseSplices(d.flash, a);
    PageBounds(d.flash, a);
    PageSizes(d.flash);
    BufferSize(d.flash);
    L.StartFilling(f, a);
    WriteWordsCut(f, f.buf, out, a, [], 0, n / 2);
    assert [] + out.Readable() == out.Readable();
    L.BaseFits(d.flash, a, n);
    CutErased(d.flash.mem, d.flash.buf, a - Offset(a, d.flash.page), L.WordOffset(a, d.flash.page), out.Readable(),
              d.flash.page);
    LoopEnds(f, out, a, a, 0, n / 2);
  }

  /** A download of the words t to address a that was cut short has turned d into e. */
  ghost predicate CutLaid(d: Dfu, e: Dfu, a: nat, t: seq<Byte>)
    requires d.Valid() && a + |t| < |d.flash.mem|
  {
    L.BaseFits(d.flash, a, |t|);
    && L.Open(e) && e.flash64K == d.flash64K && e.eeprom == d.eeprom && e.flash.page == d.flash.page
    && e.flash.mem == CutFrom(d.flash.mem, a - Offset(a, d.flash.page), L.WordOffset(a, d.flash.page), t, d.flash.page)
  }

  /** A loop with too few words to read does not end its download. */
  lemma {:induction false} LoopEnds(f: Flash, out: OutPipe, a: nat, p: nat, filled: nat, remaining: nat)
    requires f.Valid() && |out.Readable()| < 2 * remaining
    ensures var w := WriteWords(f, out, a, p, filled, remaining); !w.attached && w.flash.page == f.page
    decreases remaining
  {
    hide Flash.Valid, Flash.Fill, Flash.Erase, Flash.Commit, OutPipe.Dry, OutPipe.Ready, OutPipe.PeekWord,
      OutPipe.DropWord, OutPipe.Readable, MakeWord;
    if !out.Dry() {
      ReadPadded(out);
      var g, next := f.Fill(a, out.Ready().PeekWord()), out.Ready().DropWord();
      if filled + 1 == f.page / 2 {
        LoopEnds(g.Commit(p).Erase(a + 2), next, a + 2, a + 2, 0, remaining - 1);
      } else {
        LoopEnds(g, next, a + 2, p, filled + 1, remaining - 1);
      }
    }
  }

  // When the application section is blank.

  ghost predicate BlankIn(m: seq<Byte>, j: nat, k: nat) {
    k <= |m| && forall i | j <= i < k :: m[i] == BLANK
  }

  /** Only bytes below k differ, so the part below it is blank if and only if it has been blanked. */
  lemma BlankedIff(m: seq<Byte>, mem: seq<Byte>, k: nat)
    requires SameFrom(m, mem, k) && k <= |m|
    ensures m == Splice(mem, 0, Blanks(k)) <==> BlankIn(m, 0, k)
  {
    var s := Splice(mem, 0, Blanks(k));
    if BlankIn(m, 0, k) {
      assert forall i | 0 <= i < |m| :: m[i] == s[i];
    }
    assert BlankIn(s, 0, k);
  }

  lemma BlankRing(page: nat, o: nat, data: seq<Byte>)
    requires o < page && |data| <= page
    ensures Ring(page, o, data) == Blanks(page) <==> data == Blanks(|data|)
  {
    var r := Ring(page, o, data);
    if r == Blanks(page) {
      forall i | 0 <= i < |data|
        ensures data[i] == BLANK
      {
        assert r[if o + i < page then o + i else o + i - page] == data[i];
      }
    }
  }

  lemma BlankSplice(m: seq<Byte>, base: nat, ring: seq<Byte>, k: nat)
    requires base + |ring| <= k <= |m| && BlankIn(m, base + |ring|, k)
    ensures var s := Splice(m, base, ring);
            && SameFrom(s, m, k) && BlankIn(s, base + |ring|, k)
            && (BlankIn(s, 0, k) <==> BlankIn(m, 0, base) && ring == Blanks(|ring|))
            && (BlankIn(s, 0, base + |ring|) <==> BlankIn(s, 0, k))
  {
    var s := Splice(m, base, ring);
    assert forall i | 0 <= i < base :: s[i] == m[i];
    assert forall i | 0 <= i < |ring| :: s[base + i] == ring[i];
    assert forall i | base + |ring| <= i < |m| :: s[i] == m[i];
    if BlankIn(s, 0, k) {
      assert forall i | 0 <= i < |ring| :: ring[i] == s[base + i];
    }
    assert ring == Blanks(|ring|) <==> forall i | 0 <= i < |ring| :: ring[i] == BLANK;
  }

  lemma BothBlank(x: Byte, y: Byte)
    ensures AndByte(x, y) == BLANK <==> x == BLANK && y == BLANK
  {
    AndAtMost(x, y);
    if x == BLANK {
      AndBlank(y);
    }
  }

  lemma BlankBurn(m: seq<Byte>, base: nat, ring: seq<Byte>, k: nat)
    requires base + |ring| <= k <= |m| && BlankIn(m, base + |ring|, k)
    ensures var s := Burned(m, base, ring);
            && SameFrom(s, m, k) && BlankIn(s, base + |ring|, k)
            && (BlankIn(s, 0, k) <==> BlankIn(m, 0, k) && ring == Blanks(|ring|))
            && (BlankIn(s, 0, base + |ring|) <==> BlankIn(s, 0, k))
  {
    hide AndByte;
    var s := Burned(m, base, ring);
    forall i | 0 <= i < |ring|
      ensures s[base + i] == BLANK <==> m[base + i] == BLANK && ring[i] == BLANK
    {
      BothBlank(m[base + i], ring[i]);
    }
    if BlankIn(s, 0, k) {
      forall i | 0 <= i < |ring|
        ensures ring[i] == BLANK && m[base + i] == BLANK
      {
        assert s[base + i] == BLANK;
      }
    }
    assert ring == Blanks(|ring|) <==> forall i | 0 <= i < |ring| :: ring[i] == BLANK;
    BurnParts(m, base, ring, k);
  }

  lemma BurnParts(m: seq<Byte>, base: nat, ring: seq<Byte>, k: nat)
    requires base + |ring| <= k <= |m|
    ensures var s := Burned(m, base, ring);
            && (forall i | 0 <= i < base :: s[i] == m[i])
            && (forall i | base + |ring| <= i < |m| :: s[i] == m[i])
  {
    hide AndByte;
  }

  /** Pages laid out in a blank part of the application section leave it blank if and only if the data is blank. */
  lemma {:induction false} BlankLayFrom(m: seq<Byte>, base: nat, o: nat, data: seq<Byte>, page: nat, k: nat)
    requires page == 128 || page == 256
    requires Aligned(base, page) && Aligned(|m|, page) && Aligned(k, page) && o < page
    requires base < k <= |m| && base + |data| <= k && BlankIn(m, base, k)
    ensures var s := L.LayFrom(m, base, o, data, page);
            && SameFrom(s, m, k)
            && (BlankIn(s, 0, k) <==> BlankIn(m, 0, base) && data == Blanks(|data|))
            && (Whole(|data|, page) == |data| ==> BlankIn(s, base + |data|, k))
    decreases |data|
  {
    hide Offset, L.LayFrom, Splice, Ring, Blanks, Whole, BlankIn, SameFrom;
    PagesApart(base, k, page);
    BlankWithin(m, base, base + page, k);
    if |data| <= page {
      L.LayLast(m, base, o, data, page);
      BlankSplice(m, base, Ring(page, o, data), k);
      BlankRing(page, o, data);
      BlankLast(m, base, o, data, page, k);
    } else {
      var ring := Ring(page, o, data[..page]);
      var m' := Splice(m, base, ring);
      L.LayNext(m, base, o, data, page);
      BlankSplice(m, base, ring, k);
      BlankRing(page, o, data[..page]);
      WholeNext(|data|, page);
      PagesApart(base, k, page);
      BlankLayFrom(m', base + page, o, data[page..], page, k);
      SameChain(L.LayFrom(m, base, o, data, page), m', m, k);
      BlanksSplit(data, page);
    }
  }

  lemma BlankLast(m: seq<Byte>, base: nat, o: nat, data: seq<Byte>, page: nat, k: nat)
    requires page == 128 || page == 256
    requires |data| <= page && base + page <= k <= |m| && o < page && BlankIn(m, base + page, k)
    ensures Whole(|data|, page) == |data| ==> BlankIn(Splice(m, base, Ring(page, o, data)), base + |data|, k)
  {
    hide Offset, Splice, Ring, Whole, BlankIn;
    BlankSplice(m, base, Ring(page, o, data), k);
    if |data| < page {
      WholeSmall(|data|, page);
      if data == [] {
        EmptyRing(page, o);
        BlankPage(m, base, page, k);
      }
    }
  }

  lemma BlankPage(m: seq<Byte>, base: nat, page: nat, k: nat)
    requires base + page <= k <= |m| && BlankIn(m, base + page, k)
    ensures BlankIn(Splice(m, base, Blanks(page)), base, k)
  {
  }

  lemma BlankWithin(m: seq<Byte>, i: nat, j: nat, k: nat)
    requires BlankIn(m, i, k) && i <= j
    ensures BlankIn(m, j, k)
  {
  }

  lemma BlankJoin(m: seq<Byte>, j: nat, k: nat)
    requires j <= k <= |m| && BlankIn(m, j, k)
    ensures BlankIn(m, 0, k) <==> BlankIn(m, 0, j)
  {
  }

  lemma SameChain(x: seq<Byte>, y: seq<Byte>, z: seq<Byte>, k: nat)
    requires SameFrom(x, y, k) && SameFrom(y, z, k)
    ensures SameFrom(x, z, k)
  {
  }

  lemma BlanksSplit(data: seq<Byte>, n: nat)
    requires n <= |data|
    ensures data == Blanks(|data|) <==> data[..n] == Blanks(n) && data[n..] == Blanks(|data| - n)
  {
    if data[..n] == Blanks(n) && data[n..] == Blanks(|data| - n) {
      assert data == data[..n] + data[n..];
    }
  }

  /** The same for a loop that finds a blank buffer and does not erase its first page: what that page holds stays. */
  lemma BlankLayOnto(m: seq<Byte>, base: nat, o: nat, data: seq<Byte>, page: nat, k: nat)
    requires page == 128 || page == 256
    requires Aligned(base, page) && Aligned(|m|, page) && Aligned(k, page) && o < page
    requires base < k <= |m| && base + |data| <= k && BlankIn(m, base + page, k)
    ensures var s := L.LayOnto(m, Blanks(page), base, o, data, page);
            && SameFrom(s, m, k)
            && (BlankIn(s, 0, k) <==> BlankIn(m, 0, k) && data == Blanks(|data|))
            && (data != [] && Whole(|data|, page) == |data| ==> BlankIn(s, base + |data|, k))
  {
    hide Offset, L.LayFrom, L.LayOnto, RingOver, Burned, Blanks, Whole, BlankIn, SameFrom;
    PagesApart(base, k, page);
    if data == [] {
      L.OntoNone(m, Blanks(page), base, o, page);
      SameAll(m, k);
      EmptyBlanks();
    } else {
      var first := if |data| <= page then data else data[..page];
      var m' := Burned(m, base, Ring(page, o, first));
      BlankBurn(m, base, Ring(page, o, first), k);
      BlankRing(page, o, first);
      if |data| <= page {
        L.OntoLast(m, Blanks(page), base, o, data, page);
        if |data| < page {
          WholeSmall(|data|, page);
        }
      } else {
        L.OntoNext(m, Blanks(page), base, o, data, page);
        WholeNext(|data|, page);
        BlankLayFrom(m', base + page, o, data[page..], page, k);
        SameChain(L.LayOnto(m, Blanks(page), base, o, data, page), m', m, k);
        BlanksSplit(data, page);
      }
    }
  }

  lemma SameAll(m: seq<Byte>, k: nat)
    ensures SameFrom(m, m, k)
  {
  }

  lemma EmptyBlanks()
    ensures Blanks(0) == []
  {
  }

  /** And if the loop runs out of packets: the words of the pages it has finished count. */
  lemma BlankCutOnto(m: seq<Byte>, base: nat, o: nat, data: seq<Byte>, page: nat, k: nat)
    requires page == 128 || page == 256
    requires Aligned(base, page) && Aligned(|m|, page) && Aligned(k, page) && o < page
    requires k <= |m| && base + |data| < k && BlankIn(m, base + page, k)
    ensures var s, q := CutOnto(m, Blanks(page), base, o, data, page), Whole(|data|, page);
            && SameFrom(s, m, k)
            && (BlankIn(s, 0, k) <==> BlankIn(m, 0, k) && data[..q] == Blanks(q))
  {
    hide Offset, L.LayOnto, Blanks, Whole, BlankIn, SameFrom, Splice;
    var q := Whole(|data|, page);
    WholeAligned(base, |data|, page, k);
    WholeAligned(base, |data|, page, |m|);
    if q == 0 {
      SameAll(m, k);
      EmptyBlanks();
    } else {
      var s := L.LayOnto(m, Blanks(page), base, o, data[..q], page);
      WholeWhole(|data|, page);
      BlankLayOnto(m, base, o, data[..q], page, k);
      BlankWithin(s, base + q, base + q + page, k);
      BlankSplice(s, base + q, Blanks(page), k);
      BlankJoin(s, base + q, k);
      SameChain(CutOnto(m, Blanks(page), base, o, data, page), s, m, k);
    }
  }

  lemma WholeWhole(n: nat, page: nat)
    requires page == 128 || page == 256
    ensures Whole(Whole(n, page), page) == Whole(n, page)
  {
    if page == 128 {
      Whole128(0, n);
    } else {
      Whole256(0, n);
    }
  }
}
