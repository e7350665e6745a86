/** The self-programmable flash of the USB AVRs, as the boot loaders drive it
    through avr-libc's boot_page_erase, boot_page_fill and boot_page_write.
    A commit can only clear bits, so a page holds what was buffered for it only
    when it was erased first and when the buffer held nothing else. */
module FlashMemory {
  import opened Bytes

  /** a % page, split by page size so that both divisors are literals. */
  function Offset(a: nat, page: nat): (o: nat)
    requires page == 128 || page == 256
    ensures o < page && o <= a
  {
    if page == 128 then a % 128 else a % 256
  }

  predicate Aligned(a: nat, page: nat)
    requires page == 128 || page == 256
  {
    Offset(a, page) == 0
  }

  datatype Flash = Flash(page: nat, mem: seq<Byte>, buf: seq<Byte>) {

    /** The page sizes of the supported parts are 128 and 256 bytes. */
    ghost predicate Valid() {
      && (page == 128 || page == 256)
      && |mem| > 0
      && Aligned(|mem|, page)
      && |buf| == page
    }

    ghost predicate Blank() {
      buf == Blanks(page)
    }

    /** Address lines above the size of the memory are not decoded. */
    function Decode(a: nat): (d: nat)
      requires Valid()
      ensures d < |mem|
    {
      Wrap(a, |mem|)
    }

    /** First address of the page that holds address a. */
    function PageBase(a: nat): nat
      requires Valid()
    {
      var d := Decode(a);
      d - Offset(d, page)
    }

    function Read(a: nat): Byte
      requires Valid()
    {
      mem[Decode(a)]
    }

    function Erase(a: nat): (f: Flash)
      requires Valid()
      ensures f.Valid() && f.page == page && |f.mem| == |mem|
    {
      var b := PageBase(a);
      Flash(page, seq(|mem|, i requires 0 <= i < |mem| => if b <= i < b + page then BLANK else mem[i]), buf)
    }

    /** Buffers a word; bit 0 of the address is not decoded. */
    function Fill(a: nat, w: Word): (f: Flash)
      requires Valid()
      ensures f.Valid() && f.page == page && f.mem == mem
    {
      var o := 2 * (Offset(a, page) / 2);
      Flash(page, mem, buf[o := Low(w)][o + 1 := High(w)])
    }

    /** Clears in the page every bit that is clear in the buffer, then blanks the buffer. */
    function Commit(a: nat): (f: Flash)
      requires Valid()
      ensures f.Valid() && f.page == page && |f.mem| == |mem|
    {
      var b := PageBase(a);
      Flash(page,
            seq(|mem|, i requires 0 <= i < |mem| => if b <= i < b + page then AndByte(mem[i], buf[i - b]) else mem[i]),
            Blanks(page))
    }
  }

  /** Memory `mem` after `data` was programmed at `start`, with the bytes between the
      end of the data and `end` left erased. */
  ghost function Overlay(mem: seq<Byte>, start: nat, data: seq<Byte>, end: nat): (r: seq<Byte>)
    ensures |r| == |mem|
  {
    seq(|mem|, i requires 0 <= i < |mem| =>
      if start <= i < start + |data| then data[i - start]
      else if start + |data| <= i < end then BLANK
      else mem[i])
  }

  /** Two memories agree from address k on. */
  ghost predicate SameFrom(m: seq<Byte>, n: seq<Byte>, k: nat) {
    |m| == |n| && forall i | k <= i < |m| :: m[i] == n[i]
  }

  /** Programming of `data` at `start` is under way: everything below page `p` is
      committed, page `p` is erased, and the rest of the data is in the buffer. */
  ghost predicate InFlight(f: Flash, mem: seq<Byte>, start: nat, data: seq<Byte>, p: nat) {
    && f.Valid()
    && |mem| == |f.mem|
    && Aligned(start, f.page) && Aligned(p, f.page)
    && start <= p <= start + |data| <= p + f.page <= |mem|
    && f.mem == Overlay(mem, start, data[..p - start], p + f.page)
    && f.buf == data[p - start..] + Blanks(p + f.page - start - |data|)
  }

  lemma PageBaseAligned(f: Flash, p: nat)
    requires f.Valid() && Aligned(p, f.page) && p < |f.mem|
    ensures f.PageBase(p) == p
    ensures p + f.page <= |f.mem|
  {
  }

  lemma AlignedSum(a: nat, b: nat, page: nat)
    requires page == 128 || page == 256
    requires Aligned(a, page)
    ensures Offset(a + b, page) == Offset(b, page)
  {
    if page == 128 {
      SumMod128(a, b);
    } else {
      SumMod256(a, b);
    }
  }

  lemma SumMod128(a: nat, b: nat)
    requires a % 128 == 0
    ensures (a + b) % 128 == b % 128
  {
  }

  lemma SumMod256(a: nat, b: nat)
    requires a % 256 == 0
    ensures (a + b) % 256 == b % 256
  {
  }

  /** Inside the page at p, the offset of an address is its distance from p. */
  lemma OffsetInPage(p: nat, o: nat, page: nat)
    requires page == 128 || page == 256
    requires Aligned(p, page) && o < page
    ensures Offset(p + o, page) == o
  {
    AlignedSum(p, o, page);
  }

  lemma PagesApart(a: nat, b: nat, page: nat)
    requires page == 128 || page == 256
    requires Aligned(a, page) && Aligned(b, page) && a < b
    ensures a + page <= b
  {
  }

  lemma NextPage(p: nat, page: nat)
    requires page == 128 || page == 256
    requires Aligned(p, page)
    ensures Aligned(p + page, page)
  {
    AlignedSum(p, page, page);
  }

  lemma AlignedEven(a: nat, page: nat)
    requires page == 128 || page == 256
    requires Aligned(a, page)
    ensures a % 2 == 0
  {
    if page == 128 {
      Double(a, 64 * (a / 128));
    } else {
      Double(a, 128 * (a / 256));
    }
  }

  lemma PageSizes(f: Flash)
    requires f.Valid()
    ensures f.page == 128 || f.page == 256
  {
  }

  lemma ReadInside(f: Flash, a: nat)
    requires f.Valid() && a < |f.mem|
    ensures f.Read(a) == f.mem[a]
  {
    WrapInside(a, |f.mem|);
  }

  lemma SameOffset(a: nat, page: nat)
    requires page == 128 || page == 256
    ensures Offset(a + page, page) == Offset(a, page)
  {
  }

  lemma ZeroAligned(page: nat)
    requires page == 128 || page == 256
    ensures Aligned(0, page)
  {
  }

  lemma EvenPage(f: Flash)
    requires f.Valid()
    ensures f.page % 2 == 0
  {
  }

  lemma Double(a: nat, h: nat)
    requires a == 2 * h
    ensures a % 2 == 0
  {
  }

  /** Erasing the page the data has just reached opens it for filling. */
  lemma OpenPage(f: Flash, mem: seq<Byte>, start: nat, data: seq<Byte>)
    requires f.Valid() && f.Blank() && |mem| == |f.mem|
    requires Aligned(start, f.page) && Aligned(|data|, f.page)
    requires start + |data| < |mem|
    requires f.mem == Overlay(mem, start, data, start + |data|)
    ensures InFlight(f.Erase(start + |data|), mem, start, data, start + |data|)
  {
    hide Offset, Overlay, Flash.Erase, Flash.PageBase;
    var p := start + |data|;
    AlignedSum(start, |data|, f.page);
    PageBaseAligned(f, p);
    assert data[..p - start] == data;
    assert data[p - start..] == [];
    ErasedPage(f, mem, start, data, p);
  }

  lemma ErasedPage(f: Flash, mem: seq<Byte>, start: nat, data: seq<Byte>, p: nat)
    requires f.Valid() && |mem| == |f.mem| && p == start + |data| && f.PageBase(p) == p && p + f.page <= |mem|
    requires f.mem == Overlay(mem, start, data, p)
    ensures f.Erase(p).mem == Overlay(mem, start, data, p + f.page) && f.Erase(p).buf == f.buf
  {
    hide Flash.PageBase, Offset;
  }

  /** A word buffered at the end of the data extends the data. */
  lemma FillNext(f: Flash, mem: seq<Byte>, start: nat, data: seq<Byte>, p: nat, w: Word)
    requires InFlight(f, mem, start, data, p)
    requires |data| % 2 == 0 && start + |data| < p + f.page
    ensures InFlight(f.Fill(start + |data|, w), mem, start, data + [Low(w), High(w)], p)
  {
    hide Offset, Overlay, Low, High;
    var o := start + |data| - p;
    OffsetInPage(p, o, f.page);
    EvenSpan(start, |data|, p, f.page);
    FillBuffer(f.buf, data[p - start..], f.page - o, w);
    var data' := data + [Low(w), High(w)];
    assert data'[..p - start] == data[..p - start];
    assert data'[p - start..] == data[p - start..] + [Low(w), High(w)];
  }

  lemma EvenSpan(start: nat, n: nat, p: nat, page: nat)
    requires page == 128 || page == 256
    requires Aligned(start, page) && Aligned(p, page) && n % 2 == 0
    requires p <= start + n < p + page
    ensures (start + n - p) % 2 == 0
    ensures start + n + 2 <= p + page
  {
    hide Offset, Aligned;
    AlignedEven(start, page);
    AlignedEven(p, page);
    EvenGap(start + n, p + page);
  }

  lemma EvenGap(a: nat, b: nat)
    requires a % 2 == 0 && b % 2 == 0 && a < b
    ensures a + 2 <= b
  {
  }

  lemma FillBuffer(buf: seq<Byte>, staged: seq<Byte>, room: nat, w: Word)
    requires buf == staged + Blanks(room) && room >= 2
    ensures buf[|staged| := Low(w)][|staged| + 1 := High(w)] == staged + [Low(w), High(w)] + Blanks(room - 2)
  {
  }

  /** Committing the open page makes all of the data permanent and blanks the buffer. */
  lemma CommitOpen(f: Flash, mem: seq<Byte>, start: nat, data: seq<Byte>, p: nat)
    requires InFlight(f, mem, start, data, p)
    ensures f.Commit(p).mem == Overlay(mem, start, data, p + f.page)
    ensures f.Commit(p).Blank()
  {
    PageBaseAligned(f, p);
    var r := f.Commit(p).mem;
    forall i | 0 <= i < |mem|
      ensures r[i] == Overlay(mem, start, data, p + f.page)[i]
    {
      if p <= i < p + f.page {
        AndBlank(f.buf[i - p]);
      }
    }
  }

  /** Word by word, page by page: `data` has been written at `start`, each page erased when its first
      word came and committed when its last one did. */
  ghost predicate Writing(f: Flash, mem: seq<Byte>, start: nat, data: seq<Byte>) {
    && f.Valid() && |mem| == |f.mem| && Aligned(start, f.page)
    && start + |data| <= |mem| && |data| % 2 == 0
    && if Aligned(|data|, f.page) then
         f.Blank() && f.mem == Overlay(mem, start, data, start + |data|)
       else
         InFlight(f, mem, start, data, start + |data| - Offset(|data|, f.page))
  }

  /** One word of a page-by-page write: erase at the start of a page, commit at its end. */
  function WriteWord(f: Flash, a: nat, w: Word): (r: Flash)
    requires f.Valid()
    ensures r.Valid() && r.page == f.page && |r.mem| == |f.mem|
  {
    var e := if Aligned(a, f.page) then f.Erase(a) else f;
    var g := e.Fill(a, w);
    if Aligned(a + 2, f.page) && a + 2 >= f.page then g.Commit(a + 2 - f.page) else g
  }

  lemma NothingWritten(f: Flash, start: nat)
    requires f.Valid() && f.Blank() && Aligned(start, f.page) && start <= |f.mem|
    ensures Writing(f, f.mem, start, [])
  {
    assert f.mem == Overlay(f.mem, start, [], start);
  }

  /** Offsets around a word of a page-aligned write. */
  lemma WordOffsets(start: nat, n: nat, page: nat)
    requires page == 128 || page == 256
    requires Aligned(start, page) && n % 2 == 0
    ensures Offset(start + n, page) == Offset(n, page)
    ensures Aligned(start + n - Offset(n, page), page)
    ensures Aligned(n + 2, page) <==> Offset(n, page) + 2 == page
    ensures !Aligned(n + 2, page) ==> Offset(n + 2, page) == Offset(n, page) + 2
    ensures Offset(start + n + 2, page) == Offset(n + 2, page)
  {
    AlignedSum(start, n, page);
    AlignedSum(start, n + 2, page);
    if page == 128 {
      Words128(n);
    } else {
      Words256(n);
    }
    SubtractOffset(start, n, page);
  }

  lemma SubtractOffset(start: nat, n: nat, page: nat)
    requires page == 128 || page == 256
    requires Aligned(start, page)
    ensures Aligned(start + n - Offset(n, page), page)
  {
    if page == 128 {
      Floor128(n);
      SumMod128(start, n - n % 128);
    } else {
      Floor256(n);
      SumMod256(start, n - n % 256);
    }
  }

  lemma Floor128(n: nat)
    ensures (n - n % 128) % 128 == 0
  {
  }

  lemma Floor256(n: nat)
    ensures (n - n % 256) % 256 == 0
  {
  }

  lemma Words128(n: nat)
    requires n % 2 == 0
    ensures (n + 2) % 128 == if n % 128 == 126 then 0 else n % 128 + 2
    ensures n % 128 != 127
  {
  }

  lemma Words256(n: nat)
    requires n % 2 == 0
    ensures (n + 2) % 256 == if n % 256 == 254 then 0 else n % 256 + 2
    ensures n % 256 != 255
  {
  }

  lemma OpenForWord(f: Flash, mem: seq<Byte>, start: nat, data: seq<Byte>)
    requires Writing(f, mem, start, data) && start + |data| < |mem|
    ensures var e := if Aligned(start + |data|, f.page) then f.Erase(start + |data|) else f;
            InFlight(e, mem, start, data, start + |data| - Offset(|data|, f.page))
  {
    hide Flash.Erase, InFlight, Overlay, Offset;
    WordOffsets(start, |data|, f.page);
    if Aligned(|data|, f.page) {
      OpenPage(f, mem, start, data);
    }
  }

  lemma CloseWord(g: Flash, mem: seq<Byte>, start: nat, data: seq<Byte>, p: nat)
    requires InFlight(g, mem, start, data, p) && p < start + |data| && |data| % 2 == 0
    ensures var a := start + |data|;
            Writing(if Aligned(a, g.page) && a >= g.page then g.Commit(a - g.page) else g, mem, start, data)
  {
    hide Flash.Commit, Overlay, Offset;
    CommitOpen(g, mem, start, data, p);
    PageEndsAt(start, |data|, p, g.page);
  }

  /** The page base of the last word written. */
  lemma PageEndsAt(start: nat, n: nat, p: nat, page: nat)
    requires page == 128 || page == 256
    requires Aligned(start, page) && Aligned(p, page) && p < start + n <= p + page
    ensures Aligned(start + n, page) <==> start + n == p + page
    ensures Offset(start + n, page) == Offset(n, page)
    ensures start + n < p + page ==> start + n - Offset(n, page) == p
  {
    AlignedSum(start, n, page);
    if start + n == p + page {
      NextPage(p, page);
    } else {
      OffsetInPage(p, start + n - p, page);
    }
  }

  lemma WritingBasics(f: Flash, mem: seq<Byte>, start: nat, data: seq<Byte>)
    requires Writing(f, mem, start, data)
    ensures f.Valid() && (f.page == 128 || f.page == 256) && |mem| == |f.mem| && |data| % 2 == 0
  {
  }

  /** A word of a page-by-page write extends what has been written. */
  lemma WriteNext(f: Flash, mem: seq<Byte>, start: nat, data: seq<Byte>, w: Word)
    requires f.Valid() && Writing(f, mem, start, data) && start + |data| < |mem|
    ensures Writing(WriteWord(f, start + |data|, w), mem, start, data + [Low(w), High(w)])
  {
    hide Flash.Valid, Flash.Erase, Flash.Fill, Flash.Commit, InFlight, Writing, Offset, Low, High;
    WritingBasics(f, mem, start, data);
    var a, p := start + |data|, start + |data| - Offset(|data|, f.page);
    OpenForWord(f, mem, start, data);
    var e := if Aligned(a, f.page) then f.Erase(a) else f;
    FillNext(e, mem, start, data, p, w);
    CloseWord(e.Fill(a, w), mem, start, data + [Low(w), High(w)], p);
  }

  // Pages filled from any offset.

  /** A page buffered word by word from offset o on, going round at its end; the rest is blank. */
  ghost function Ring(page: nat, o: nat, data: seq<Byte>): (r: seq<Byte>)
    requires |data| <= page
    ensures |r| == page
  {
    RingOver(Blanks(page), o, data)
  }

  /** The same over a buffer that was not blank. */
  ghost function RingOver(buf: seq<Byte>, o: nat, data: seq<Byte>): (r: seq<Byte>)
    requires |data| <= |buf|
    ensures |r| == |buf|
  {
    seq(|buf|, j requires 0 <= j < |buf| =>
      if o <= j < o + |data| then data[j - o]
      else if j < o && o <= j + |buf| < o + |data| then data[j + |buf| - o]
      else buf[j])
  }

  /** The buffer position of the word that follows n bytes filled from address a on. */
  lemma RingPosition(a: nat, n: nat, page: nat)
    requires page == 128 || page == 256
    requires n % 2 == 0 && n < page
    ensures var o := 2 * (Offset(a, page) / 2);
            && o + 2 <= page
            && 2 * (Offset(a + n, page) / 2) == (if o + n < page then o + n else o + n - page)
            && (o + n < page ==> o + n + 2 <= page) && (o + n >= page ==> o + n - page + 2 <= o)
  {
    if page == 128 {
      Position128(a, n);
    } else {
      Position256(a, n);
    }
  }

  lemma Position128(a: nat, n: nat)
    requires n % 2 == 0 && n < 128
    ensures (a + n) % 128 == if a % 128 + n < 128 then a % 128 + n else a % 128 + n - 128
  {
  }

  lemma Position256(a: nat, n: nat)
    requires n % 2 == 0 && n < 256
    ensures (a + n) % 256 == if a % 256 + n < 256 then a % 256 + n else a % 256 + n - 256
  {
  }

  lemma RingExtends(buf: seq<Byte>, o: nat, done: seq<Byte>, lo: Byte, hi: Byte)
    requires o < |buf| && |done| + 2 <= |buf|
    requires o + |done| < |buf| ==> o + |done| + 2 <= |buf|
    ensures var k := if o + |done| < |buf| then o + |done| else o + |done| - |buf|;
            k + 2 <= |buf| && RingOver(buf, o, done)[k := lo][k + 1 := hi] == RingOver(buf, o, done + [lo, hi])
  {
  }

  /** A word filled behind n bytes of a page extends them, round the end of the page if need be. */
  lemma FillRingOver(f: Flash, buf: seq<Byte>, a: nat, done: seq<Byte>, w: Word)
    requires f.Valid() && |buf| == f.page && |done| % 2 == 0 && |done| < f.page
    requires f.buf == RingOver(buf, 2 * (Offset(a, f.page) / 2), done)
    ensures |done| + 2 <= f.page
    ensures f.Fill(a + |done|, w).buf == RingOver(buf, 2 * (Offset(a, f.page) / 2), done + [Low(w), High(w)])
  {
    hide Offset, RingOver, Low, High, Aligned;
    EvenPage(f);
    RingPosition(a, |done|, f.page);
    RingExtends(buf, 2 * (Offset(a, f.page) / 2), done, Low(w), High(w));
  }

  lemma FillRing(f: Flash, a: nat, done: seq<Byte>, w: Word)
    requires f.Valid() && |done| % 2 == 0 && |done| < f.page
    requires f.buf == Ring(f.page, 2 * (Offset(a, f.page) / 2), done)
    ensures |done| + 2 <= f.page
    ensures f.Fill(a + |done|, w).buf == Ring(f.page, 2 * (Offset(a, f.page) / 2), done + [Low(w), High(w)])
  {
    hide Offset, RingOver, Low, High, Aligned, Flash.Fill, Flash.Valid;
    FillRingOver(f, Blanks(f.page), a, done, w);
  }

  lemma EmptyRing(page: nat, o: nat)
    ensures Ring(page, o, []) == Blanks(page)
  {
  }

  lemma NothingOver(buf: seq<Byte>, o: nat)
    ensures RingOver(buf, o, []) == buf
  {
  }

  lemma PageBounds(f: Flash, a: nat)
    requires f.Valid() && a < |f.mem|
    ensures f.PageBase(a) == a - Offset(a, f.page)
    ensures f.PageBase(a) + f.page <= |f.mem|
  {
    WrapInside(a, |f.mem|);
    if f.page == 128 {
      Base128(a, |f.mem|);
    } else {
      Base256(a, |f.mem|);
    }
  }

  lemma Base128(a: nat, n: nat)
    requires a < n && n % 128 == 0
    ensures a - a % 128 + 128 <= n
  {
  }

  lemma Base256(a: nat, n: nat)
    requires a < n && n % 256 == 0
    ensures a - a % 256 + 256 <= n
  {
  }

  /** Erasing an address blanks its page. */
  lemma EraseSplices(f: Flash, a: nat)
    requires f.Valid()
    ensures f.PageBase(a) + f.page <= |f.mem|
    ensures f.Erase(a).mem == Splice(f.mem, f.PageBase(a), Blanks(f.page)) && f.Erase(a).buf == f.buf
  {
    hide Offset, Flash.Decode;
    PageBounds(f, f.Decode(a));
    PageBaseDecoded(f, a);
  }

  lemma PageBaseDecoded(f: Flash, a: nat)
    requires f.Valid()
    ensures f.PageBase(f.Decode(a)) == f.PageBase(a)
  {
    hide Offset;
    WrapInside(f.Decode(a), |f.mem|);
  }

  lemma SamePageBase(f: Flash, g: Flash, a: nat)
    requires f.Valid() && g.Valid() && f.page == g.page && |f.mem| == |g.mem|
    ensures f.PageBase(a) == g.PageBase(a)
  {
    hide Offset;
  }

  /** Committing an erased page stores the buffer in it and blanks the buffer. */
  lemma CommitSplices(f: Flash, mem: seq<Byte>, a: nat)
    requires f.Valid() && |f.mem| == |mem| && f.PageBase(a) + f.page <= |f.mem|
    requires f.mem == Splice(mem, f.PageBase(a), Blanks(f.page))
    ensures f.Commit(a).mem == Splice(mem, f.PageBase(a), f.buf) && f.Commit(a).Blank()
  {
    hide Offset, Flash.PageBase;
    var b := f.PageBase(a);
    var r := f.Commit(a).mem;
    forall i | 0 <= i < |mem|
      ensures r[i] == Splice(mem, b, f.buf)[i]
    {
      if b <= i < b + f.page {
        AndBlank(f.buf[i - b]);
      }
    }
  }

  /** The memory after a page was programmed without being erased: a bit stays set if it was set before and in the
      page written. */
  ghost function Burned(mem: seq<Byte>, base: nat, ring: seq<Byte>): (r: seq<Byte>)
    requires base + |ring| <= |mem|
    ensures |r| == |mem|
  {
    seq(|mem|, i requires 0 <= i < |mem| =>
      if base <= i < base + |ring| then AndByte(mem[i], ring[i - base]) else mem[i])
  }

  /** A commit programs the buffer into its page, erased or not. */
  lemma CommitBurns(f: Flash, a: nat)
    requires f.Valid() && f.PageBase(a) + f.page <= |f.mem|
    ensures f.Commit(a).mem == Burned(f.mem, f.PageBase(a), f.buf) && f.Commit(a).Blank()
  {
    hide Offset, Flash.PageBase, AndByte;
  }

  lemma BurnErased(mem: seq<Byte>, base: nat, ring: seq<Byte>)
    requires base + |ring| <= |mem|
    ensures Burned(Splice(mem, base, Blanks(|ring|)), base, ring) == Splice(mem, base, ring)
  {
    var r := Burned(Splice(mem, base, Blanks(|ring|)), base, ring);
    forall i | 0 <= i < |mem|
      ensures r[i] == Splice(mem, base, ring)[i]
    {
      if base <= i < base + |ring| {
        AndBlank(ring[i - base]);
      }
    }
  }
}
