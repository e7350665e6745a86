/** Flash downloads of the DFU boot loader from inside a packet. As for EEPROM, fetching the first data packet
    counts as one alignment byte, so the words start one byte early. From an even address they are then out of step
    with the packet, and its last byte is paired with a zero read from the empty bank. From an odd address they are
    in step, and go to the even address before it. */
module DfuUnaligned {
  import opened Bytes
  import opened FlashMemory
  import opened Endpoints
  import opened DfuModel
  import L = DfuDownload
  import E = DfuEeprom

  /** All bytes sent behind the packet of the command. */
  ghost function Sent(r: Request): seq<Byte>
    requires r.packets != []
  {
    Flatten(r.packets[1..])
  }

  /** A PROG_START request from inside a packet: the command and 26 filler bytes in one packet, then packets of any
      size, the first of which holds all alignment bytes. */
  ghost predicate StartsInside(r: Request, start: Word, n: nat) {
    && start % PACKET_SIZE > 0 && L.IsProgCommand(r, start, n)
    && |r.packets[0]| == PACKET_SIZE && |r.packets| > 1 && start % PACKET_SIZE <= |r.packets[1]|
  }

  /** The request as a host sends it: whole-word packets that begin with as many alignment bytes as the start address
      lies behind a packet boundary, and the data. */
  ghost predicate IsInside(r: Request, start: Word, data: seq<Byte>) {
    var k := start % PACKET_SIZE;
    && StartsInside(r, start, |data|)
    && OutPipe([], r.packets[1..]).WholeWords()
    && k + |data| <= |Sent(r)| && Sent(r)[k..k + |data|] == data
  }

  lemma InsidePayload(r: Request, start: Word, n: nat)
    requires StartsInside(r, start, n)
    ensures L.Payload(r, start) == OutPipe(r.packets[1][start % PACKET_SIZE - 1..], r.packets[2..])
  {
    hide L.RangeCommand, Discard, Flatten, OutPipe.WholeWords;
    var tail, k := r.packets[1..], start % PACKET_SIZE;
    L.DiscardInPacket(r.packets[0][6..], tail);
    E.DiscardWithin(tail[0], tail[1..], k - 1);
    DiscardFetches(tail, k);
    assert tail[1..] == r.packets[2..];
  }

  lemma DiscardFetches(packets: seq<seq<Byte>>, k: nat)
    requires packets != [] && k > 0
    ensures Discard(OutPipe([], packets), k) == Discard(OutPipe(packets[0], packets[1..]), k - 1)
  {
  }

  /** The words of all packets from the last alignment byte on, each packet padded by itself. */
  ghost function WordsSent(r: Request, k: nat): seq<Byte>
    requires |r.packets| > 1 && 0 < k <= |r.packets[1]|
  {
    Padded(r.packets[1][k - 1..]) + Flatten(PaddedAll(r.packets[2..]))
  }

  lemma WordsReadable(r: Request, start: Word, n: nat)
    requires StartsInside(r, start, n)
    ensures L.Stock(r, start) == WordsSent(r, start % PACKET_SIZE)
  {
    hide L.IsProgCommand, Padded, PaddedAll, L.Payload, Flatten;
    InsidePayload(r, start, n);
  }

  /** From inside a packet, with packets of any size and whatever waits in the page buffer: the data arrives if and
      only if it is what these words leave in the range. */
  lemma InsideArrivesIff(d: Dfu, r: Request, start: Word, data: seq<Byte>, a: nat)
    requires L.Open(d) && StartsInside(r, start, |data|) && L.FlashRange(d, start, |data|, a)
    requires |Words(data)| <= |WordsSent(r, start % PACKET_SIZE)|
    ensures |d.flash.buf| == d.flash.page
    ensures var words := WordsSent(r, start % PACKET_SIZE)[..|Words(data)|];
            L.Holds(Step(d, r).0.flash.mem, a, Words(data)) <==>
            L.Landed(d.flash.mem, d.flash.buf, a, words, d.flash.page) == Words(data)
  {
    hide Step, L.IsProgCommand, L.Stock, L.Landed, Offset, WordsSent;
    WordsReadable(r, start, |data|);
    L.DownloadLands(d, r, start, |data|, a);
  }

  /** The words that can be read, in terms of the first data packet and the others. */
  lemma InsideStock(r: Request, start: Word, data: seq<Byte>)
    requires IsInside(r, start, data)
    ensures L.Stock(r, start) == Padded(r.packets[1][start % PACKET_SIZE - 1..]) + Flatten(r.packets[2..])
    ensures Sent(r) == r.packets[1] + Flatten(r.packets[2..]) && |r.packets[1]| % 2 == 0
  {
    hide L.IsProgCommand, Padded, L.Payload;
    WordsReadable(r, start, |data|);
    var tail := r.packets[1..];
    assert tail[1..] == r.packets[2..];
    assert forall i | 0 <= i < |r.packets[2..]| :: r.packets[2..][i] == tail[i + 1];
    WholePadded(r.packets[2..]);
  }

  // Even addresses.

  /** The i-th byte taken when k alignment bytes, an even number, stand in front of the data and the first packet
      holds p bytes. */
  ghost function Shifted(s: seq<Byte>, p: nat, k: nat, i: nat): Byte
    requires 0 < k <= p <= |s| && k + i < |s|
  {
    if k - 1 + i < p then s[k - 1 + i] else if k - 1 + i == p then 0 else s[k - 2 + i]
  }

  lemma EvenTaken(r: Request, start: Word, data: seq<Byte>)
    requires IsInside(r, start, data) && start % PACKET_SIZE % 2 == 0
    ensures L.Supplied(r, start, |data|) && |r.packets[1]| <= |Sent(r)|
    ensures forall i | 0 <= i < |Words(data)| ::
              L.Taken(r, start, |data|)[i] == Shifted(Sent(r), |r.packets[1]|, start % PACKET_SIZE, i)
  {
    hide L.IsProgCommand, L.Stock, Flatten, OutPipe.WholeWords, Sent;
    InsideStock(r, start, data);
    PaddedTail(r.packets[1], start % PACKET_SIZE, Flatten(r.packets[2..]));
  }

  lemma PaddedTail(first: seq<Byte>, k: nat, rest: seq<Byte>)
    requires 0 < k <= |first| && k % 2 == 0 && |first| % 2 == 0
    ensures var s, t := first + rest, Padded(first[k - 1..]) + rest;
            |t| == |s| - k + 2 && forall i | 0 <= i && k + i < |s| :: t[i] == Shifted(s, |first|, k, i)
  {
    OddTail(|first|, k);
    assert Padded(first[k - 1..]) == first[k - 1..] + [0];
  }

  lemma OddTail(n: nat, k: nat)
    requires n % 2 == 0 && k % 2 == 0 && 0 < k <= n
    ensures (n - (k - 1)) % 2 == 1
  {
  }

  /** What the download leaves at the place of the i-th of m bytes, in terms of the bytes sent and the old flash. */
  ghost function ShiftedLanding(mem: seq<Byte>, a: nat, s: seq<Byte>, p: nat, k: nat, m: nat, page: nat, i: nat): Byte
    requires page == 128 || page == 256
    requires 0 < k <= p <= |s| && i < m && k + m <= |s| && a + m <= |mem|
  {
    if Offset(i, page) + Offset(a, page) < page then Shifted(s, p, k, i)
    else if i + page < m then Shifted(s, p, k, i + page)
    else if i - Offset(i, page) + page < m then BLANK
    else mem[a + i]
  }

  /** The condition: every byte sent is the one that the shift and the layout put in its place. */
  ghost predicate ShiftHarmless(mem: seq<Byte>, a: nat, s: seq<Byte>, p: nat, k: nat, m: nat, page: nat)
    requires page == 128 || page == 256
    requires 0 < k <= p <= |s| && k + m <= |s| && a + m <= |mem|
  {
    forall i | 0 <= i < m :: s[k + i] == ShiftedLanding(mem, a, s, p, k, m, page, i)
  }

  lemma ShiftedLands(
    mem: seq<Byte>, buf: seq<Byte>, a: nat, words: seq<Byte>, s: seq<Byte>, p: nat, k: nat, page: nat, i: nat)
    requires page == 128 || page == 256
    requires |buf| == page && 0 < k <= p <= |s| && k + |words| <= |s|
    requires a + |words| <= |mem| && a % 2 == 0 && i < |words|
    requires forall j | 0 <= j < |words| :: words[j] == Shifted(s, p, k, j)
    ensures L.Landed(mem, buf, a, words, page)[i] == ShiftedLanding(mem, a, s, p, k, |words|, page, i)
  {
    hide Offset, Shifted;
    L.LandedBytes(mem, buf, a, words, page, a, 0);
    assert L.Landed(mem, buf, a, words, page)[i] == L.Landing(mem, a, words, page, i + 0);
  }

  /** From an even address inside a packet the data arrives if and only if the shift does not show. */
  lemma EvenArrivesIff(d: Dfu, r: Request, start: Word, data: seq<Byte>, a: nat)
    requires L.Open(d) && IsInside(r, start, data) && start % PACKET_SIZE % 2 == 0
    requires L.FlashRange(d, start, |data|, a)
    ensures |r.packets[1]| <= |Sent(r)|
    ensures L.Holds(Step(d, r).0.flash.mem, a, Words(data)) <==>
            ShiftHarmless(d.flash.mem, a, Sent(r), |r.packets[1]|, start % PACKET_SIZE, |Words(data)|, d.flash.page)
  {
    hide Step, L.IsProgCommand, L.Supplied, L.Taken, L.Landed, Offset, Shifted, ShiftedLanding, Sent,
      OutPipe.WholeWords;
    var s, p, k, m := Sent(r), |r.packets[1]|, start % PACKET_SIZE, |Words(data)|;
    EvenTaken(r, start, data);
    EvenStart(d.flash64K, start);
    L.DownloadLands(d, r, start, |data|, a);
    var t := L.Taken(r, start, |data|);
    var landed := L.Landed(d.flash.mem, d.flash.buf, a, t, d.flash.page);
    forall i | 0 <= i < m
      ensures landed[i] == ShiftedLanding(d.flash.mem, a, s, p, k, m, d.flash.page, i) && Words(data)[i] == s[k + i]
    {
      ShiftedLands(d.flash.mem, d.flash.buf, a, t, s, p, k, d.flash.page, i);
    }
    HoldsIff(Step(d, r).0.flash.mem, a, landed, Words(data));
  }

  lemma HoldsIff(mem: seq<Byte>, a: nat, x: seq<Byte>, y: seq<Byte>)
    requires L.Holds(mem, a, x) && |x| == |y|
    ensures L.Holds(mem, a, y) <==> forall i | 0 <= i < |y| :: y[i] == x[i]
  {
    assert x == y <==> forall i | 0 <= i < |y| :: y[i] == x[i];
  }

  lemma EvenStart(high: Byte, low: Word)
    requires low % PACKET_SIZE % 2 == 0
    ensures (0x1_0000 * (high as int) + low) % 2 == 0
  {
    var q, s := low / 32, low % 32 / 2;
    assert 0x1_0000 * (high as int) + low == 2 * (0x8000 * (high as int) + 16 * q + s);
  }

  /** The same for a range inside one page: the bytes from the last alignment byte to the first byte of the second
      packet are all equal, the next byte is zero, and every byte behind it is the one two places before. */
  lemma EvenArrivesInPage(d: Dfu, r: Request, start: Word, data: seq<Byte>, a: nat)
    requires L.Open(d) && IsInside(r, start, data) && start % PACKET_SIZE % 2 == 0
    requires L.FlashRange(d, start, |data|, a) && Offset(a, d.flash.page) + |data| <= d.flash.page
    ensures var s, p, k, m := Sent(r), |r.packets[1]|, start % PACKET_SIZE, |Words(data)|;
            L.Holds(Step(d, r).0.flash.mem, a, Words(data)) <==>
            && (forall j | k <= j <= p && j < k + m :: s[j] == s[j - 1])
            && (p + 1 < k + m ==> s[p + 1] == 0)
            && (forall j | p + 2 <= j < k + m :: s[j] == s[j - 2])
  {
    hide Step, L.IsProgCommand, L.Holds, Offset, Sent, OutPipe.WholeWords;
    EvenArrivesIff(d, r, start, data, a);
    var s, p, k, m := Sent(r), |r.packets[1]|, start % PACKET_SIZE, |Words(data)|;
    InPageIff(d.flash.mem, a, s, p, k, m, d.flash.page);
  }

  lemma InPageIff(mem: seq<Byte>, a: nat, s: seq<Byte>, p: nat, k: nat, m: nat, page: nat)
    requires page == 128 || page == 256
    requires 0 < k <= p <= |s| && k + m <= |s| && a + m <= |mem| && Offset(a, page) + m <= page
    ensures ShiftHarmless(mem, a, s, p, k, m, page) <==>
            && (forall j | k <= j <= p && j < k + m :: s[j] == s[j - 1])
            && (p + 1 < k + m ==> s[p + 1] == 0)
            && (forall j | p + 2 <= j < k + m :: s[j] == s[j - 2])
  {
    hide Offset, Shifted;
    forall i | 0 <= i < m
      ensures ShiftedLanding(mem, a, s, p, k, m, page, i) == Shifted(s, p, k, i)
    {
      L.SmallOffset(i, page);
    }
    ShiftedIff(s, p, k, m);
  }

  lemma ShiftedIff(s: seq<Byte>, p: nat, k: nat, m: nat)
    requires 0 < k <= p <= |s| && k + m <= |s|
    ensures (forall i | 0 <= i < m :: s[k + i] == Shifted(s, p, k, i)) <==>
            && (forall j | k <= j <= p && j < k + m :: s[j] == s[j - 1])
            && (p + 1 < k + m ==> s[p + 1] == 0)
            && (forall j | p + 2 <= j < k + m :: s[j] == s[j - 2])
  {
    if forall i | 0 <= i < m :: s[k + i] == Shifted(s, p, k, i) {
      forall j | k <= j < k + m
        ensures s[j] == Shifted(s, p, k, j - k)
      {
        assert s[k + (j - k)] == Shifted(s, p, k, j - k);
      }
    }
  }

  // Odd addresses.

  lemma OddTaken(r: Request, start: Word, data: seq<Byte>)
    requires IsInside(r, start, data) && start % PACKET_SIZE % 2 == 1
    ensures L.Supplied(r, start, |data|)
    ensures var k := start % PACKET_SIZE;
            L.Taken(r, start, |data|) == Sent(r)[k - 1..k - 1 + |Words(data)|]
  {
    hide L.IsProgCommand, L.Stock, Flatten, OutPipe.WholeWords, Sent;
    InsideStock(r, start, data);
    WholeTail(r.packets[1], start % PACKET_SIZE, Flatten(r.packets[2..]));
  }

  lemma WholeTail(first: seq<Byte>, k: nat, rest: seq<Byte>)
    requires 0 < k <= |first| && k % 2 == 1 && |first| % 2 == 0
    ensures Padded(first[k - 1..]) + rest == (first + rest)[k - 1..]
  {
    EvenTail(|first|, k);
  }

  lemma EvenTail(n: nat, k: nat)
    requires n % 2 == 0 && k % 2 == 1 && 0 < k <= n
    ensures (n - (k - 1)) % 2 == 0 && k < n + 1
  {
  }

  /** The condition for an odd address a: the bytes that the layout puts on the wrong page, and the last byte, are
      what their places hold. `words` are the data from the last alignment byte on, but for the last byte. */
  ghost predicate OddHarmless(mem: seq<Byte>, buf: seq<Byte>, a: nat, words: seq<Byte>, last: Byte, page: nat)
    requires page == 128 || page == 256
    requires |buf| == page && 0 < a && a + |words| <= |mem| && words != []
  {
    && (forall i | 0 < i < |words| && Offset(i, page) + Offset(a - 1, page) >= page ::
          words[i] == L.Landing(mem, a - 1, words, page, i))
    && last == L.LandedByte(mem, buf, a - 1, words, page, |words|)
  }

  /** From an odd address the data arrives if and only if that condition holds. */
  lemma OddArrivesIff(d: Dfu, r: Request, start: Word, data: seq<Byte>, a: nat)
    requires L.Open(d) && IsInside(r, start, data) && start % PACKET_SIZE % 2 == 1
    requires L.FlashRange(d, start, |data|, a) && |data| >= 2
    ensures var k, m := start % PACKET_SIZE, |Words(data)|;
            && a > 0 && m > 0 && |d.flash.buf| == d.flash.page
            && (L.Holds(Step(d, r).0.flash.mem, a, Words(data)) <==>
                OddHarmless(d.flash.mem, d.flash.buf, a, Sent(r)[k - 1..k - 1 + m], data[m - 1], d.flash.page))
  {
    hide Step, L.IsProgCommand, L.Supplied, L.Taken, L.Landing, Offset, Sent, OutPipe.WholeWords, OddHarmless;
    var k, m := start % PACKET_SIZE, |Words(data)|;
    OddTaken(r, start, data);
    OddStart(d.flash64K, start);
    L.DownloadLands(d, r, start, |data|, a);
    var t := Sent(r)[k - 1..k - 1 + m];
    var landed := L.Landed(d.flash.mem, d.flash.buf, a, t, d.flash.page);
    forall i | 0 <= i < m - 1
      ensures Words(data)[i] == t[i + 1]
    {
      assert data[i] == Sent(r)[k..k + |data|][i];
    }
    HoldsIff(Step(d, r).0.flash.mem, a, landed, Words(data));
    OddIff(d.flash.mem, d.flash.buf, a, t, Words(data), d.flash.page);
  }

  lemma OddIff(mem: seq<Byte>, buf: seq<Byte>, a: nat, words: seq<Byte>, data: seq<Byte>, page: nat)
    requires page == 128 || page == 256
    requires |buf| == page && 0 < a && a % 2 == 1 && a + |words| <= |mem| && words != [] && |data| == |words|
    requires forall i | 0 <= i < |words| - 1 :: data[i] == words[i + 1]
    ensures (forall i | 0 <= i < |data| :: data[i] == L.Landed(mem, buf, a, words, page)[i]) <==>
            OddHarmless(mem, buf, a, words, data[|data| - 1], page)
  {
    hide Offset, L.Landing;
    L.LandedBytes(mem, buf, a, words, page, a - 1, 1);
    var landed := L.Landed(mem, buf, a, words, page);
    forall i | 0 < i < |words| && Offset(i, page) + Offset(a - 1, page) < page
      ensures L.Landing(mem, a - 1, words, page, i) == words[i]
    {
      L.InPlace(mem, a - 1, words, page, i);
    }
    if forall i | 0 <= i < |data| :: data[i] == landed[i] {
      forall i | 0 < i < |words|
        ensures words[i] == L.Landing(mem, a - 1, words, page, i)
      {
        assert data[i - 1] == landed[i - 1];
      }
    }
  }

  lemma OddStart(high: Byte, low: Word)
    requires low % PACKET_SIZE % 2 == 1
    ensures (0x1_0000 * (high as int) + low) % 2 == 1 && low > 0
  {
    var q, s := low / 32, low % 32 / 2;
    assert low % 32 == 2 * s + 1;
    OddForm(0x8000 * (high as int) + 16 * q + s);
  }

  lemma OddForm(h: nat)
    ensures (2 * h + 1) % 2 == 1
  {
  }

  /** For a range inside one page: only the last byte is lost, so the data arrives if and only if the page buffer held
      it in its place. */
  lemma OddArrivesInPage(d: Dfu, r: Request, start: Word, data: seq<Byte>, a: nat)
    requires L.Open(d) && IsInside(r, start, data) && start % PACKET_SIZE % 2 == 1
    requires L.FlashRange(d, start, |data|, a) && |data| >= 2 && Offset(a, d.flash.page) + |data| <= d.flash.page
    ensures var m, o := |Words(data)|, Offset(a, d.flash.page);
            && o + m - 1 < |d.flash.buf|
            && (L.Holds(Step(d, r).0.flash.mem, a, Words(data)) <==> data[m - 1] == d.flash.buf[o + m - 1])
  {
    hide Step, L.IsProgCommand, L.Holds, Offset, Sent, OutPipe.WholeWords;
    OddArrivesIff(d, r, start, data, a);
    OddStart(d.flash64K, start);
    var k, m := start % PACKET_SIZE, |Words(data)|;
    OneBefore(a, d.flash.page);
    OddInPage(d.flash.mem, d.flash.buf, a, Sent(r)[k - 1..k - 1 + m], data[m - 1], d.flash.page);
  }

  lemma OneBefore(a: nat, page: nat)
    requires page == 128 || page == 256
    requires a % 2 == 1
    ensures Offset(a - 1, page) + 1 == Offset(a, page)
  {
    if page == 128 {
      Before128(a);
    } else {
      Before256(a);
    }
  }

  lemma Before128(a: nat)
    requires a % 2 == 1
    ensures (a - 1) % 128 + 1 == a % 128
  {
    L.Parity128(a);
    SumMod128(128 * (a / 128), a % 128 - 1);
  }

  lemma Before256(a: nat)
    requires a % 2 == 1
    ensures (a - 1) % 256 + 1 == a % 256
  {
    L.Parity256(a);
    SumMod256(256 * (a / 256), a % 256 - 1);
  }

  lemma OddInPage(mem: seq<Byte>, buf: seq<Byte>, a: nat, words: seq<Byte>, last: Byte, page: nat)
    requires page == 128 || page == 256
    requires |buf| == page && 0 < a && a + |words| <= |mem| && words != [] && Offset(a - 1, page) + 1 + |words| <= page
    ensures OddHarmless(mem, buf, a, words, last, page) <==> last == buf[Offset(a - 1, page) + |words|]
  {
    hide Offset;
    forall i | 0 < i <= |words|
      ensures Offset(i, page) == i
    {
      L.SmallOffset(i, page);
    }
  }

  // Round trips, and an input that fails.

  /** An upload of the range gives back the data if and only if the data arrived, from any address. */
  lemma ReadsBackIff(d: Dfu, prog: Request, disp: Request, up: Request, start: Word, data: seq<Byte>, a: nat)
    requires L.Open(d) && L.Supplied(prog, start, |data|)
    requires L.FlashRange(d, start, |data|, a) && L.IsReadRequest(disp, start, |data|)
    requires up.toInterface && up.request == REQ_UPLOAD
    ensures L.Carries(Step(Step(Step(d, prog).0, disp).0, up).1.packets, Words(data), PACKET_SIZE) <==>
            L.Holds(Step(d, prog).0.flash.mem, a, Words(data))
  {
    hide Step, L.Supplied, L.Taken, L.Landed, Offset, L.IsReadRequest, Flatten;
    L.RoundTrip(d, prog, disp, up, start, |data|, a);
    L.DownloadLands(d, prog, start, |data|, a);
  }

  /** A download that fails: one word to address 2, behind two alignment bytes. The flash gets the second
      alignment byte and the low byte of the word. */
  lemma WordShifted(d: Dfu, r: Request, x: Byte, y: Byte, lo: Byte, hi: Byte)
    requires L.Open(d) && d.flash64K == 0
    requires L.IsProgCommand(r, 2, 2) && |r.packets[0]| == PACKET_SIZE && r.packets[1..] == [[x, y, lo, hi]]
    ensures L.Holds(Step(d, r).0.flash.mem, 2, [y, lo])
  {
    hide Step, L.IsProgCommand, Offset, L.Supplied, L.Taken, L.Landed, L.Holds;
    OnePacket(r, x, y, lo, hi);
    EvenTaken(r, 2, [lo, hi]);
    assert L.Taken(r, 2, 2) == [y, lo];
    FirstPage(d.flash);
    L.DownloadLands(d, r, 2, 2, 2);
    FirstLands(d.flash.mem, d.flash.buf, [y, lo], d.flash.page);
  }

  lemma OnePacket(r: Request, x: Byte, y: Byte, lo: Byte, hi: Byte)
    requires L.IsProgCommand(r, 2, 2) && |r.packets[0]| == PACKET_SIZE && r.packets[1..] == [[x, y, lo, hi]]
    ensures IsInside(r, 2, [lo, hi]) && 2 % PACKET_SIZE == 2
    ensures Sent(r) == [x, y, lo, hi] && r.packets[1] == [x, y, lo, hi]
  {
    hide L.RangeCommand;
    assert r.packets[1] == r.packets[1..][0];
    assert Flatten([[x, y, lo, hi]]) == [x, y, lo, hi] + Flatten([]);
  }

  lemma FirstPage(f: Flash)
    requires f.Valid()
    ensures 128 <= |f.mem| && Offset(0, f.page) == 0 && Offset(1, f.page) == 1 && Offset(2, f.page) == 2
  {
  }

  lemma FirstLands(mem: seq<Byte>, buf: seq<Byte>, words: seq<Byte>, page: nat)
    requires page == 128 || page == 256
    requires |buf| == page && |words| == 2 && |mem| >= 4
    ensures L.Landed(mem, buf, 2, words, page) == words
  {
    assert Offset(0, page) == 0 && Offset(1, page) == 1 && Offset(2, page) == 2;
    L.LandedBytes(mem, buf, 2, words, page, 2, 0);
    L.InPlace(mem, 2, words, page, 0);
    L.InPlace(mem, 2, words, page, 1);
  }
}
