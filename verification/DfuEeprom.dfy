/** EEPROM downloads and uploads of the DFU boot loader, from any start address. */
module DfuEeprom {
  import opened Bytes
  import opened FlashMemory
  import opened Endpoints
  import opened DfuModel
  import L = DfuDownload

  // Bytes off the stream.

  /** No packet to come is empty. */
  ghost predicate NoEmptyPacket(out: OutPipe) { forall i | 0 <= i < |out.rest| :: out.rest[i] != [] }

  /** The next byte of a pipe without empty packets. */
  lemma ReadByte(out: OutPipe)
    requires NoEmptyPacket(out) && out.Stream() != []
    ensures !out.Dry() && out.Ready().Peek() == out.Stream()[0]
    ensures out.Ready().Drop().Stream() == out.Stream()[1..] && NoEmptyPacket(out.Ready().Drop())
  {
    if out.cur == [] {
      assert out.rest != [];
    }
  }

  lemma {:induction false} DiscardWithin(cur: seq<Byte>, rest: seq<seq<Byte>>, n: nat)
    requires n <= |cur|
    ensures Discard(OutPipe(cur, rest), n) == OutPipe(cur[n..], rest)
    decreases n
  {
    if n > 0 {
      DiscardWithin(cur[1..], rest, n - 1);
      assert cur[1..][n - 1..] == cur[n..];
    }
  }

  /** Position of the first byte that is not discarded when k alignment bytes are to go: fetching the
      packet they are in counts as the first of them. */
  ghost function Kept(k: nat): nat { if k == 0 then 0 else k - 1 }

  lemma DropHead(a: seq<Byte>, b: seq<Byte>, n: nat)
    requires n <= |a|
    ensures (a + b)[n..] == a[n..] + b
  {
  }

  /** Discarding k alignment bytes at a packet boundary drops one byte less. */
  lemma DiscardSkips(packets: seq<seq<Byte>>, k: nat)
    requires k > 0 ==> packets != [] && k <= |packets[0]|
    requires forall i | 0 <= i < |packets| :: packets[i] != []
    ensures Kept(k) <= |Flatten(packets)|
    ensures var out := Discard(OutPipe([], packets), k);
            out.Stream() == Flatten(packets)[Kept(k)..] && NoEmptyPacket(out)
  {
    if k > 0 {
      DiscardWithin(packets[0], packets[1..], k - 1);
      DropHead(packets[0], Flatten(packets[1..]), k - 1);
    } else {
      assert Flatten(packets)[0..] == Flatten(packets);
    }
  }

  // The two loops.

  lemma InMemory(e: seq<Byte>, a: Word)
    requires a < |e|
    ensures EepromAt(e, a) == a
  {
  }

  /** The EEPROM loop writes the next bytes of the stream. */
  lemma {:induction false} WriteEepromReads(e: seq<Byte>, out: OutPipe, a: Word, n: nat)
    requires 0 < |e| <= 0x1_0000 && a + n <= |e| && NoEmptyPacket(out) && n <= |out.Stream()|
    ensures WriteEeprom(e, out, a, n).eeprom == Splice(e, a, out.Stream()[..n])
    decreases n
  {
    hide OutPipe.Stream, NoEmptyPacket, Splice, EepromAt;
    var s := out.Stream();
    if n == 0 {
      SpliceNone(e, a);
      assert s[..0] == [];
    } else {
      ReadByte(out);
      InMemory(e, a);
      if n == 1 {
        WriteLast(e, out, a);
      } else {
        WriteEepromReads(e[a := s[0]], out.Ready().Drop(), a + 1, n - 1);
      }
      SpliceFirst(e, a, s[..n]);
      assert s[..n][1..] == s[1..][..n - 1];
      SpliceNone(e[a := s[0]], a + 1);
    }
  }

  lemma WriteLast(e: seq<Byte>, out: OutPipe, a: Word)
    requires a < |e| && !out.Dry()
    ensures WriteEeprom(e, out, a, 1).eeprom == e[a := out.Ready().Peek()]
  {
  }

  /** The upload loop sends the EEPROM contents in order, in full packets. */
  lemma {:induction false} ReadEepromSends(e: seq<Byte>, pipe: InPipe, a: Word, n: nat)
    requires 0 < |e| <= 0x1_0000 && a + n <= |e| && pipe.Packed(PACKET_SIZE)
    ensures var r := ReadEeprom(e, pipe, a, n);
            r.Stream() == pipe.Stream() + e[a..a + n] && r.Packed(PACKET_SIZE)
    decreases n
  {
    hide InPipe.Stream, InPipe.Packed, EepromAt;
    if n == 0 {
      assert pipe.Stream() + e[a..a + n] == pipe.Stream();
    } else {
      InMemory(e, a);
      PutStream(pipe, PACKET_SIZE, e[a]);
      var next := pipe.Room(PACKET_SIZE).Put(e[a]);
      SliceFirst(e, a, n);
      assert pipe.Stream() + [e[a]] + e[a + 1..a + n] == pipe.Stream() + e[a..a + n];
      if n > 1 {
        ReadEepromSends(e, next, a + 1, n - 1);
      }
    }
  }

  // The requests.

  /** A six-byte command for n bytes of EEPROM at `start`. */
  ghost function EepromCommand(command: Byte, kind: Byte, start: Word, n: nat): (c: seq<Byte>)
    ensures |c| == 6
  {
    L.RangeCommand(command, start, n)[1 := kind]
  }

  lemma LoadEeprom(d: Dfu, command: Byte, kind: Byte, start: Word, n: nat, rest: seq<Byte>)
    requires d.Valid() && n < 0x1_0000
    ensures AfterCommand(EepromCommand(command, kind, start, n) + rest) == rest
    ensures var c := LoadCommand(d.sent, EepromCommand(command, kind, start, n) + rest);
            var l := LoadAddresses(d.(sent := c));
            && c.command == command && c.data[0] == kind
            && c.dataSize == (d.sent.dataSize - 6) % 0x1_0000
            && l.startAddr == start && l.ByteCount() == n
  {
    hide LoadCommand, AfterCommand, Low, High, MakeWord, Flash.Valid;
    L.LoadSix(d.sent, EepromCommand(command, kind, start, n), rest);
    L.CountWraps(start, n);
    WordParts(start);
    WordParts((start + n + 0xFFFF) % 0x1_0000);
  }

  /** The stream of an EEPROM download behind its command packet. */
  ghost function Payload(r: Request): seq<Byte>
    requires r.packets != []
  {
    Flatten(r.packets[1..])
  }

  /** A PROG_START request for EEPROM: the command and 26 filler bytes in one packet, then packets that
      hold as many alignment bytes as the start address lies behind a packet boundary, and the data. */
  ghost predicate IsEepromDownload(r: Request, start: Word, data: seq<Byte>) {
    var k := start % PACKET_SIZE;
    && r.toInterface && r.request == REQ_DNLOAD
    && r.length != 0 && (r.length - 6) % 0x1_0000 != 0
    && r.packets != [] && |data| < 0x1_0000
    && |r.packets[0]| == PACKET_SIZE
    && r.packets[0][..6] == EepromCommand(COMMAND_PROG_START, 0x01, start, |data|)
    && (forall i | 0 < i < |r.packets| :: r.packets[i] != [])
    && (k > 0 ==> |r.packets| > 1 && k <= |r.packets[1]|)
    && k + |data| <= |Payload(r)| && Payload(r)[k..k + |data|] == data
  }

  lemma EepromProgCommand(d: Dfu, r: Request, start: Word, data: seq<Byte>)
    requires L.Open(d) && IsEepromDownload(r, start, data) && d.sent.dataSize == r.length
    ensures var c := d.(sent := LoadCommand(d.sent, r.packets[0]));
            var e := ProcessCommand(c);
            && Allowed(c) && L.Open(e) && e.eeprom == d.eeprom && e.flash == d.flash
            && e.state == DFU_DNLOAD_IDLE && e.sent.dataSize != 0 && e.sent.data[0] == 0x01
            && e.startAddr == start && e.ByteCount() == |data|
            && AfterCommand(r.packets[0]) == r.packets[0][6..]
  {
    hide LoadCommand, AfterCommand, Flash.Erase, EepromCommand, Dfu.ByteCount, MakeWord,
      ProcessMemRead, ProcessWrite, ProcessRead;
    var c := d.(sent := LoadCommand(d.sent, r.packets[0]));
    L.SameCount(LoadAddresses(c), ProcessMemProg(c));
    assert r.packets[0] == EepromCommand(COMMAND_PROG_START, 0x01, start, |data|) + r.packets[0][6..];
    LoadEeprom(d, COMMAND_PROG_START, 0x01, start, |data|, r.packets[0][6..]);
  }

  lemma AlignmentGone(r: Request, start: Word, data: seq<Byte>)
    requires IsEepromDownload(r, start, data)
    ensures var k := start % PACKET_SIZE;
            var out := Discard(OutPipe([], r.packets[1..]), k);
            && Kept(k) + |data| <= |Payload(r)|
            && NoEmptyPacket(out) && |data| <= |out.Stream()|
            && out.Stream()[..|data|] == Payload(r)[Kept(k)..Kept(k) + |data|]
  {
    hide EepromCommand, Discard, Flatten;
    DiscardSkips(r.packets[1..], start % PACKET_SIZE);
  }

  /** What an EEPROM download writes, wherever it starts: from the last alignment byte on, if there is
      one. The flash is left alone. */
  lemma {:induction false} EepromDownloadWrites(d: Dfu, r: Request, start: Word, data: seq<Byte>)
    requires L.Open(d) && IsEepromDownload(r, start, data)
    requires start + |data| <= |d.eeprom| <= 0x1_0000
    ensures var e := Step(d, r).0;
            var j := Kept(start % PACKET_SIZE);
            && j + |data| <= |Payload(r)|
            && e.eeprom == Splice(d.eeprom, start, Payload(r)[j..j + |data|]) && e.flash == d.flash && L.Open(e)
    ensures Step(d, r).1 == NO_REPLY
  {
    hide Splice, EepromCommand, LoadCommand, AfterCommand, Discard, WriteEeprom, WriteWords, ProcessCommand,
      Dfu.ByteCount, OutPipe.Stream, NoEmptyPacket, Payload, Kept;
    var d1 := d.(sent := d.sent.(dataSize := r.length));
    EepromProgCommand(d1, r, start, data);
    var tail := r.packets[1..];
    L.DiscardInPacket(r.packets[0][6..], tail);
    AlignmentGone(r, start, data);
    WriteEepromReads(d.eeprom, Discard(OutPipe([], tail), start % PACKET_SIZE), start, |data|);
  }

  /** A sequence equals itself moved by one place exactly when it is constant. */
  lemma {:induction false} ShiftedIsConstant(s: seq<Byte>, n: nat)
    requires n < |s|
    ensures s[..n] == s[1..n + 1] <==> forall i | 0 <= i <= n :: s[i] == s[0]
    decreases n
  {
    if n > 0 {
      ShiftedIsConstant(s, n - 1);
      assert s[..n] == s[..n - 1] + [s[n - 1]];
      assert s[1..n + 1] == s[1..n] + [s[n]];
    }
  }

  lemma OneEarly(s: seq<Byte>, k: nat, data: seq<Byte>)
    requires 0 < k && k + |data| <= |s| && s[k..k + |data|] == data
    ensures s[k - 1..k - 1 + |data|] == data <==> forall i | 0 <= i < |data| :: data[i] == s[k - 1]
  {
    var n := |data|;
    var t := s[k - 1..k + n];
    ShiftedIsConstant(t, n);
    assert t[..n] == s[k - 1..k - 1 + n];
    assert t[1..n + 1] == data;
    assert forall i | 0 <= i < n :: data[i] == t[i + 1];
    assert forall i | 0 < i <= n :: t[i] == data[i - 1];
  }

  lemma SpliceEqual(e: seq<Byte>, a: nat, x: seq<Byte>, y: seq<Byte>)
    requires |x| == |y| && a + |x| <= |e|
    ensures Splice(e, a, x) == Splice(e, a, y) <==> x == y
  {
    hide Splice;
    SplicePrefix(e, a, x, |x|);
    SplicePrefix(e, a, y, |y|);
    assert x[..|x|] == x && y[..|y|] == y;
  }

  /** The data of an EEPROM download arrives if and only if it starts at a packet boundary, or all its
      bytes are equal to the last alignment byte. */
  lemma EepromArrivesIff(d: Dfu, r: Request, start: Word, data: seq<Byte>)
    requires L.Open(d) && IsEepromDownload(r, start, data)
    requires start + |data| <= |d.eeprom| <= 0x1_0000
    ensures var k := start % PACKET_SIZE;
            Step(d, r).0.eeprom == Splice(d.eeprom, start, data) <==>
            k == 0 || forall i | 0 <= i < |data| :: data[i] == Payload(r)[k - 1]
  {
    hide Splice, Step, EepromCommand, Payload;
    EepromDownloadWrites(d, r, start, data);
    var k, n, s := start % PACKET_SIZE, |data|, Payload(r);
    SpliceEqual(d.eeprom, start, s[Kept(k)..Kept(k) + n], data);
    if k > 0 {
      OneEarly(s, k, data);
    }
  }

  /** A download that fails: one byte to address 1, behind an alignment byte. Address 1 gets the alignment byte. */
  lemma AlignmentByteWritten(d: Dfu, r: Request, filler: Byte, b: Byte)
    requires L.Open(d) && 2 <= |d.eeprom| <= 0x1_0000
    requires IsEepromDownload(r, 1, [b]) && r.packets[1..] == [[filler, b]]
    ensures Step(d, r).0.eeprom == d.eeprom[1 := filler]
  {
    hide Splice, Step, EepromCommand, Kept;
    EepromDownloadWrites(d, r, 1, [b]);
    assert Flatten([[filler, b]]) == [filler, b] + Flatten([]);
    OneEarlier();
    assert Payload(r)[0..1] == [filler];
    SpliceOne(d.eeprom, 1, filler);
  }

  lemma OneEarlier()
    ensures 1 % PACKET_SIZE == 1 && Kept(1) == 0
  {
  }

  lemma SpliceOne(e: seq<Byte>, a: nat, b: Byte)
    requires a < |e|
    ensures Splice(e, a, [b]) == e[a := b]
  {
  }

  /** A DISP_DATA request for n bytes of EEPROM at `start`. */
  ghost predicate IsEepromRead(r: Request, start: Word, n: nat) {
    && r.toInterface && r.request == REQ_DNLOAD && r.length != 0
    && n < 0x1_0000
    && r.packets == [EepromCommand(COMMAND_DISP_DATA, 0x02, start, n)]
  }

  lemma EepromDispCommand(d: Dfu, r: Request, start: Word, n: nat)
    requires L.Open(d) && IsEepromRead(r, start, n)
    ensures var e := Step(d, r).0;
            && L.Open(e) && e.state == DFU_UPLOAD_IDLE && e.sent.data[0] == 0x02
            && e.startAddr == start && e.ByteCount() == n && e.eeprom == d.eeprom
    ensures Step(d, r).1 == NO_REPLY
  {
    hide LoadCommand, AfterCommand, EepromCommand, DataStage, Dfu.ByteCount, MakeWord, FirstNonBlank,
      ProcessMemProg, ProcessWrite, ProcessRead;
    var d1 := d.(sent := d.sent.(dataSize := r.length));
    assert r.packets[0] == EepromCommand(COMMAND_DISP_DATA, 0x02, start, n) + [];
    LoadEeprom(d1, COMMAND_DISP_DATA, 0x02, start, n, []);
    var c := d1.(sent := LoadCommand(d1.sent, r.packets[0]));
    L.SameCount(LoadAddresses(c), ProcessMemRead(c));
    L.StaysUploading(ProcessCommand(c), OutPipe(AfterCommand(r.packets[0]), r.packets[1..]));
  }

  lemma EepromUploadSends(d: Dfu)
    requires d.Valid() && d.state == DFU_UPLOAD_IDLE && d.sent.data[0] == 0x02
    requires d.startAddr + d.ByteCount() <= |d.eeprom| <= 0x1_0000
    ensures L.Carries(Upload(d).1.packets, d.eeprom[d.startAddr..d.startAddr + d.ByteCount()], PACKET_SIZE)
  {
    hide ReadEeprom, ReadWords, Flash.Valid, Dfu.ByteCount;
    var pipe := InPipe([], []);
    ReadEepromSends(d.eeprom, pipe, d.startAddr, d.ByteCount());
    SendStream(ReadEeprom(d.eeprom, pipe, d.startAddr, d.ByteCount()));
    assert pipe.Stream() == [];
  }

  /** The EEPROM round trip from a packet boundary: download, then DISP_DATA and UPLOAD, return the bytes. */
  lemma EepromRoundTrip(d: Dfu, prog: Request, disp: Request, up: Request, start: Word, data: seq<Byte>)
    requires L.Open(d) && IsEepromDownload(prog, start, data) && start % PACKET_SIZE == 0
    requires start + |data| <= |d.eeprom| <= 0x1_0000
    requires IsEepromRead(disp, start, |data|)
    requires up.toInterface && up.request == REQ_UPLOAD
    ensures L.Carries(Step(Step(Step(d, prog).0, disp).0, up).1.packets, data, PACKET_SIZE)
  {
    hide Upload, L.Carries, Dnload, Splice, EepromCommand, Payload;
    EepromDownloadWrites(d, prog, start, data);
    var w := Step(d, prog).0;
    EepromDispCommand(w, disp, start, |data|);
    var e := Step(w, disp).0;
    var g := e.(sent := e.sent.(dataSize := up.length));
    L.SameCount(e, g);
    EepromUploadSends(g);
    SplicePrefix(d.eeprom, start, data, |data|);
    assert data[..|data|] == data;
  }
}
