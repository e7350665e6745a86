/** The HID boot loader and its host loader in the form of their sources: the device's report handler,
    and the host's image and mask arrays with the loops that fill, search and send them. Every method is
    proved to compute the function of HidModel or HexFile that carries its name. */
module HidLoader {
  import opened Bytes
  import opened FlashMemory
  import opened Endpoints
  import M = HidModel
  import X = HexFile
  import A = HexAgreement
  import H = HidProgramming

  /** The shifts and masks of the host give the low and the high byte of the address word. */
  lemma AddressBytes(codeSize: nat, addr: nat)
    ensures var w := M.AddressWord(codeSize, addr);
            if codeSize < 0x1_0000 then Low(w) == addr % 0x100 && High(w) == addr / 0x100 % 0x100
            else Low(w) == addr / 0x100 % 0x100 && High(w) == addr / 0x1_0000 % 0x100
  {
    LowWord(addr);
    LowWord(addr / 0x100);
    Twice(addr);
  }

  lemma LowWord(a: nat)
    ensures a % 0x1_0000 % 0x100 == a % 0x100 && a % 0x1_0000 / 0x100 == a / 0x100 % 0x100
  {
    var q, s, t := a / 0x1_0000, a % 0x1_0000 / 0x100, a % 0x1_0000 % 0x100;
    Digits(q, s, t);
    assert a == 0x100 * (0x100 * q + s) + t;
  }

  lemma Digits(q: nat, s: nat, t: nat)
    requires s < 0x100 && t < 0x100
    ensures var a := 0x100 * (0x100 * q + s) + t;
            a % 0x100 == t && a / 0x100 == 0x100 * q + s && (0x100 * q + s) % 0x100 == s
  {
  }

  lemma Twice(a: nat)
    ensures a / 0x100 / 0x100 == a / 0x1_0000
  {
  }

  class HidDevice {
    const far: bool
    const bootStart: nat
    var runBootloader: bool
    var flash: Flash

    ghost function Value(): M.Device
      reads this
    {
      M.Device(far, bootStart, runBootloader, flash)
    }

    constructor (far: bool, bootStart: nat, flash: Flash)
      ensures Value() == M.Device(far, bootStart, true, flash)
    {
      this.far, this.bootStart, this.flash := far, bootStart, flash;
      runBootloader := true;
    }

    method FillPage(address: nat, pipe: OutPipe) returns (complete: bool)
      requires flash.Valid()
      modifies `flash
      ensures M.Filled(flash, complete) == M.FillPage(old(flash), address, pipe, 0)
    {
      hide Flash.Fill, OutPipe.PeekWord, OutPipe.DropWord;
      var out := pipe;
      var pageWord := 0;
      while pageWord < flash.page / 2
        invariant flash.Valid() && flash.page == old(flash).page && pageWord <= flash.page / 2
        invariant M.FillPage(old(flash), address, pipe, 0) == M.FillPage(flash, address, out, pageWord)
      {
        if out.cur == [] {
          if out.rest == [] {
            return false;
          }
          out := out.Advance();
        }
        flash := flash.Fill(address + 2 * pageWord, out.PeekWord());
        out := out.DropWord();
        pageWord := pageWord + 1;
      }
      complete := true;
    }

    method SetReport(packets: seq<seq<Byte>>)
      requires flash.Valid()
      modifies this
      ensures Value() == M.SetReport(old(Value()), packets)
    {
      hide Flash.Erase, Flash.Commit, M.FillPage, OutPipe.PeekWord, OutPipe.DropWord;
      if packets == [] {
        return;
      }
      var out := OutPipe(packets[0], packets[1..]);
      var word := out.PeekWord();
      var pageAddress := if far then 0x100 * word as int else word as int;
      out := out.DropWord();
      if word == M.START_APPLICATION {
        runBootloader := false;
      } else if pageAddress < bootStart {
        flash := flash.Erase(pageAddress);
        var complete := FillPage(pageAddress, out);
        if complete {
          flash := flash.Commit(pageAddress);
        }
      }
    }
  }

  class Loader {
    const image: array<Byte>
    const mask: array<bool>
    var endRecordSeen: bool
    var byteCount: nat
    var extendedAddr: nat

    ghost predicate Valid()
      reads this
    {
      image.Length == M.MAX_MEMORY_SIZE && mask.Length == M.MAX_MEMORY_SIZE
    }

    ghost function Contents(): (r: M.Image)
      requires Valid()
      reads this, image, mask
      ensures r.Valid()
    {
      M.Image(image[..], mask[..])
    }

    ghost function Value(): (r: X.Reader)
      requires Valid()
      reads this, image, mask
      ensures r.Valid()
    {
      X.Reader(Contents(), extendedAddr, byteCount, endRecordSeen)
    }

    constructor ()
      ensures Valid() && fresh(image) && fresh(mask)
    {
      image := new Byte[M.MAX_MEMORY_SIZE];
      mask := new bool[M.MAX_MEMORY_SIZE];
      endRecordSeen, byteCount, extendedAddr := false, 0, 0;
    }

    // Reading the file.

    method StoreByte(a: nat, b: Byte)
      requires Valid() && a < M.MAX_MEMORY_SIZE
      modifies image, mask
      ensures Value() == X.Put(old(Value()), a, b)
    {
      image[a] := b;
      mask[a] := true;
    }

    method StoreData(line: string, base: nat, len: nat, header: nat) returns (ok: bool, sum: nat)
      requires Valid() && base + len < M.MAX_MEMORY_SIZE
      modifies image, mask
      ensures X.Stored(Value(), ok, sum) == X.StoreData(old(Value()), line, base, len, 0, header)
    {
      hide X.Scan, X.Put;
      var num := 0;
      sum := header;
      while num != len
        invariant num <= len && Valid()
        invariant X.StoreData(old(Value()), line, base, len, 0, header) ==
                  X.StoreData(Value(), line, base, len, num, sum)
      {
        var i := X.Scan(line, 9 + 2 * num, 2);
        if i == None {
          return false, sum;
        }
        StoreByte(base + num, i.value % 0x100);
        sum := sum + i.value % 0x100;
        num := num + 1;
      }
      ok := true;
    }

    method SetExtendedAddress(line: string, header: nat, linear: bool)
      requires Valid()
      modifies `extendedAddr
      ensures Value() == X.ExtendedAddress(old(Value()), line, header, linear)
    {
      hide X.Scan, X.ByteSum, X.SumsToZero;
      var i := X.Scan(line, 9, 4);
      if i == None {
        return;
      }
      var check := X.Scan(line, 13, 2);
      if check == None || !X.SumsToZero(header + X.ByteSum(i.value), check.value) {
        return;
      }
      extendedAddr := if linear then i.value * 0x1_0000 else i.value * 0x10;
    }

    method ParseData(line: string, len: nat, addr: nat, header: nat) returns (ok: bool)
      requires Valid() && addr + extendedAddr + len < M.MAX_MEMORY_SIZE
      modifies `byteCount, image, mask
      ensures X.Parsed(Value(), ok) == X.DataRecord(old(Value()), line, len, addr, header)
    {
      hide X.Scan, X.StoreData, X.SumsToZero;
      byteCount := byteCount + len;
      var stored, sum := StoreData(line, addr + extendedAddr, len, header);
      if !stored {
        return false;
      }
      var check := X.Scan(line, 9 + 2 * len, 2);
      ok := check.Some? && X.SumsToZero(sum, check.value);
    }

    method ParseFields(line: string, len: nat, addr: nat, code: nat) returns (ok: bool)
      requires Valid()
      modifies this, image, mask
      ensures Valid() && X.Parsed(Value(), ok) == X.ParseFields(old(Value()), line, len, addr, code)
    {
      hide X.DataRecord, X.ExtendedAddress, X.ByteSum;
      if addr + extendedAddr + len >= M.MAX_MEMORY_SIZE {
        return false;
      }
      var sum := len % 0x100 + X.ByteSum(addr) + code % 0x100;
      if code != 0 {
        if code == 1 {
          endRecordSeen := true;
        } else if code == 2 && len == 2 {
          SetExtendedAddress(line, sum, false);
        } else if code == 4 && len == 2 {
          SetExtendedAddress(line, sum, true);
        }
        return true;
      }
      ok := ParseData(line, len, addr, sum);
    }

    method ParseHexLine(line: string) returns (ok: bool)
      requires Valid()
      modifies this, image, mask
      ensures Valid() && X.Parsed(Value(), ok) == X.ParseLine(old(Value()), line)
    {
      hide X.Scan, X.ParseFields;
      if |line| < 11 || line[0] != ':' {
        return false;
      }
      var len := X.Scan(line, 1, 2);
      if len == None || |line| < 11 + 2 * len.value {
        return false;
      }
      var addr := X.Scan(line, 3, 4);
      if addr == None {
        return false;
      }
      var code := X.Scan(line, 7, 2);
      if code == None {
        return false;
      }
      ok := ParseFields(line, len.value, addr.value, code.value);
    }

    method Clear()
      requires Valid()
      modifies this, image, mask
      ensures Valid() && Value() == X.Fresh()
    {
      byteCount, endRecordSeen, extendedAddr := 0, false, 0;
      var i := 0;
      while i < M.MAX_MEMORY_SIZE
        invariant i <= M.MAX_MEMORY_SIZE && Valid()
        invariant forall j | 0 <= j < i :: image[j] == BLANK && !mask[j]
        invariant byteCount == 0 && !endRecordSeen && extendedAddr == 0
      {
        image[i] := BLANK;
        mask[i] := false;
        i := i + 1;
      }
      assert image[..] == Blanks(M.MAX_MEMORY_SIZE);
    }

    /** The number of data bytes, -1 for a file that cannot be opened, -2 for a faulty line. */
    method ReadIntelHex(file: Option<seq<string>>) returns (r: int)
      requires Valid()
      modifies this, image, mask
      ensures Valid()
      ensures file.Some? ==> (Contents(), r) == X.Read(file.value)
      ensures file.None? ==> Value() == X.Fresh() && r == -1
    {
      hide X.ParseLine, X.Fresh;
      Clear();
      if file == None {
        return -1;
      }
      var n := 0;
      while n < |file.value|
        invariant n <= |file.value| && Valid()
        invariant X.ReadLines(X.Fresh(), file.value) == X.ReadLines(Value(), file.value[n..])
      {
        ghost var rest := file.value[n..];
        assert rest[0] == file.value[n] && rest[1..] == file.value[n + 1..];
        if file.value[n] != "" {
          var ok := ParseHexLine(file.value[n]);
          if !ok {
            return -2;
          }
          if endRecordSeen {
            break;
          }
        }
        n := n + 1;
      }
      r := byteCount;
    }

    // Sending the image.

    method BytesWithinRange(begin: int, end: int) returns (found: bool)
      requires Valid()
      ensures found <==> M.WithinRange(Contents(), begin, end)
    {
      if begin < 0 || begin >= M.MAX_MEMORY_SIZE || end < 0 || end >= M.MAX_MEMORY_SIZE {
        return false;
      }
      var i := begin;
      while i <= end
        invariant begin <= i
        invariant forall j | begin <= j < i && j <= end :: !mask[j]
      {
        if mask[i] {
          assert Contents().mask[i];
          return true;
        }
        i := i + 1;
      }
      found := false;
    }

    method GetData(address: int, len: nat, bytes: array<Byte>, offset: nat)
      requires Valid() && bytes != image && offset + len <= bytes.Length
      modifies bytes
      ensures bytes[offset..offset + len] == M.GetData(Contents(), address, len)
      ensures bytes[..offset] == old(bytes[..offset])
    {
      var addr := address;
      var defined := !(addr < 0 || addr + len >= M.MAX_MEMORY_SIZE);
      var i := 0;
      while i < len
        invariant i <= len && addr == address + (if defined then i else 0)
        invariant forall j | 0 <= j < i :: bytes[offset + j] == M.GetData(Contents(), address, len)[j]
        invariant bytes[..offset] == old(bytes[..offset])
      {
        if defined {
          bytes[offset + i] := if mask[addr] then image[addr] else BLANK;
          addr := addr + 1;
        } else {
          bytes[offset + i] := BLANK;
        }
        i := i + 1;
      }
    }

    method MakeReport(codeSize: nat, block: nat, addr: nat) returns (buf: array<Byte>)
      requires Valid()
      ensures fresh(buf) && buf[..] == M.Report(Contents(), codeSize, block, addr)
    {
      hide M.AddressWord, M.GetData, Low, High;
      buf := new Byte[block + 2];
      if codeSize < 0x1_0000 {
        buf[0], buf[1] := addr % 0x100, addr / 0x100 % 0x100;
      } else {
        buf[0], buf[1] := addr / 0x100 % 0x100, addr / 0x1_0000 % 0x100;
      }
      AddressBytes(codeSize, addr);
      ghost var head := buf[..2];
      GetData(addr, block, buf, 2);
      assert buf[..] == head + buf[2..2 + block];
    }

    method ProgramFlash(device: HidDevice, codeSize: nat, block: nat)
      requires Valid() && device.flash.Valid() && block > 0
      modifies device
      ensures device.Value() == M.ProgramFrom(old(device.Value()), Contents(), codeSize, block, 0)
    {
      hide M.SetReport, M.Packets, M.Report, M.WithinRange, Flash.Valid;
      var addr := 0;
      while addr < codeSize
        invariant device.flash.Valid()
        invariant M.ProgramFrom(old(device.Value()), Contents(), codeSize, block, 0) ==
                  M.ProgramFrom(device.Value(), Contents(), codeSize, block, addr)
      {
        var used := BytesWithinRange(addr, addr + block - 1);
        if !(addr > 0 && !used) {
          var buf := MakeReport(codeSize, block, addr);
          device.SetReport(M.Packets(buf[..]));
        }
        addr := addr + block;
      }
    }

    /** The host from file to device. A file that cannot be read leaves the device alone; one that is accepted has
        only data records that add up to zero, and the device ends as the model's programming loop leaves it. */
    method LoadFile(lines: seq<string>, device: HidDevice, codeSize: nat, block: nat) returns (n: int)
      requires Valid() && device.flash.Valid() && block > 0
      modifies this, image, mask, device
      ensures Valid() && (Contents(), n) == X.Read(lines)
      ensures n < 0 ==> device.Value() == old(device.Value())
      ensures n >= 0 ==> A.AllClose(X.Fresh(), lines)
      ensures n >= 0 ==> device.Value() == M.ProgramFrom(old(device.Value()), Contents(), codeSize, block, 0)
    {
      hide X.ReadLines, M.ProgramFrom, A.AllClose, Flash.Valid;
      n := ReadIntelHex(Some(lines));
      if n < 0 {
        return;
      }
      A.AcceptedCloses(X.Fresh(), lines);
      ProgramFlash(device, codeSize, block);
    }

    /** The same for a printed file whose records fit: every byte that a record defines below the boot section and
        the last block of the image is in flash afterwards. */
    method LoadPrinted(ghost rs: seq<A.Record>, ghost eol: string, ghost rest: seq<string>,
                       lines: seq<string>, device: HidDevice, codeSize: nat, block: nat) returns (n: int)
      requires Valid() && A.AllFit(X.Fresh(), rs) && forall i | 0 <= i < |rs| :: rs[i].Data? ==> |rs[i].data| < 0x100
      requires lines == A.PrintFile(rs, eol) + rest && H.Part(device.Value(), codeSize, block)
      modifies this, image, mask, device
      ensures n == A.DataBytes(rs) && |device.flash.mem| == codeSize
      ensures forall x | 0 <= x < device.bootStart && x < M.MAX_MEMORY_SIZE - block &&
                        A.Fold(X.Fresh(), rs).image.mask[x] ::
                device.flash.mem[x] == A.Fold(X.Fresh(), rs).image.bytes[x]
    {
      hide X.Read, M.ProgramFrom, A.AllClose, A.AllFit, A.Fold, A.PrintFile, A.DataBytes, X.Fresh, H.Part, Flash.Valid;
      ghost var d, image' := device.Value(), A.Fold(X.Fresh(), rs).image;
      PartValid(d, codeSize, block);
      n := LoadFile(lines, device, codeSize, block);
      A.PrintThenRead(rs, eol, rest);
      PartSize(d, image', codeSize, block);
      forall x | 0 <= x < d.bootStart && x < M.MAX_MEMORY_SIZE - block && image'.mask[x]
        ensures device.flash.mem[x] == image'.bytes[x]
      {
        A.FileToFlash(rs, eol, rest, image', d, codeSize, block, x);
      }
    }
  }

  lemma PartValid(d: M.Device, codeSize: nat, block: nat)
    requires H.Part(d, codeSize, block)
    ensures d.flash.Valid() && block > 0
  {
  }

  lemma PartSize(d: M.Device, image: M.Image, codeSize: nat, block: nat)
    requires H.Part(d, codeSize, block) && image.Valid()
    ensures |M.ProgramFrom(d, image, codeSize, block, 0).flash.mem| == codeSize && d.bootStart <= codeSize
  {
    hide M.ProgramFrom, M.IsSent, Offset;
    H.EveryByte(d, image, codeSize, block, 0);
  }
}
