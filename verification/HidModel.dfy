/** The HID boot loader and its host loader: page reports from the host's image to the device's
    flash. The classes in HidLoader.dfy are the imperative form. */
module HidModel {
  import opened Bytes
  import opened FlashMemory
  import opened Endpoints

  const MAX_MEMORY_SIZE: nat := 0x1_0000
  const START_APPLICATION: Word := 0xFFFF
  const CONTROL_PACKET: nat := 8

  // Device.

  /** The device: does its flash exceed 64 KB, where its boot section starts, RunBootloader, flash. */
  datatype Device = Device(far: bool, bootStart: nat, run: bool, flash: Flash)

  datatype Filled = Filled(flash: Flash, complete: bool)

  /** The page fill loop from its k-th word on; a host that stops sending leaves it waiting. */
  function FillPage(f: Flash, a: nat, out: OutPipe, k: nat): (r: Filled)
    requires f.Valid() && k <= f.page / 2
    ensures r.flash.Valid() && r.flash.page == f.page && r.flash.mem == f.mem
    decreases f.page / 2 - k
  {
    if k == f.page / 2 then Filled(f, true)
    else if out.Dry() then Filled(f, false)
    else FillPage(f.Fill(a + 2 * k, out.Ready().PeekWord()), a, out.Ready().DropWord(), k + 1)
  }

  function PageAddress(far: bool, word: Word): nat { if far then 0x100 * word else word }

  /** The SetReport handler, given the packets of the report. */
  function SetReport(d: Device, packets: seq<seq<Byte>>): (r: Device)
    requires d.flash.Valid()
    ensures r.flash.Valid()
  {
    if packets == [] then d
    else
      var out := OutPipe(packets[0], packets[1..]);
      var word := out.PeekWord();
      var address := PageAddress(d.far, word);
      if word == START_APPLICATION then d.(run := false)
      else if address < d.bootStart then
        var filled := FillPage(d.flash.Erase(address), address, out.DropWord(), 0);
        d.(flash := if filled.complete then filled.flash.Commit(address) else filled.flash)
      else d
  }

  // Host.

  /** The host's copy of the HEX file: the bytes, and which of them the file defined. */
  datatype Image = Image(bytes: seq<Byte>, mask: seq<bool>) {
    ghost predicate Valid() { |bytes| == MAX_MEMORY_SIZE && |mask| == MAX_MEMORY_SIZE }
  }

  /** ihex_bytes_within_range. */
  ghost predicate WithinRange(image: Image, begin: int, end: int)
    requires image.Valid()
  {
    && 0 <= begin < MAX_MEMORY_SIZE && 0 <= end < MAX_MEMORY_SIZE
    && exists i | begin <= i <= end :: image.mask[i]
  }

  /** ihex_get_data: blocks that reach the end of the image buffer come out blank. */
  function GetData(image: Image, addr: int, len: nat): (r: seq<Byte>)
    requires image.Valid()
    ensures |r| == len
  {
    if addr < 0 || addr + len >= MAX_MEMORY_SIZE then Blanks(len)
    else seq(len, i requires 0 <= i < len => if image.mask[addr + i] then image.bytes[addr + i] else BLANK)
  }

  /** The block at addr is sent; the first one always is. */
  ghost predicate IsSent(image: Image, addr: nat, block: nat)
    requires image.Valid()
  {
    addr == 0 || WithinRange(image, addr, addr + block - 1)
  }

  /** The two address bytes of a report. */
  function AddressWord(codeSize: nat, addr: nat): Word {
    if codeSize < 0x1_0000 then addr % 0x1_0000 else addr / 0x100 % 0x1_0000
  }

  function Report(image: Image, codeSize: nat, block: nat, addr: nat): (r: seq<Byte>)
    requires image.Valid()
    ensures |r| == block + 2
  {
    var w := AddressWord(codeSize, addr);
    [Low(w), High(w)] + GetData(image, addr, block)
  }

  /** A control transfer cuts its data into packets of eight bytes. */
  function Packets(data: seq<Byte>): seq<seq<Byte>>
    decreases |data|
  {
    if |data| <= CONTROL_PACKET then (if data == [] then [] else [data])
    else [data[..CONTROL_PACKET]] + Packets(data[CONTROL_PACKET..])
  }

  /** The programming loop of the host, from addr on. */
  ghost function ProgramFrom(d: Device, image: Image, codeSize: nat, block: nat, addr: nat): (r: Device)
    requires d.flash.Valid() && image.Valid() && block > 0
    ensures r.flash.Valid()
    decreases if addr < codeSize then codeSize - addr else 0
  {
    if addr >= codeSize then d
    else
      var e := if IsSent(image, addr, block) then SetReport(d, Packets(Report(image, codeSize, block, addr))) else d;
      ProgramFrom(e, image, codeSize, block, addr + block)
  }
}
