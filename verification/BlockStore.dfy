/** The virtual disk refines an ordinary store: a directory, and two files kept as arrays of sectors. Whatever
    a host reads and writes, moved files included, the disk on flash and EEPROM replies as that store does. */
module BlockStore {
  import opened Bytes
  import opened FlashMemory
  import opened VirtualDisk
  import Fat12

  /** The ordinary store. Block numbers have 16 bits, as in the firmware. */
  datatype Store = Store(
    flashFile: nat,
    eepromFile: nat,
    boot: seq<Byte>,
    directory: seq<Byte>,
    flash: seq<seq<Byte>>,
    eeprom: seq<seq<Byte>>)
  {
    ghost predicate Valid() {
      && |boot| == BOOT_SIZE && |directory| == DIRECTORY_SIZE
      && |flash| > 0 && |eeprom| > 0
    }

    /** The sector of FLASH.BIN that a block is, if any, as the directory places the file now. */
    ghost function FlashIndex(block: Word): Option<nat>
      requires Valid()
    {
      IndexIn(block, ClusterAt(directory, FLASH_CLUSTER_AT), |flash|)
    }

    ghost function EepromIndex(block: Word): Option<nat>
      requires Valid()
    {
      IndexIn(block, ClusterAt(directory, EEPROM_CLUSTER_AT), |eeprom|)
    }

    /** EEPROM.BIN hides FLASH.BIN where the directory places both. */
    ghost function Read(block: Word): seq<Byte>
      requires Valid()
    {
      if block < DATA_START_BLOCK then SystemBlock(boot, directory, flashFile, eepromFile, block)
      else if EepromIndex(block).Some? then eeprom[EepromIndex(block).value]
      else if FlashIndex(block).Some? then flash[FlashIndex(block).value]
      else Zeros(SECTOR_SIZE)
    }

    ghost function Write(block: Word, data: seq<Byte>): (r: Store)
      requires Valid() && |data| == SECTOR_SIZE
      ensures r.Valid() && r == this.(directory := r.directory, flash := r.flash, eeprom := r.eeprom)
      ensures |r.flash| == |flash| && |r.eeprom| == |eeprom|
    {
      if block == ROOT_BLOCK then this.(directory := data[..DIRECTORY_SIZE])
      else if block < DATA_START_BLOCK then this
      else this.(
        flash := if FlashIndex(block).Some? then flash[FlashIndex(block).value := data] else flash,
        eeprom := if EepromIndex(block).Some? then eeprom[EepromIndex(block).value := data] else eeprom)
    }
  }

  ghost function IndexIn(block: Word, cluster: Word, n: nat): (r: Option<nat>)
    requires n > 0
    ensures r.Some? ==> r.value < n
  {
    EndWithin(StartBlock(cluster), n);
    if InFile(block, cluster, n) then Some(block - StartBlock(cluster)) else None
  }

  /** The sector at index i of a memory. */
  ghost function SectorAt(mem: seq<Byte>, i: nat): (s: seq<Byte>)
    requires (i + 1) * SECTOR_SIZE <= |mem|
    ensures |s| == SECTOR_SIZE
  {
    mem[i * SECTOR_SIZE..(i + 1) * SECTOR_SIZE]
  }

  ghost function Sectors(mem: seq<Byte>, n: nat): (s: seq<seq<Byte>>)
    requires n * SECTOR_SIZE <= |mem|
    ensures |s| == n
  {
    seq(n, i requires 0 <= i < n => SectorAt(mem, i))
  }

  /** The store that a disk stands for. */
  ghost function StoreOf(d: Disk): (s: Store)
    requires d.Valid()
    ensures s.Valid() && |s.flash| == FileSectors(d.flashFile) && |s.eeprom| == FileSectors(d.eepromFile)
  {
    SomeSectors(d.flashFile);
    SomeSectors(d.eepromFile);
    Store(d.flashFile, d.eepromFile, d.boot, d.directory,
          Sectors(d.flash.mem, FileSectors(d.flashFile)), Sectors(d.eeprom, FileSectors(d.eepromFile)))
  }

  // Flash blocks.

  lemma SectorAligned(k: nat, page: nat)
    requires page == 128 || page == 256
    ensures Aligned(k * SECTOR_SIZE, page)
  {
    if page == 128 {
      Multiple128(4 * k);
    } else {
      Multiple256(2 * k);
    }
  }

  lemma Multiple128(q: nat)
    ensures (128 * q) % 128 == 0
  {
  }

  lemma Multiple256(q: nat)
    ensures (256 * q) % 256 == 0
  {
  }

  /** A block write to flash, continued from word k, completes the block. */
  lemma {:induction false} WriteFlashFrom(f: Flash, mem: seq<Byte>, a: nat, data: seq<Byte>, k: nat)
    requires f.Valid() && |data| == SECTOR_SIZE && k <= SECTOR_WORDS
    requires Writing(f, mem, a, data[..2 * k]) && a + SECTOR_SIZE <= |mem|
    ensures Writing(WriteFlash(f, a, data, k), mem, a, data)
    decreases SECTOR_WORDS - k
  {
    hide Writing, WriteWord, WriteFlash, Flash.Valid, Low, High, MakeWord;
    WriteFlashStep(f, a, data, k);
    if k == SECTOR_WORDS {
      assert data[..2 * k] == data;
    } else {
      var i := 2 * k;
      var w := MakeWord(data[i], data[i + 1]);
      WordBytes(data[i], data[i + 1]);
      WriteNext(f, mem, a, data[..i], w);
      assert data[..i] + [data[i], data[i + 1]] == data[..i + 2];
      WriteFlashFrom(WriteWord(f, a + i, w), mem, a, data, k + 1);
    }
  }

  lemma WriteFlashStep(f: Flash, a: nat, data: seq<Byte>, k: nat)
    requires f.Valid() && |data| == SECTOR_SIZE && k <= SECTOR_WORDS
    ensures WriteFlash(f, a, data, k) ==
      if k == SECTOR_WORDS then f
      else WriteFlash(WriteWord(f, a + 2 * k, MakeWord(data[2 * k], data[2 * k + 1])), a, data, k + 1)
  {
    hide WriteWord, MakeWord;
  }

  /** A block write to flash erases and programs exactly the pages of the block. */
  lemma WriteFlashBlockwise(f: Flash, a: nat, data: seq<Byte>)
    requires f.Valid() && f.Blank() && |data| == SECTOR_SIZE
    requires Aligned(a, f.page) && a + SECTOR_SIZE <= |f.mem|
    ensures WriteFlash(f, a, data, 0).mem == Overlay(f.mem, a, data, a + SECTOR_SIZE)
    ensures WriteFlash(f, a, data, 0).Blank()
  {
    hide WriteFlash, Overlay;
    NothingWritten(f, a);
    assert data[..0] == [];
    WriteFlashFrom(f, f.mem, a, data, 0);
    assert Aligned(SECTOR_SIZE, f.page);
  }

  /** Overwriting a sector changes that sector and no other. */
  lemma OverlaySector(mem: seq<Byte>, i: nat, data: seq<Byte>, n: nat)
    requires i < n && n * SECTOR_SIZE <= |mem| && |data| == SECTOR_SIZE
    ensures Sectors(Overlay(mem, i * SECTOR_SIZE, data, (i + 1) * SECTOR_SIZE), n) == Sectors(mem, n)[i := data]
    ensures SameFrom(mem, Overlay(mem, i * SECTOR_SIZE, data, (i + 1) * SECTOR_SIZE), n * SECTOR_SIZE)
  {
    var m := Overlay(mem, i * SECTOR_SIZE, data, (i + 1) * SECTOR_SIZE);
    forall j | 0 <= j < n
      ensures SectorAt(m, j) == if j == i then data else SectorAt(mem, j)
    {
      SectorsApart(i, j);
      SectorsApart(j, i);
    }
  }

  lemma SectorsApart(i: nat, j: nat)
    ensures i < j ==> (i + 1) * SECTOR_SIZE <= j * SECTOR_SIZE
  {
  }

  lemma SpliceSector(mem: seq<Byte>, i: nat, data: seq<Byte>, n: nat)
    requires i < n && n * SECTOR_SIZE <= |mem| && |data| == SECTOR_SIZE
    ensures Sectors(mem[..i * SECTOR_SIZE] + data + mem[(i + 1) * SECTOR_SIZE..], n) == Sectors(mem, n)[i := data]
  {
    var m := mem[..i * SECTOR_SIZE] + data + mem[(i + 1) * SECTOR_SIZE..];
    assert m == Overlay(mem, i * SECTOR_SIZE, data, (i + 1) * SECTOR_SIZE);
    OverlaySector(mem, i, data, n);
  }

  // One block.

  /** Which sector a file block is. */
  lemma FileIndex(block: Word, cluster: Word, size: nat)
    requires size > 0 && InFile(block, cluster, FileSectors(size))
    ensures FileSectors(size) > 0
    ensures IndexIn(block, cluster, FileSectors(size)) == Some(block - StartBlock(cluster))
  {
    hide StartBlock, EndBlock, FileSectors;
    SomeSectors(size);
  }

  /** Every block of the disk reads as in the store. */
  lemma ReadRefines(d: Disk, block: Word)
    requires d.Valid()
    ensures ReadBlock(d, block) == StoreOf(d).Read(block)
  {
    hide StartBlock, EndBlock, FileSectors, SystemBlock, Zeros;
    if InEepromFile(d, block) {
      FileIndex(block, d.EepromCluster(), d.eepromFile);
    }
    if InFlashFile(d, block) {
      FileIndex(block, d.FlashCluster(), d.flashFile);
    }
  }

  lemma FlashWriteRefines(d: Disk, block: Word, data: seq<Byte>)
    requires d.Valid() && d.flash.Blank() && |data| == SECTOR_SIZE
    ensures var e := WriteFlashBlock(d, block, data);
            var s := StoreOf(d);
            && e.flash.Blank()
            && SameFrom(d.flash.mem, e.flash.mem, FileSectors(d.flashFile) * SECTOR_SIZE)
            && StoreOf(e) ==
               s.(flash := if s.FlashIndex(block).Some? then s.flash[s.FlashIndex(block).value := data] else s.flash)
  {
    hide WriteFlash, StartBlock, EndBlock, Overlay, FileSectors, Offset, Sectors;
    if InFlashFile(d, block) {
      var i := block - StartBlock(d.FlashCluster());
      FileIndex(block, d.FlashCluster(), d.flashFile);
      FileAddress(block, d.FlashCluster(), d.flashFile);
      SectorAligned(i, d.flash.page);
      WriteFlashBlockwise(d.flash, i * SECTOR_SIZE, data);
      OverlaySector(d.flash.mem, i, data, FileSectors(d.flashFile));
    }
  }

  lemma EepromWriteRefines(d: Disk, block: Word, data: seq<Byte>)
    requires d.Valid() && |data| == SECTOR_SIZE
    ensures var e := WriteEepromBlock(d, block, data);
            var s := StoreOf(d);
            StoreOf(e) ==
            s.(eeprom := if s.EepromIndex(block).Some? then s.eeprom[s.EepromIndex(block).value := data] else s.eeprom)
  {
    hide StartBlock, EndBlock, FileSectors, Sectors;
    if InEepromFile(d, block) {
      var i := block - StartBlock(d.EepromCluster());
      FileIndex(block, d.EepromCluster(), d.eepromFile);
      FileAddress(block, d.EepromCluster(), d.eepromFile);
      SpliceSector(d.eeprom, i, data, FileSectors(d.eepromFile));
    }
  }

  /** What a write leaves as it was. */
  ghost predicate Kept(d: Disk, e: Disk) {
    && e.Valid() && e.flash.Blank()
    && e.flashFile == d.flashFile && e.eepromFile == d.eepromFile && e.boot == d.boot
    && SameFrom(d.flash.mem, e.flash.mem, FileSectors(d.flashFile) * SECTOR_SIZE)
  }

  /** A write to any block acts on the disk as on the store: boot and FAT blocks are ignored, the directory
      is replaced, and a data block goes to the sectors that the directory places there. Flash beyond the
      sectors of FLASH.BIN does not change. */
  lemma WriteRefines(d: Disk, block: Word, data: seq<Byte>)
    requires d.Valid() && d.flash.Blank() && |data| == SECTOR_SIZE
    ensures var e := WriteBlock(d, block, data);
            Kept(d, e) && StoreOf(e) == StoreOf(d).Write(block, data)
  {
    hide WriteFlashBlock, WriteEepromBlock, IndexIn, FileSectors, Sectors, ClusterAt;
    FlashWriteRefines(d, block, data);
    EepromWriteRefines(WriteFlashBlock(d, block, data), block, data);
  }

  // Sessions.

  lemma {:induction false} ReadBlocksRefine(d: Disk, address: nat, n: nat)
    requires d.Valid()
    ensures ReadBlocks(d, address, n) == StoreReads(StoreOf(d), address, n)
  {
    hide ReadBlock, Store.Read, BlockOf, FileSectors, Sectors;
    if n > 0 {
      ReadBlocksRefine(d, address, n - 1);
      ReadRefines(d, BlockOf(address, n - 1));
    }
  }

  ghost function StoreReads(s: Store, address: nat, n: nat): (r: seq<seq<Byte>>)
    requires s.Valid()
    ensures |r| == n
  {
    if n == 0 then [] else StoreReads(s, address, n - 1) + [s.Read(BlockOf(address, n - 1))]
  }

  ghost function StoreWrites(s: Store, address: nat, blocks: seq<seq<Byte>>): (r: Store)
    requires s.Valid() && forall i | 0 <= i < |blocks| :: |blocks[i]| == SECTOR_SIZE
    ensures r.Valid()
    decreases |blocks|
  {
    if blocks == [] then s
    else
      var n := |blocks| - 1;
      StoreWrites(s, address, blocks[..n]).Write(BlockOf(address, n), blocks[n])
  }

  lemma {:induction false} WriteBlocksRefine(d: Disk, address: nat, blocks: seq<seq<Byte>>)
    requires d.Valid() && d.flash.Blank() && forall i | 0 <= i < |blocks| :: |blocks[i]| == SECTOR_SIZE
    ensures var e := WriteBlocks(d, address, blocks);
            Kept(d, e) && StoreOf(e) == StoreWrites(StoreOf(d), address, blocks)
    decreases |blocks|
  {
    hide WriteBlock, Store.Write, BlockOf, FileSectors, Sectors, StoreOf;
    if blocks != [] {
      var n := |blocks| - 1;
      WriteBlocksRefine(d, address, blocks[..n]);
      WriteRefines(WriteBlocks(d, address, blocks[..n]), BlockOf(address, n), blocks[n]);
    }
  }

  /** A READ(10) or WRITE(10) on the store. */
  ghost function StoreExecute(s: Store, c: Command): (r: (Store, Reply))
    requires s.Valid() && WellFormed(c)
    ensures r.0.Valid()
  {
    if c.address % 0x1_0000 >= |s.flash| + |s.eeprom| + 32 then (s, Failed)
    else if c.Read10? then (s, Data(StoreReads(s, c.address, c.total)))
    else (StoreWrites(s, c.address, c.blocks), Written)
  }

  lemma CommandRefines(d: Disk, c: Command)
    requires d.Valid() && d.flash.Blank() && WellFormed(c)
    ensures var (e, reply) := Execute(d, c);
            Kept(d, e) && (StoreOf(e), reply) == StoreExecute(StoreOf(d), c)
  {
    hide ReadBlocks, WriteBlocks, StoreReads, StoreWrites, FileSectors, Sectors;
    if c.Read10? {
      ReadBlocksRefine(d, c.address, c.total);
    } else {
      WriteBlocksRefine(d, c.address, c.blocks);
    }
  }

  /** A session on the disk. */
  function Session(d: Disk, cs: seq<Command>): (r: (Disk, seq<Reply>))
    requires d.Valid() && forall i | 0 <= i < |cs| :: WellFormed(cs[i])
    ensures r.0.Valid()
    decreases |cs|
  {
    if cs == [] then (d, [])
    else
      var (e, replies) := Session(d, cs[..|cs| - 1]);
      var (f, reply) := Execute(e, cs[|cs| - 1]);
      (f, replies + [reply])
  }

  lemma SessionNext(d: Disk, cs: seq<Command>, c: Command)
    requires d.Valid() && WellFormed(c) && forall i | 0 <= i < |cs| :: WellFormed(cs[i])
    ensures var (e, replies) := Session(d, cs);
            Session(d, cs + [c]) == (Execute(e, c).0, replies + [Execute(e, c).1])
  {
    hide Execute, Disk.Valid;
    assert (cs + [c])[..|cs|] == cs;
  }

  /** The same session on the store. */
  ghost function StoreSession(s: Store, cs: seq<Command>): (r: (Store, seq<Reply>))
    requires s.Valid() && forall i | 0 <= i < |cs| :: WellFormed(cs[i])
    ensures r.0.Valid()
    decreases |cs|
  {
    if cs == [] then (s, [])
    else
      var (t, replies) := StoreSession(s, cs[..|cs| - 1]);
      var (u, reply) := StoreExecute(t, cs[|cs| - 1]);
      (u, replies + [reply])
  }

  /** Refinement: every session of READ(10) and WRITE(10) commands, directory writes that move or overlap
      the files included, gets from the disk the replies of the store; flash beyond the sectors of FLASH.BIN
      never changes. */
  lemma {:induction false} SessionRefines(d: Disk, cs: seq<Command>)
    requires d.Valid() && d.flash.Blank()
    requires forall i | 0 <= i < |cs| :: WellFormed(cs[i])
    ensures var (e, replies) := Session(d, cs);
            Kept(d, e) && (StoreOf(e), replies) == StoreSession(StoreOf(d), cs)
    decreases |cs|
  {
    hide Execute, StoreExecute, StoreOf, FileSectors, WellFormed;
    if cs != [] {
      var front := cs[..|cs| - 1];
      SessionRefines(d, front);
      CommandRefines(Session(d, front).0, cs[|cs| - 1]);
    }
  }

  // What was written last.

  /** The write of one block. */
  datatype Write = Write(block: Word, data: seq<Byte>)

  /** Blocks written one after the other, on the disk and on the store. */
  ghost function WriteAll(d: Disk, ws: seq<Write>): (r: Disk)
    requires d.Valid() && forall i | 0 <= i < |ws| :: |ws[i].data| == SECTOR_SIZE
    ensures r.Valid()
    decreases |ws|
  {
    if ws == [] then d else WriteAll(WriteBlock(d, ws[0].block, ws[0].data), ws[1..])
  }

  ghost function StoreAll(s: Store, ws: seq<Write>): (r: Store)
    requires s.Valid() && forall i | 0 <= i < |ws| :: |ws[i].data| == SECTOR_SIZE
    ensures r.Valid() && r.boot == s.boot && |r.flash| == |s.flash| && |r.eeprom| == |s.eeprom|
    ensures r.flashFile == s.flashFile && r.eepromFile == s.eepromFile
    decreases |ws|
  {
    if ws == [] then s else StoreAll(s.Write(ws[0].block, ws[0].data), ws[1..])
  }

  lemma {:induction false} WriteAllRefines(d: Disk, ws: seq<Write>)
    requires d.Valid() && d.flash.Blank() && forall i | 0 <= i < |ws| :: |ws[i].data| == SECTOR_SIZE
    ensures StoreOf(WriteAll(d, ws)) == StoreAll(StoreOf(d), ws)
    decreases |ws|
  {
    hide WriteBlock, Store.Write, StoreOf, FileSectors;
    if ws != [] {
      WriteRefines(d, ws[0].block, ws[0].data);
      WriteAllRefines(WriteBlock(d, ws[0].block, ws[0].data), ws[1..]);
    }
  }

  /** The write reaches sector i of the file, wherever the directory has placed it by then. */
  ghost predicate Reaches(s: Store, w: Write, i: nat, inFlash: bool)
    requires s.Valid()
  {
    w.block >= DATA_START_BLOCK && (if inFlash then s.FlashIndex(w.block) else s.EepromIndex(w.block)) == Some(i)
  }

  /** None of the writes reaches the sector. */
  ghost predicate NoneReaches(s: Store, ws: seq<Write>, i: nat, inFlash: bool)
    requires s.Valid() && forall k | 0 <= k < |ws| :: |ws[k].data| == SECTOR_SIZE
    decreases |ws|
  {
    ws == [] ||
    (!Reaches(s, ws[0], i, inFlash) && NoneReaches(s.Write(ws[0].block, ws[0].data), ws[1..], i, inFlash))
  }

  ghost function SectorOf(s: Store, i: nat, inFlash: bool): seq<Byte>
    requires s.Valid() && i < if inFlash then |s.flash| else |s.eeprom|
  {
    if inFlash then s.flash[i] else s.eeprom[i]
  }

  lemma WriteSector(s: Store, w: Write, i: nat, inFlash: bool)
    requires s.Valid() && |w.data| == SECTOR_SIZE && i < if inFlash then |s.flash| else |s.eeprom|
    ensures SectorOf(s.Write(w.block, w.data), i, inFlash) ==
            if Reaches(s, w, i, inFlash) then w.data else SectorOf(s, i, inFlash)
  {
    hide IndexIn, ClusterAt;
  }

  lemma {:induction false} UnreachedKeeps(s: Store, ws: seq<Write>, i: nat, inFlash: bool)
    requires s.Valid() && (forall k | 0 <= k < |ws| :: |ws[k].data| == SECTOR_SIZE)
    requires (i < if inFlash then |s.flash| else |s.eeprom|) && NoneReaches(s, ws, i, inFlash)
    ensures SectorOf(StoreAll(s, ws), i, inFlash) == SectorOf(s, i, inFlash)
    decreases |ws|
  {
    hide Store.Write, Reaches, Store.Valid;
    if ws != [] {
      WriteSector(s, ws[0], i, inFlash);
      UnreachedKeeps(s.Write(ws[0].block, ws[0].data), ws[1..], i, inFlash);
    }
  }

  /** Block b shows sector i of the file. */
  ghost predicate Shows(s: Store, b: Word, i: nat, inFlash: bool)
    requires s.Valid()
  {
    && b >= DATA_START_BLOCK
    && if inFlash then s.FlashIndex(b) == Some(i) && s.EepromIndex(b) == None else s.EepromIndex(b) == Some(i)
  }

  /** The last write to a sector is what a block that shows the sector reads, also when the directory has
      moved the file between the write and the read. */
  lemma ReadsLastWritten(d: Disk, w: Write, ws: seq<Write>, i: nat, inFlash: bool, b: Word)
    requires d.Valid() && d.flash.Blank() && |w.data| == SECTOR_SIZE
    requires forall k | 0 <= k < |ws| :: |ws[k].data| == SECTOR_SIZE
    requires Reaches(StoreOf(d), w, i, inFlash)
    requires NoneReaches(StoreOf(d).Write(w.block, w.data), ws, i, inFlash)
    ensures var e := WriteAll(WriteBlock(d, w.block, w.data), ws);
            Shows(StoreOf(e), b, i, inFlash) ==> ReadBlock(e, b) == w.data
  {
    hide WriteBlock, Store.Write, StoreOf, FileSectors, WriteAll, StoreAll, NoneReaches, IndexIn, ReadBlock;
    var s := StoreOf(d);
    var d' := WriteBlock(d, w.block, w.data);
    WriteRefines(d, w.block, w.data);
    WriteAllRefines(d', ws);
    WriteSector(s, w, i, inFlash);
    UnreachedKeeps(s.Write(w.block, w.data), ws, i, inFlash);
    ReadRefines(WriteAll(d', ws), b);
  }

  /** Moving a file moves its contents: block b shows after the directory write what block a of the same
      sector showed before. */
  lemma MovedFileReadsSame(d: Disk, data: seq<Byte>, i: nat, inFlash: bool, a: Word, b: Word)
    requires d.Valid() && d.flash.Blank() && |data| == SECTOR_SIZE
    ensures var e := WriteBlock(d, ROOT_BLOCK, data);
            Shows(StoreOf(d), a, i, inFlash) && Shows(StoreOf(e), b, i, inFlash) ==> ReadBlock(e, b) == ReadBlock(d, a)
  {
    hide WriteBlock, StoreOf, FileSectors, IndexIn, ReadBlock;
    WriteRefines(d, ROOT_BLOCK, data);
    ReadRefines(d, a);
    ReadRefines(WriteBlock(d, ROOT_BLOCK, data), b);
  }

  // What writes cannot change.

  /** The directory block leaves the files where they are. */
  ghost predicate KeepsLayout(directory: seq<Byte>, w: Write)
    requires |directory| == DIRECTORY_SIZE && |w.data| == SECTOR_SIZE
  {
    w.block == ROOT_BLOCK ==> SamePlaces(directory, w.data[..DIRECTORY_SIZE])
  }

  ghost predicate SamePlaces(a: seq<Byte>, b: seq<Byte>)
    requires |a| == DIRECTORY_SIZE && |b| == DIRECTORY_SIZE
  {
    && ClusterAt(a, FLASH_CLUSTER_AT) == ClusterAt(b, FLASH_CLUSTER_AT)
    && ClusterAt(a, EEPROM_CLUSTER_AT) == ClusterAt(b, EEPROM_CLUSTER_AT)
  }

  lemma {:induction false} PlacesStay(s: Store, ws: seq<Write>)
    requires s.Valid() && (forall i | 0 <= i < |ws| :: |ws[i].data| == SECTOR_SIZE)
    requires forall i | 0 <= i < |ws| :: KeepsLayout(s.directory, ws[i])
    ensures SamePlaces(s.directory, StoreAll(s, ws).directory)
    decreases |ws|
  {
    hide ClusterAt, IndexIn;
    if ws != [] {
      var t := s.Write(ws[0].block, ws[0].data);
      forall i | 0 <= i < |ws[1..]| ensures KeepsLayout(t.directory, ws[1..][i]) {
        assert KeepsLayout(s.directory, ws[i + 1]) && KeepsLayout(s.directory, ws[0]);
      }
      PlacesStay(t, ws[1..]);
    }
  }

  /** Whatever is written, the boot block reads the same; and if no directory write moves a file, so do the
      FAT blocks, and every data block outside both files reads zeros. */
  lemma SystemBlocksStay(d: Disk, ws: seq<Write>, b: Word)
    requires d.Valid() && d.flash.Blank() && forall i | 0 <= i < |ws| :: |ws[i].data| == SECTOR_SIZE
    ensures ReadBlock(WriteAll(d, ws), BOOT_BLOCK) == ReadBlock(d, BOOT_BLOCK)
    ensures (forall i | 0 <= i < |ws| :: KeepsLayout(d.directory, ws[i])) ==>
      && ReadBlock(WriteAll(d, ws), FAT_BLOCK_1) == ReadBlock(d, FAT_BLOCK_1)
      && ReadBlock(WriteAll(d, ws), FAT_BLOCK_2) == ReadBlock(d, FAT_BLOCK_2)
      && (b >= DATA_START_BLOCK && !InFlashFile(d, b) && !InEepromFile(d, b) ==>
            ReadBlock(WriteAll(d, ws), b) == Zeros(SECTOR_SIZE))
  {
    hide WriteAll, StoreAll, FileSectors, Fat12.FatTable, Zeros, Sectors, ClusterAt, KeepsLayout, ReadBlock, InFile;
    var e := WriteAll(d, ws);
    WriteAllRefines(d, ws);
    ReadRefines(e, BOOT_BLOCK);
    ReadRefines(d, BOOT_BLOCK);
    if forall i | 0 <= i < |ws| :: KeepsLayout(d.directory, ws[i]) {
      PlacesStay(StoreOf(d), ws);
      ReadRefines(e, FAT_BLOCK_1);
      ReadRefines(d, FAT_BLOCK_1);
      ReadRefines(e, FAT_BLOCK_2);
      ReadRefines(d, FAT_BLOCK_2);
      ReadRefines(e, b);
      SomeSectors(d.flashFile);
      SomeSectors(d.eepromFile);
    }
  }

  // The range check.

  /** Some block of the command lies outside the medium. */
  ghost predicate Outside(d: Disk, address: nat, total: nat) {
    exists b | address <= b < address + total :: OffMedium(d, b)
  }

  ghost predicate OffMedium(d: Disk, block: nat) { block >= d.MediaBlocks() }

  /** The number of blocks of a command. */
  ghost function BlockCount(c: Command): nat { if c.Read10? then c.total else |c.blocks| }

  /** The firmware looks at the low 16 bits of the address and never at the number of blocks. It refuses
      exactly the commands with a block outside the medium if and only if the command ends on the medium,
      or its low 16 address bits are off the medium and it has a block at all. */
  lemma RangeCheck(d: Disk, c: Command)
    requires d.Valid() && WellFormed(c)
    ensures var low, n := c.address % 0x1_0000, BlockCount(c);
            (Execute(d, c).1 == Failed <==> Outside(d, c.address, n))
            <==> if low >= d.MediaBlocks() then n > 0 else n == 0 || c.address + n <= d.MediaBlocks()
  {
    hide ReadBlocks, WriteBlocks, FileSectors, Disk.MediaBlocks;
    var n := BlockCount(c);
    Truncation(c.address);
    assert n > 0 ==> (OffMedium(d, c.address + n - 1) <==> c.address + n > d.MediaBlocks());
  }

  lemma Truncation(a: nat)
    ensures a % 0x1_0000 <= a
  {
  }

  /** Two commands that run off the medium and are not refused: one by its length, one by its address. */
  lemma {:induction false} RangeCheckMisses(d: Disk)
    requires d.Valid() && d.MediaBlocks() <= 0x1_0000
    ensures var last := d.MediaBlocks() - 1;
            && Outside(d, last, 2) && Execute(d, Read10(last, 2)).1 != Failed
            && Outside(d, 0x1_0000, 1) && Execute(d, Read10(0x1_0000, 1)).1 == Data([ReadBlock(d, BOOT_BLOCK)])
  {
    hide ReadBlock, FileSectors;
    var last := d.MediaBlocks() - 1;
    assert OffMedium(d, last + 1) && OffMedium(d, 0x1_0000);
    assert ReadBlocks(d, 0x1_0000, 1) == ReadBlocks(d, 0x1_0000, 0) + [ReadBlock(d, BlockOf(0x1_0000, 0))];
  }

  // Layout.

  /** A file that lies within the 16-bit block numbers and behind the reserved clusters. */
  ghost predicate Placed(cluster: Word, size: nat) {
    2 <= cluster && size > 0 && DATA_START_BLOCK + (cluster - 2) * SECTORS_PER_CLUSTER + FileSectors(size) <= 0x1_0000
  }

  /** The blocks of a placed file, without the 16-bit reduction. */
  lemma PlacedBlocks(cluster: Word, size: nat, b: Word)
    requires Placed(cluster, size)
    ensures var first := DATA_START_BLOCK + (cluster - 2) * SECTORS_PER_CLUSTER;
            InFile(b, cluster, FileSectors(size)) <==> first <= b < first + FileSectors(size)
  {
    hide FileSectors;
    SomeSectors(size);
    var first := DATA_START_BLOCK + (cluster - 2) * SECTORS_PER_CLUSTER;
    assert first % 0x1_0000 == first;
    EndWithin(first, FileSectors(size));
  }

  lemma ClustersHoldSectors(size: nat)
    ensures FileSectors(size) <= SECTORS_PER_CLUSTER * FileClusters(size)
  {
    var q, r := size / 2048, size % 2048;
    assert size == 512 * (4 * q) + r;
    assert size / 512 == 4 * q + r / 512 && size % 512 == r % 512;
  }

  /** No block belongs to both files. */
  ghost predicate FilesDisjoint(d: Disk)
    requires d.Valid()
  {
    forall b: Word :: !(InFlashFile(d, b) && InEepromFile(d, b))
  }

  /** The layout the directory starts with: EEPROM.BIN right behind FLASH.BIN. */
  lemma DefaultLayoutIsDisjoint(d: Disk)
    requires d.Valid() && d.FlashCluster() == 2 && d.EepromCluster() == 2 + FileClusters(d.flashFile)
    requires Placed(d.FlashCluster(), d.flashFile) && Placed(d.EepromCluster(), d.eepromFile)
    ensures FilesDisjoint(d)
  {
    hide FileSectors, FileClusters, InFile, Placed;
    ClustersHoldSectors(d.flashFile);
    forall b: Word ensures !(InFlashFile(d, b) && InEepromFile(d, b)) {
      PlacedBlocks(d.FlashCluster(), d.flashFile, b);
      PlacedBlocks(d.EepromCluster(), d.eepromFile, b);
    }
  }

  /** The FAT block, read from the disk: both chains link exactly the clusters of their file, unless
      EEPROM.BIN was moved to end on the even cluster just before FLASH.BIN. */
  lemma FatBlockDecodes(d: Disk, block: Word)
    requires d.Valid() && (block == FAT_BLOCK_1 || block == FAT_BLOCK_2)
    requires var f, n := d.FlashCluster(), FileClusters(d.flashFile);
             var e, m := d.EepromCluster(), FileClusters(d.eepromFile);
             && 2 <= f && 2 <= e && f + n <= Fat12.LAST_INDEX + 1 && e + m <= Fat12.LAST_INDEX + 1
             && (f + n <= e || e + m <= f)
    ensures var t := ReadBlock(d, block);
            var f, n := d.FlashCluster(), FileClusters(d.flashFile);
            var e, m := d.EepromCluster(), FileClusters(d.eepromFile);
            && Fat12.Entry(t, 0) == Fat12.MEDIA_ENTRY && Fat12.Entry(t, 1) == Fat12.END_OF_CHAIN
            && Fat12.IsChain(t, e, m)
            && (Fat12.IsChain(t, f, n) <==> !(e + m == f && f % 2 == 1 && n > 1))
  {
    hide FileClusters, Fat12.FatTable, Fat12.Entry, Fat12.IsChain;
    SomeClusters(d.flashFile);
    SomeClusters(d.eepromFile);
    Fat12.FatDecodes(d.FlashCluster(), FileClusters(d.flashFile), d.EepromCluster(), FileClusters(d.eepromFile));
    SmallByte(FileClusters(d.flashFile));
    SmallByte(FileClusters(d.eepromFile));
  }

  lemma SomeClusters(size: nat)
    requires size > 0
    ensures FileClusters(size) > 0
  {
  }

  lemma SmallByte(n: nat)
    ensures n < 0x100 ==> n % 0x100 == n
  {
  }

  /** Every block of a file lies in a cluster of its chain. */
  lemma ChainCoversFile(cluster: Word, size: nat, b: Word)
    requires Placed(cluster, size) && InFile(b, cluster, FileSectors(size))
    ensures cluster <= (b - DATA_START_BLOCK) / SECTORS_PER_CLUSTER + 2 < cluster + FileClusters(size)
  {
    hide FileSectors, FileClusters, InFile;
    PlacedBlocks(cluster, size, b);
    ClustersHoldSectors(size);
  }
}
