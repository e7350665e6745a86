/** The virtual FAT12 disk of the mass-storage boot loader: synthesised boot, FAT and directory
    blocks, and file blocks mapped onto flash and EEPROM. The class in VirtualFat.dfy is the
    imperative form. */
module VirtualDisk {
  import opened Bytes
  import opened FlashMemory
  import Fat12

  const SECTOR_SIZE: nat := 512
  const SECTOR_WORDS: nat := 256
  const SECTORS_PER_CLUSTER: nat := 4
  const CLUSTER_SIZE: nat := SECTORS_PER_CLUSTER * SECTOR_SIZE
  const BOOT_BLOCK: Word := 0
  const FAT_BLOCK_1: Word := 1
  const FAT_BLOCK_2: Word := 2
  const ROOT_BLOCK: Word := 3
  const DATA_START_BLOCK: Word := 4
  const BOOT_SIZE: nat := 62
  const DIRECTORY_SIZE: nat := 160

  /** Offsets of the two files' StartingCluster fields in the directory. */
  const FLASH_CLUSTER_AT: nat := 90
  const EEPROM_CLUSTER_AT: nat := 154

  function FileSectors(size: nat): nat { size / SECTOR_SIZE + if size % SECTOR_SIZE != 0 then 1 else 0 }

  function FileClusters(size: nat): nat { size / CLUSTER_SIZE + if size % CLUSTER_SIZE != 0 then 1 else 0 }

  /** A StartingCluster field of the directory. */
  function ClusterAt(directory: seq<Byte>, at: nat): Word
    requires at + 1 < |directory|
  {
    MakeWord(directory[at], directory[at + 1])
  }

  /** The disk: sizes of the two files, boot sector and directory as bytes, and the memories. */
  datatype Disk = Disk(
    flashFile: nat,
    eepromFile: nat,
    boot: seq<Byte>,
    directory: seq<Byte>,
    flash: Flash,
    eeprom: seq<Byte>)
  {
    /** The memories hold all sectors of their files. */
    ghost predicate Valid() {
      && |boot| == BOOT_SIZE && |directory| == DIRECTORY_SIZE
      && flashFile > 0 && eepromFile > 0
      && flash.Valid()
      && FileSectors(flashFile) * SECTOR_SIZE <= |flash.mem|
      && FileSectors(eepromFile) * SECTOR_SIZE <= |eeprom|
    }

    function FlashCluster(): Word
      requires |directory| == DIRECTORY_SIZE
    {
      ClusterAt(directory, FLASH_CLUSTER_AT)
    }

    function EepromCluster(): Word
      requires |directory| == DIRECTORY_SIZE
    {
      ClusterAt(directory, EEPROM_CLUSTER_AT)
    }

    /** LUN_MEDIA_BLOCKS. */
    function MediaBlocks(): nat { FileSectors(flashFile) + FileSectors(eepromFile) + 32 }
  }

  /** First and last block of a file, in the firmware's 16-bit arithmetic. */
  function StartBlock(cluster: Word): Word {
    (DATA_START_BLOCK + (cluster - 2) * SECTORS_PER_CLUSTER) % 0x1_0000
  }

  function EndBlock(cluster: Word, sectors: nat): Word {
    (StartBlock(cluster) + sectors - 1) % 0x1_0000
  }

  predicate InFile(block: Word, cluster: Word, sectors: nat) {
    StartBlock(cluster) <= block <= EndBlock(cluster, sectors)
  }

  /** Writes a block to flash, from its k-th word on. */
  function WriteFlash(f: Flash, a: nat, data: seq<Byte>, k: nat): (r: Flash)
    requires f.Valid() && |data| == SECTOR_SIZE && k <= SECTOR_WORDS
    ensures r.Valid() && r.page == f.page && |r.mem| == |f.mem|
    decreases SECTOR_WORDS - k
  {
    if k == SECTOR_WORDS then f
    else WriteFlash(WriteWord(f, a + 2 * k, MakeWord(data[2 * k], data[2 * k + 1])), a, data, k + 1)
  }

  function FlashAddress(d: Disk, block: Word): nat
    requires d.Valid() && InFlashFile(d, block)
  {
    (block - StartBlock(d.FlashCluster())) * SECTOR_SIZE
  }

  function EepromAddress(d: Disk, block: Word): nat
    requires d.Valid() && InEepromFile(d, block)
  {
    (block - StartBlock(d.EepromCluster())) * SECTOR_SIZE
  }

  /** Addresses of a file's blocks stay inside its sectors. */
  lemma FileAddress(block: Word, cluster: Word, size: nat)
    requires size > 0 && InFile(block, cluster, FileSectors(size))
    ensures (block - StartBlock(cluster)) * SECTOR_SIZE + SECTOR_SIZE <= FileSectors(size) * SECTOR_SIZE
  {
    hide StartBlock, FileSectors;
    SomeSectors(size);
    EndWithin(StartBlock(cluster), FileSectors(size));
  }

  lemma SomeSectors(size: nat)
    requires size > 0
    ensures FileSectors(size) > 0
  {
  }

  lemma EndWithin(start: Word, sectors: nat)
    requires sectors > 0
    ensures (start + sectors - 1) % 0x1_0000 <= start + sectors - 1
    ensures start + sectors <= 0x1_0000 ==> (start + sectors - 1) % 0x1_0000 == start + sectors - 1
  {
  }

  function Zeros(n: nat): (s: seq<Byte>)
    ensures |s| == n
  {
    seq(n, _ => 0)
  }

  predicate InFlashFile(d: Disk, block: Word)
    requires d.Valid()
  {
    InFile(block, d.FlashCluster(), FileSectors(d.flashFile))
  }

  predicate InEepromFile(d: Disk, block: Word)
    requires d.Valid()
  {
    InFile(block, d.EepromCluster(), FileSectors(d.eepromFile))
  }

  /** ReadWriteFLASHFileBlock, reading. */
  function FlashSector(d: Disk, block: Word): (r: seq<Byte>)
    requires d.Valid() && InFlashFile(d, block)
    ensures |r| == SECTOR_SIZE
  {
    FileAddress(block, d.FlashCluster(), d.flashFile);
    d.flash.mem[FlashAddress(d, block)..FlashAddress(d, block) + SECTOR_SIZE]
  }

  /** ReadWriteEEPROMFileBlock, reading. */
  function EepromSector(d: Disk, block: Word): (r: seq<Byte>)
    requires d.Valid() && InEepromFile(d, block)
    ensures |r| == SECTOR_SIZE
  {
    FileAddress(block, d.EepromCluster(), d.eepromFile);
    d.eeprom[EepromAddress(d, block)..EepromAddress(d, block) + SECTOR_SIZE]
  }

  /** The boot block, the two copies of the FAT and the directory block. */
  function SystemBlock(boot: seq<Byte>, directory: seq<Byte>, flashFile: nat, eepromFile: nat,
                       block: Word): (r: seq<Byte>)
    requires |boot| == BOOT_SIZE && |directory| == DIRECTORY_SIZE && block < DATA_START_BLOCK
    ensures |r| == SECTOR_SIZE
  {
    if block == BOOT_BLOCK then boot + Zeros(SECTOR_SIZE - BOOT_SIZE - 2) + [0x55, 0xAA]
    else if block == ROOT_BLOCK then directory + Zeros(SECTOR_SIZE - DIRECTORY_SIZE)
    else
      Fat12.FatTable(ClusterAt(directory, FLASH_CLUSTER_AT), FileClusters(flashFile) % 0x100,
                     ClusterAt(directory, EEPROM_CLUSTER_AT), FileClusters(eepromFile) % 0x100)
  }

  /** VirtualFAT_ReadBlock. */
  function ReadBlock(d: Disk, block: Word): (r: seq<Byte>)
    requires d.Valid()
    ensures |r| == SECTOR_SIZE
  {
    if block < DATA_START_BLOCK then SystemBlock(d.boot, d.directory, d.flashFile, d.eepromFile, block)
    else if InEepromFile(d, block) then EepromSector(d, block)
    else if InFlashFile(d, block) then FlashSector(d, block)
    else Zeros(SECTOR_SIZE)
  }

  /** ReadWriteFLASHFileBlock, writing. */
  function WriteFlashBlock(d: Disk, block: Word, data: seq<Byte>): (r: Disk)
    requires d.Valid() && |data| == SECTOR_SIZE
    ensures r.Valid() && r == d.(flash := r.flash)
  {
    if InFlashFile(d, block) then
      d.(flash := WriteFlash(d.flash, FlashAddress(d, block), data, 0))
    else d
  }

  /** ReadWriteEEPROMFileBlock, writing. */
  function WriteEepromBlock(d: Disk, block: Word, data: seq<Byte>): (r: Disk)
    requires d.Valid() && |data| == SECTOR_SIZE
    ensures r.Valid() && r == d.(eeprom := r.eeprom)
  {
    if InEepromFile(d, block) then
      FileAddress(block, d.EepromCluster(), d.eepromFile);
      var a := EepromAddress(d, block);
      d.(eeprom := d.eeprom[..a] + data + d.eeprom[a + SECTOR_SIZE..])
    else d
  }

  /** VirtualFAT_WriteBlock. */
  function WriteBlock(d: Disk, block: Word, data: seq<Byte>): (r: Disk)
    requires d.Valid() && |data| == SECTOR_SIZE
    ensures r.Valid()
  {
    if block == BOOT_BLOCK || block == FAT_BLOCK_1 || block == FAT_BLOCK_2 then d
    else if block == ROOT_BLOCK then d.(directory := data[..DIRECTORY_SIZE])
    else WriteEepromBlock(WriteFlashBlock(d, block, data), block, data)
  }

  /** A READ(10) or WRITE(10) command, with the 32-bit block address the host gives. */
  datatype Command = Read10(address: nat, total: Word) | Write10(address: nat, blocks: seq<seq<Byte>>)

  datatype Reply = Failed | Written | Data(blocks: seq<seq<Byte>>)

  ghost predicate WellFormed(c: Command) {
    c.Write10? ==> |c.blocks| < 0x1_0000 && forall i | 0 <= i < |c.blocks| :: |c.blocks[i]| == SECTOR_SIZE
  }

  /** The firmware keeps the low 16 bits of the address. */
  function BlockOf(address: nat, i: nat): Word { (address % 0x1_0000 + i) % 0x1_0000 }

  function ReadBlocks(d: Disk, address: nat, n: nat): (r: seq<seq<Byte>>)
    requires d.Valid()
    ensures |r| == n
  {
    if n == 0 then [] else ReadBlocks(d, address, n - 1) + [ReadBlock(d, BlockOf(address, n - 1))]
  }

  function WriteBlocks(d: Disk, address: nat, blocks: seq<seq<Byte>>): (r: Disk)
    requires d.Valid() && forall i | 0 <= i < |blocks| :: |blocks[i]| == SECTOR_SIZE
    ensures r.Valid()
    decreases |blocks|
  {
    if blocks == [] then d
    else
      var n := |blocks| - 1;
      WriteBlock(WriteBlocks(d, address, blocks[..n]), BlockOf(address, n), blocks[n])
  }

  /** SCSI_Command_ReadWrite_10. */
  function Execute(d: Disk, c: Command): (r: (Disk, Reply))
    requires d.Valid() && WellFormed(c)
    ensures r.0.Valid() && (c.Read10? ==> r.0 == d)
  {
    if c.address % 0x1_0000 >= d.MediaBlocks() then (d, Failed)
    else if c.Read10? then (d, Data(ReadBlocks(d, c.address, c.total)))
    else (WriteBlocks(d, c.address, c.blocks), Written)
  }
}
