/** The virtual FAT12 disk in the form of its source: block buffers filled in place, loops over
    words, bytes, clusters and blocks, and the directory as a global. */
module VirtualFat {
  import opened Bytes
  import opened FlashMemory
  import opened M = VirtualDisk
  import Fat12
  import B = BlockStore

  /** UpdateFAT12ClusterEntry. */
  method UpdateClusterEntry(table: array<Byte>, index: Word, entry: Word)
    requires table.Length == Fat12.TABLE_SIZE
    modifies table
    ensures table[..] == Fat12.SetEntry(old(table[..]), index, entry)
  {
    hide Or, And;
    var offset := Fat12.TableOffset(index);
    if index % 2 != 0 {
      table[offset] := Or(And(table[offset], 0x0F), And(entry, 0x0F) * 16) % 0x100;
      table[offset + 1] := entry / 16 % 0x100;
    } else {
      table[offset] := entry % 0x100;
      table[offset + 1] := Or(And(table[offset], 0xF0), entry / 0x100) % 0x100;
    }
  }

  /** UpdateFAT12ClusterChain. */
  method UpdateClusterChain(table: array<Byte>, start: Word, length: Byte)
    requires table.Length == Fat12.TABLE_SIZE
    modifies table
    ensures table[..] == Fat12.SetChain(old(table[..]), start, length, length)
  {
    hide Fat12.SetEntry;
    var i := 0;
    while i < length
      invariant 0 <= i <= length
      invariant table[..] == Fat12.SetChain(old(table[..]), start, length, i)
    {
      var current: Word := (start + i) % 0x1_0000;
      var next: Word := (start + i + 1) % 0x1_0000;
      if i == length - 1 {
        next := Fat12.END_OF_CHAIN;
      }
      UpdateClusterEntry(table, current, next);
      i := i + 1;
    }
  }

  class Drive {
    const flashFile: nat
    const eepromFile: nat
    const boot: seq<Byte>
    var directory: seq<Byte>
    var flash: Flash
    var eeprom: seq<Byte>

    ghost function Value(): Disk
      reads this
    {
      Disk(flashFile, eepromFile, boot, directory, flash, eeprom)
    }

    ghost predicate Valid()
      reads this
    {
      Value().Valid()
    }

    constructor (d: Disk)
      requires d.Valid()
      ensures Valid() && Value() == d
    {
      flashFile, eepromFile, boot := d.flashFile, d.eepromFile, d.boot;
      directory, flash, eeprom := d.directory, d.flash, d.eeprom;
    }

    method ReadFlashBlock(block: Word, buffer: array<Byte>)
      requires Valid() && buffer.Length == SECTOR_SIZE
      modifies buffer
      ensures buffer[..] == if InFlashFile(Value(), block) then FlashSector(Value(), block) else old(buffer[..])
    {
      hide StartBlock, EndBlock, Wrap, FileSectors;
      var cluster := ClusterAt(directory, FLASH_CLUSTER_AT);
      var start := StartBlock(cluster);
      if !(start <= block <= EndBlock(cluster, FileSectors(flashFile))) {
        return;
      }
      var address := (block - start) * SECTOR_SIZE;
      FileAddress(block, cluster, flashFile);
      for i := 0 to SECTOR_SIZE
        invariant forall k | 0 <= k < i :: buffer[k] == flash.mem[address + k]
      {
        WrapInside(address + i, |flash.mem|);
        buffer[i] := flash.Read(address + i);
      }
    }

    method ReadEepromBlock(block: Word, buffer: array<Byte>)
      requires Valid() && buffer.Length == SECTOR_SIZE
      modifies buffer
      ensures buffer[..] == if InEepromFile(Value(), block) then EepromSector(Value(), block) else old(buffer[..])
    {
      hide StartBlock, EndBlock, Wrap, FileSectors;
      var cluster := ClusterAt(directory, EEPROM_CLUSTER_AT);
      var start := StartBlock(cluster);
      if !(start <= block <= EndBlock(cluster, FileSectors(eepromFile))) {
        return;
      }
      var address := (block - start) * SECTOR_SIZE;
      FileAddress(block, cluster, eepromFile);
      for i := 0 to SECTOR_SIZE
        invariant forall k | 0 <= k < i :: buffer[k] == eeprom[address + k]
      {
        buffer[i] := eeprom[address + i];
      }
    }

    method WriteFlashBlock(block: Word, buffer: array<Byte>)
      requires Valid() && buffer.Length == SECTOR_SIZE
      modifies `flash
      ensures Valid() && Value() == M.WriteFlashBlock(old(Value()), block, buffer[..])
    {
      hide StartBlock, EndBlock, Wrap, FileSectors, Flash.Valid, WriteWord;
      var cluster := ClusterAt(directory, FLASH_CLUSTER_AT);
      var start := StartBlock(cluster);
      if !(start <= block <= EndBlock(cluster, FileSectors(flashFile))) {
        return;
      }
      ProgramSector((block - start) * SECTOR_SIZE, buffer);
    }

    /** One word: the page is erased before its first word and written after its last. */
    method ProgramWord(a: nat, w: Word)
      requires flash.Valid()
      modifies `flash
      ensures flash.Valid() && flash == WriteWord(old(flash), a, w)
    {
      hide Flash.Erase, Flash.Fill, Flash.Commit, Offset;
      if Offset(a, flash.page) == 0 {
        flash := flash.Erase(a);
      }
      flash := flash.Fill(a, w);
      if Offset(a + 2, flash.page) == 0 && a + 2 >= flash.page {
        flash := flash.Commit(a + 2 - flash.page);
      }
    }

    /** The programming loop of a flash block. */
    method ProgramSector(address: nat, buffer: array<Byte>)
      requires flash.Valid() && buffer.Length == SECTOR_SIZE
      modifies `flash
      ensures flash.Valid() && flash == WriteFlash(old(flash), address, buffer[..], 0)
    {
      hide WriteWord, WriteFlash, MakeWord, Flash.Valid;
      var a := address;
      var i := 0;
      ghost var k := 0;
      while i < SECTOR_SIZE
        invariant i == 2 * k && k <= SECTOR_WORDS && a == address + i
        invariant flash.Valid()
        invariant WriteFlash(old(flash), address, buffer[..], 0) == WriteFlash(flash, address, buffer[..], k)
      {
        B.WriteFlashStep(flash, address, buffer[..], k);
        ProgramWord(a, MakeWord(buffer[i], buffer[i + 1]));
        a := a + 2;
        i := i + 2;
        k := k + 1;
      }
      B.WriteFlashStep(flash, address, buffer[..], k);
    }

    method WriteEepromBlock(block: Word, buffer: array<Byte>)
      requires Valid() && buffer.Length == SECTOR_SIZE
      modifies `eeprom
      ensures Valid() && Value() == M.WriteEepromBlock(old(Value()), block, buffer[..])
    {
      hide StartBlock, EndBlock, Wrap, FileSectors;
      var cluster := ClusterAt(directory, EEPROM_CLUSTER_AT);
      var start := StartBlock(cluster);
      if !(start <= block <= EndBlock(cluster, FileSectors(eepromFile))) {
        return;
      }
      var address := (block - start) * SECTOR_SIZE;
      FileAddress(block, cluster, eepromFile);
      for i := 0 to SECTOR_SIZE
        invariant |eeprom| == |old(eeprom)|
        invariant eeprom == old(eeprom)[..address] + buffer[..i] + old(eeprom)[address + i..]
      {
        eeprom := eeprom[address + i := buffer[i]];
      }
      assert buffer[..SECTOR_SIZE] == buffer[..];
    }

    /** VirtualFAT_WriteBlock, with the block buffered from the host. */
    method WriteBlock(block: Word, buffer: array<Byte>)
      requires Valid() && buffer.Length == SECTOR_SIZE
      modifies this
      ensures Valid() && Value() == M.WriteBlock(old(Value()), block, buffer[..])
    {
      hide M.WriteFlashBlock, M.WriteEepromBlock, Flash.Valid, FileSectors;
      if block == BOOT_BLOCK || block == FAT_BLOCK_1 || block == FAT_BLOCK_2 {
      } else if block == ROOT_BLOCK {
        directory := buffer[..DIRECTORY_SIZE];
        assert buffer[..DIRECTORY_SIZE] == buffer[..][..DIRECTORY_SIZE];
      } else {
        WriteFlashBlock(block, buffer);
        WriteEepromBlock(block, buffer);
      }
    }

    /** The FAT block, built in a cleared buffer. */
    method BuildFat(buffer: array<Byte>)
      requires Valid() && buffer.Length == SECTOR_SIZE && buffer[..] == Zeros(SECTOR_SIZE)
      modifies buffer
      ensures buffer[..] == M.ReadBlock(Value(), FAT_BLOCK_1) == M.ReadBlock(Value(), FAT_BLOCK_2)
    {
      hide Fat12.SetEntry, Fat12.SetChain, FileClusters, FileSectors;
      UpdateClusterEntry(buffer, 0, Fat12.MEDIA_ENTRY);
      UpdateClusterEntry(buffer, 1, Fat12.END_OF_CHAIN);
      UpdateClusterChain(buffer, ClusterAt(directory, FLASH_CLUSTER_AT),
                         FileClusters(flashFile) % 0x100);
      UpdateClusterChain(buffer, ClusterAt(directory, EEPROM_CLUSTER_AT),
                         FileClusters(eepromFile) % 0x100);
    }

    /** VirtualFAT_ReadBlock. */
    method ReadBlock(block: Word) returns (data: seq<Byte>)
      requires Valid()
      ensures data == M.ReadBlock(Value(), block)
    {
      hide Fat12.FatTable, InFile, FlashSector, EepromSector, Flash.Valid, FileSectors;
      var buffer := new Byte[SECTOR_SIZE](_ => 0);
      assert buffer[..] == Zeros(SECTOR_SIZE);
      if block == BOOT_BLOCK {
        return boot + buffer[BOOT_SIZE..SECTOR_SIZE - 2] + [0x55, 0xAA];
      } else if block == FAT_BLOCK_1 || block == FAT_BLOCK_2 {
        BuildFat(buffer);
      } else if block == ROOT_BLOCK {
        return directory + buffer[DIRECTORY_SIZE..];
      } else {
        ReadFlashBlock(block, buffer);
        ReadEepromBlock(block, buffer);
      }
      data := buffer[..];
    }

    /** SCSI_Command_ReadWrite_10, reading. */
    method Read10(address: nat, total: Word) returns (reply: Reply)
      requires Valid()
      ensures reply == Execute(Value(), Command.Read10(address, total)).1
    {
      hide M.ReadBlock, Flash.Valid, FileSectors;
      if address % 0x1_0000 >= FileSectors(flashFile) + FileSectors(eepromFile) + 32 {
        return Failed;
      }
      var blocks := [];
      for i := 0 to total
        invariant blocks == ReadBlocks(Value(), address, i)
      {
        var data := ReadBlock((address % 0x1_0000 + i) % 0x1_0000);
        blocks := blocks + [data];
      }
      return Data(blocks);
    }

    /** SCSI_Command_ReadWrite_10, writing the blocks the host sends. */
    method Write10(address: nat, blocks: seq<seq<Byte>>) returns (reply: Reply)
      requires Valid() && WellFormed(Command.Write10(address, blocks))
      modifies this
      ensures Valid()
      ensures (Value(), reply) == Execute(old(Value()), Command.Write10(address, blocks))
    {
      hide M.WriteBlock, Flash.Valid, FileSectors;
      if address % 0x1_0000 >= FileSectors(flashFile) + FileSectors(eepromFile) + 32 {
        return Failed;
      }
      for i := 0 to |blocks|
        invariant Valid() && Value() == WriteBlocks(old(Value()), address, blocks[..i])
      {
        var data := blocks[i];
        var buffer := new Byte[SECTOR_SIZE](k requires 0 <= k < SECTOR_SIZE => data[k]);
        assert buffer[..] == data;
        WriteBlock((address % 0x1_0000 + i) % 0x1_0000, buffer);
        assert blocks[..i + 1][..i] == blocks[..i];
      }
      assert blocks[..|blocks|] == blocks;
      return Written;
    }

    /** A whole session: the drive replies as the ordinary store of BlockStore that it stands for at the
        start, however its files are written, moved and read; it ends standing for that store's last state,
        and flash beyond the sectors of FLASH.BIN is as it was. */
    method Session(cs: seq<Command>) returns (replies: seq<Reply>)
      requires Valid() && flash.Blank() && forall i | 0 <= i < |cs| :: WellFormed(cs[i])
      modifies this
      ensures Valid() && flash.Blank()
      ensures (B.StoreOf(Value()), replies) == B.StoreSession(old(B.StoreOf(Value())), cs)
      ensures SameFrom(old(flash.mem), flash.mem, FileSectors(flashFile) * SECTOR_SIZE)
    {
      hide Execute, Disk.Valid, WellFormed, FileSectors;
      replies := [];
      ghost var start := Value();
      for i := 0 to |cs|
        invariant Valid() && (Value(), replies) == B.Session(start, cs[..i])
      {
        var reply;
        match cs[i] {
          case Read10(address, total) => reply := Read10(address, total);
          case Write10(address, blocks) => reply := Write10(address, blocks);
        }
        replies := replies + [reply];
        B.SessionNext(start, cs[..i], cs[i]);
        assert cs[..i] + [cs[i]] == cs[..i + 1];
      }
      assert cs[..|cs|] == cs;
      B.SessionRefines(start, cs);
    }
  }
}
