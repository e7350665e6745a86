/** The CDC boot loader in the form of its source: CurrAddress and RunBootloader, the two endpoints, and
    the loops over packets and block bytes. CDC_Task is proved to depend only on the bytes of the command,
    not on how the host cut them into packets, and to send the framed reply of the model. */
module CdcBootloader {
  import opened Bytes
  import opened FlashMemory
  import opened Endpoints
  import M = CdcModel
  import P = CdcProtocol
  import B = CdcBlocks
  import D = DfuModel

  /** Skipping a used-up packet keeps the stream. */
  lemma AdvanceStream(out: OutPipe)
    requires out.cur == [] && out.rest != []
    ensures out.Advance().Stream() == out.Stream()
  {
  }

  /** With a byte in the bank, or nothing left to come, a read takes the next byte of the stream. */
  lemma DropStream(out: OutPipe)
    requires out.cur != [] || out.rest == []
    ensures out.Peek() == M.Head(out.Stream()) && out.Drop().Stream() == M.Tail(out.Stream())
  {
  }

  lemma {:induction false} PutAllAppend(p: InPipe, a: seq<Byte>, b: seq<Byte>)
    ensures M.PutAll(p, a + b) == M.PutAll(M.PutAll(p, a), b)
    decreases |a|
  {
    if a == [] {
      assert a + b == b;
    } else {
      PutAllAppend(p.Room(M.EPSIZE).Put(a[0]), a[1..], b);
      assert (a + b)[0] == a[0] && (a + b)[1..] == a[1..] + b;
    }
  }

  /** The bytes of each list of packets. */
  ghost function Contents(lists: seq<seq<seq<Byte>>>): (r: seq<seq<Byte>>)
    ensures |r| == |lists| && forall i | 0 <= i < |lists| :: r[i] == Flatten(lists[i])
  {
    seq(|lists|, i requires 0 <= i < |lists| => Flatten(lists[i]))
  }

  lemma ContentsNext(lists: seq<seq<seq<Byte>>>, packets: seq<seq<Byte>>)
    ensures Contents(lists + [packets]) == Contents(lists) + [Flatten(packets)]
  {
    hide Flatten;
  }

  class Bootloader {
    const part: M.Part
    var runBootloader: bool
    var currAddress: nat
    var flash: Flash
    var eeprom: seq<Byte>
    var lock: Byte

    // The two data endpoints.
    var out: OutPipe
    var reply: InPipe

    ghost function Value(): M.Cdc
      reads this
    {
      M.Cdc(part, runBootloader, currAddress, flash, eeprom, lock)
    }

    ghost predicate Valid()
      reads this
    {
      Value().Valid()
    }

    constructor (part: M.Part, flash: Flash, eeprom: seq<Byte>, lock: Byte)
      requires flash.Valid() && |flash.mem| <= 0x2_0000 && |eeprom| > 0 && |part.signature| == 3
      ensures Valid() && Value() == M.Cdc(part, true, 0, flash, eeprom, lock) && out == OutPipe([], [])
    {
      this.part, this.flash, this.eeprom, this.lock := part, flash, eeprom, lock;
      runBootloader, currAddress := true, 0;
      out, reply := OutPipe([], []), InPipe([], []);
    }

    /** The next byte of the stream, however many packets have to be fetched for it. */
    method FetchNextCommandByte() returns (b: Byte)
      modifies `out
      ensures b == M.Head(old(out.Stream())) && out.Stream() == M.Tail(old(out.Stream()))
    {
      hide OutPipe.Stream;
      while out.cur == [] && out.rest != []
        invariant out.Stream() == old(out.Stream())
        decreases |out.rest|
      {
        AdvanceStream(out);
        out := out.Advance();
      }
      DropStream(out);
      b := out.Peek();
      out := out.Drop();
    }

    method WriteNextResponseByte(b: Byte)
      modifies `reply
      ensures reply == M.PutAll(old(reply), [b])
    {
      if |reply.bank| == M.EPSIZE {
        reply := reply.Send();
      }
      reply := reply.Put(b);
    }

    method ReadFlash(size: Word)
      requires Valid()
      modifies `currAddress, `reply
      ensures var r := M.ReadFlash(flash, old(currAddress), false, size);
              currAddress == r.addr && reply == M.PutAll(old(reply), r.bytes)
    {
      hide Or, Flash.Read, Flash.Valid;
      var blockSize := size;
      var high := false;
      while blockSize > 0
        invariant Valid()
        invariant M.ReadFlash(flash, old(currAddress), false, size).addr ==
                  M.ReadFlash(flash, currAddress, high, blockSize).addr
        invariant M.PutAll(old(reply), M.ReadFlash(flash, old(currAddress), false, size).bytes) ==
                  M.PutAll(reply, M.ReadFlash(flash, currAddress, high, blockSize).bytes)
      {
        ghost var rest := M.ReadFlash(flash, currAddress, high, blockSize).bytes;
        var b := flash.Read(Or(currAddress, if high then 1 else 0));
        WriteNextResponseByte(b);
        if high {
          currAddress := M.Next(currAddress);
        }
        high := !high;
        blockSize := blockSize - 1;
        assert rest == [b] + M.ReadFlash(flash, currAddress, high, blockSize).bytes;
      }
    }

    method ReadEeprom(size: Word)
      requires Valid()
      modifies `currAddress, `reply
      ensures var r := M.ReadEeprom(eeprom, old(currAddress), size);
              currAddress == r.addr && reply == M.PutAll(old(reply), r.bytes)
    {
      hide Flash.Valid;
      var blockSize := size;
      while blockSize > 0
        invariant Valid()
        invariant M.ReadEeprom(eeprom, old(currAddress), size).addr ==
                  M.ReadEeprom(eeprom, currAddress, blockSize).addr
        invariant M.PutAll(old(reply), M.ReadEeprom(eeprom, old(currAddress), size).bytes) ==
                  M.PutAll(reply, M.ReadEeprom(eeprom, currAddress, blockSize).bytes)
      {
        ghost var rest := M.ReadEeprom(eeprom, currAddress, blockSize).bytes;
        var b := eeprom[Wrap(currAddress / 2, |eeprom|)];
        WriteNextResponseByte(b);
        currAddress := M.Next(currAddress);
        blockSize := blockSize - 1;
        assert rest == [b] + M.ReadEeprom(eeprom, currAddress, blockSize).bytes;
      }
    }

    method WriteFlash(size: Word)
      requires Valid()
      modifies `currAddress, `flash, `out
      ensures M.FlashWritten(flash, currAddress, out.Stream()) ==
              M.WriteFlash(old(flash), old(currAddress), false, 0, old(out.Stream()), size)
    {
      hide Flash.Fill, OutPipe.Stream, M.Head, M.Tail;
      var blockSize := size;
      var high, low: Byte := false, 0;
      while blockSize > 0
        invariant Valid()
        invariant M.WriteFlash(old(flash), old(currAddress), false, 0, old(out.Stream()), size) ==
                  M.WriteFlash(flash, currAddress, high, low, out.Stream(), blockSize)
      {
        var b := FetchNextCommandByte();
        if high {
          flash := flash.Fill(currAddress, MakeWord(low, b));
          currAddress := M.Next(currAddress);
        } else {
          low := b;
        }
        high := !high;
        blockSize := blockSize - 1;
      }
    }

    method WriteEeprom(size: Word)
      requires Valid()
      modifies `currAddress, `eeprom, `out
      ensures M.EepromWritten(eeprom, currAddress, out.Stream()) ==
              M.WriteEeprom(old(eeprom), old(currAddress), old(out.Stream()), size)
    {
      hide OutPipe.Stream, M.Head, M.Tail, Flash.Valid;
      var blockSize := size;
      while blockSize > 0
        invariant Valid()
        invariant M.WriteEeprom(old(eeprom), old(currAddress), old(out.Stream()), size) ==
                  M.WriteEeprom(eeprom, currAddress, out.Stream(), blockSize)
      {
        var b := FetchNextCommandByte();
        eeprom := eeprom[Wrap(currAddress / 2, |eeprom|) := b];
        currAddress := M.Next(currAddress);
        blockSize := blockSize - 1;
      }
    }

    method WriteBlock(memory: Byte, size: Word)
      requires Valid()
      modifies `currAddress, `flash, `eeprom, `out, `reply
      ensures var r := M.WriteBlock(old(Value()), memory, size, old(out.Stream()));
              Value() == r.cdc && out.Stream() == r.rest && reply == M.PutAll(old(reply), r.reply)
    {
      hide Flash.Erase, Flash.Commit, OutPipe.Stream, M.WriteFlash, M.WriteEeprom, M.PutAll;
      var pageStart := currAddress;
      if memory == M.MEMORY_FLASH {
        flash := flash.Erase(pageStart);
        WriteFlash(size);
        flash := flash.Commit(pageStart);
      } else {
        WriteEeprom(size);
      }
      WriteNextResponseByte(M.OK);
    }

    method ReadWriteMemoryBlock(write: bool)
      requires Valid()
      modifies `currAddress, `flash, `eeprom, `out, `reply
      ensures var r := M.Block(old(Value()), write, old(out.Stream()));
              Value() == r.cdc && out.Stream() == r.rest && reply == M.PutAll(old(reply), r.reply)
    {
      hide OutPipe.Stream, M.WriteBlock, M.ReadFlash, M.ReadEeprom, M.PutAll, M.Head, M.Tail;
      var high := FetchNextCommandByte();
      var low := FetchNextCommandByte();
      var size := MakeWord(low, high);
      var memory := FetchNextCommandByte();
      if memory != M.MEMORY_FLASH && memory != M.MEMORY_EEPROM {
        WriteNextResponseByte(M.FAIL);
      } else if write {
        WriteBlock(memory, size);
      } else if memory == M.MEMORY_FLASH {
        ReadFlash(size);
      } else {
        ReadEeprom(size);
      }
    }

    method WriteResponse(bytes: seq<Byte>)
      modifies `reply
      ensures reply == M.PutAll(old(reply), bytes)
    {
      hide M.PutAll;
      var i := 0;
      PutNone(reply);
      assert bytes[..0] == [];
      while i < |bytes|
        invariant i <= |bytes| && reply == M.PutAll(old(reply), bytes[..i])
      {
        PutAllAppend(old(reply), bytes[..i], [bytes[i]]);
        assert bytes[..i] + [bytes[i]] == bytes[..i + 1];
        WriteNextResponseByte(bytes[i]);
        i := i + 1;
      }
      assert bytes[..i] == bytes;
    }

    method EraseApplication()
      requires Valid()
      modifies `flash
      ensures flash == D.EraseFrom(old(flash), 0, part.bootStart)
    {
      hide Flash.Erase, Flash.Commit;
      var address := 0;
      while address < part.bootStart
        invariant flash.Valid() && flash.page == old(flash).page
        invariant D.EraseFrom(old(flash), 0, part.bootStart) == D.EraseFrom(flash, address, part.bootStart)
      {
        flash := flash.Erase(address);
        flash := flash.Commit(address);
        address := address + flash.page;
      }
    }

    /** The byte-wise flash commands. */
    method ProcessFlashByte(command: Byte)
      requires Valid()
      modifies `currAddress, `flash, `out, `reply
      ensures var r := M.FlashByte(old(Value()), command, old(out.Stream()));
              Value() == r.cdc && out.Stream() == r.rest && reply == M.PutAll(old(reply), r.reply)
    {
      hide OutPipe.Stream, M.PutAll, M.Head, M.Tail, Or, Flash.Fill, Flash.Commit, Flash.Read;
      if command == M.FILL_WORD_HIGH {
        var b := FetchNextCommandByte();
        flash := flash.Fill(currAddress, b);
        WriteNextResponseByte(M.OK);
      } else if command == M.FILL_WORD_LOW {
        var b := FetchNextCommandByte();
        flash := flash.Fill(Or(currAddress, 1), b);
        currAddress := M.Next(currAddress);
        WriteNextResponseByte(M.OK);
      } else if command == M.WRITE_PAGE {
        flash := flash.Commit(currAddress);
        WriteNextResponseByte(M.OK);
      } else {
        WriteNextResponseByte(flash.Read(currAddress + 1));
        WriteNextResponseByte(flash.Read(currAddress));
        PutAllAppend(old(reply), [flash.Read(currAddress + 1)], [flash.Read(currAddress)]);
        assert [flash.Read(currAddress + 1)] + [flash.Read(currAddress)] ==
               [flash.Read(currAddress + 1), flash.Read(currAddress)];
      }
    }

    /** The commands with arguments or effects; the others only answer. */
    method ProcessCommand()
      requires Valid()
      modifies `runBootloader, `currAddress, `flash, `eeprom, `lock, `out, `reply
      ensures var r := M.Exec(old(Value()), old(out.Stream()));
              Value() == r.cdc && out.Stream() == r.rest && reply == M.PutAll(old(reply), r.reply)
    {
      hide OutPipe.Stream, M.Block, M.PutAll, M.Head, M.Tail, M.Answer, M.FlashByte, M.ShiftNine, Or, D.EraseFrom,
      AndByte;
      var command := FetchNextCommandByte();
      if command == M.EXIT {
        runBootloader := false;
        WriteNextResponseByte(M.OK);
      } else if command == M.SET_LED || command == M.CLEAR_LED || command == M.SELECT_DEVICE {
        var _ := FetchNextCommandByte();
        WriteNextResponseByte(M.OK);
      } else if command == M.SET_ADDRESS {
        var hi := FetchNextCommandByte();
        var lo := FetchNextCommandByte();
        currAddress := M.AddressOf(hi, lo);
        WriteNextResponseByte(M.OK);
      } else if command == M.ERASE_FLASH {
        EraseApplication();
        WriteNextResponseByte(M.OK);
      } else if command == M.WRITE_LOCK {
        var bits := FetchNextCommandByte();
        lock := AndByte(lock, 0xFF - bits);
        WriteNextResponseByte(M.OK);
      } else if command == M.BLOCK_WRITE || command == M.BLOCK_READ {
        ReadWriteMemoryBlock(command == M.BLOCK_WRITE);
      } else if command == M.FILL_WORD_HIGH || command == M.FILL_WORD_LOW || command == M.WRITE_PAGE ||
                command == M.READ_FLASH_WORD {
        ProcessFlashByte(command);
      } else if command == M.WRITE_EEPROM {
        var b := FetchNextCommandByte();
        eeprom := eeprom[Wrap(currAddress / 2, |eeprom|) := b];
        currAddress := M.Next(currAddress);
        WriteNextResponseByte(M.OK);
      } else if command == M.READ_EEPROM {
        WriteNextResponseByte(eeprom[Wrap(currAddress / 2, |eeprom|)]);
        currAddress := M.Next(currAddress);
      } else {
        WriteResponse(Answer(command));
      }
    }

    function Answer(command: Byte): seq<Byte>
      requires Valid()
      reads this
    {
      M.Answer(M.Cdc(part, runBootloader, currAddress, flash, eeprom, lock), command)
    }

    /** One pass of the main loop over the packets the host has sent: the new state and the packets of the
        reply depend only on the bytes of the packets, however they were cut. Nothing happens without a
        packet. The rest of the last packet read is dropped. */
    method Task(packets: seq<seq<Byte>>) returns (sent: seq<seq<Byte>>, left: seq<seq<Byte>>)
      requires Valid()
      modifies this
      ensures Valid()
      ensures packets == [] ==> Value() == old(Value()) && sent == [] && left == []
      ensures packets != [] ==>
                var r := M.Exec(old(Value()), Flatten(packets));
                && Value() == r.cdc && sent == M.Frame(r.reply)
                && |Flatten(left)| <= |r.rest| && r.rest[|r.rest| - |Flatten(left)|..] == Flatten(left)
    {
      hide M.Exec, M.PutAll;
      if packets == [] {
        return [], [];
      }
      out := OutPipe(packets[0], packets[1..]);
      reply := InPipe([], []);
      ProcessCommand();
      var full := |reply.bank| == M.EPSIZE;
      reply := reply.Send();
      if full {
        reply := reply.Send();
      }
      sent, left := reply.sent, out.rest;
    }

    /** The main loop over many commands, each in packets of its own: state and replies are those of the model, and
        the packets sent for each command hold exactly its reply. */
    method Session(commands: seq<seq<seq<Byte>>>) returns (sent: seq<seq<seq<Byte>>>)
      requires Valid() && forall i | 0 <= i < |commands| :: commands[i] != []
      modifies this
      ensures Valid()
      ensures var r := M.Run(old(Value()), Contents(commands)); Value() == r.cdc && Contents(sent) == r.replies
    {
      hide M.Exec, M.Run, M.Frame, Flatten, Contents, M.Cdc.Valid;
      ghost var d := Value();
      sent := [];
      B.RunNone(d);
      assert commands[..0] == [] && Contents([]) == [];
      for i := 0 to |commands|
        invariant Valid() && d.Valid()
        invariant var r := M.Run(d, Contents(commands[..i])); Value() == r.cdc && Contents(sent) == r.replies
      {
        ghost var before := Value();
        var packets, _ := Task(commands[i]);
        P.FrameLaw(M.Exec(before, Flatten(commands[i])).reply);
        B.RunNext(d, Contents(commands[..i]), Flatten(commands[i]));
        ContentsNext(commands[..i], commands[i]);
        ContentsNext(sent, packets);
        assert commands[..i] + [commands[i]] == commands[..i + 1];
        sent := sent + [packets];
      }
      assert commands[..|commands|] == commands;
    }

    /** Flash blocks written and read back, with the conclusion of FlashRoundTrip: the packets sent in answer to the
        reads hold the bytes written. `start` is the page start that the address decodes to. */
    method RoundTrip(puts: seq<seq<seq<Byte>>>, gets: seq<seq<seq<Byte>>>, ghost hi: Byte, ghost lo: Byte,
                     ghost blocks: seq<seq<Byte>>, ghost sizes: seq<Word>, ghost start: nat, ghost end: nat)
      returns (sent: seq<seq<seq<Byte>>>)
      requires Valid() && P.UsbFlash(flash) && flash.Blank() && start == flash.Decode(M.AddressOf(hi, lo))
      requires Aligned(start, flash.page) && blocks != [] && B.PageBlocks(blocks, flash.page)
      requires forall i | 0 <= i < |blocks| :: |blocks[i]| < 0x1_0000
      requires end == start + flash.page * |blocks| <= |flash.mem|
      requires B.WordSizes(sizes) && B.Total(sizes) <= |Words(Flatten(blocks))|
      requires forall i | 0 <= i < |puts| :: puts[i] != []
      requires forall i | 0 <= i < |gets| :: gets[i] != []
      requires Contents(puts) == [B.AddressCommand(hi, lo)] + B.WriteCommands(M.MEMORY_FLASH, blocks)
      requires Contents(gets) == [B.AddressCommand(hi, lo)] + B.ReadCommands(M.MEMORY_FLASH, sizes)
      modifies this
      ensures flash.mem == Overlay(old(flash.mem), start, Words(Flatten(blocks)), end) && eeprom == old(eeprom)
      ensures sent != [] && Flatten(Contents(sent)[1..]) == Flatten(blocks)[..B.Total(sizes)]
    {
      hide M.Run, M.AddressOf, Flatten, Contents, B.PageBlocks, B.WordSizes, B.Total, B.AddressCommand, B.WriteCommands,
        B.ReadCommands, Overlay, Offset, Flash.Decode, B.Confirmed, P.UsbFlash;
      ghost var d := Value();
      var _ := Session(puts);
      sent := Session(gets);
      B.FlashRoundTrip(d, hi, lo, blocks, sizes, start, end);
    }
  }

  lemma PutNone(p: InPipe)
    ensures M.PutAll(p, []) == p
  {
  }
}
