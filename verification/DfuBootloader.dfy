/** The DFU boot loader in the form of its source: globals updated by the request handlers,
    with loops over words, bytes and pages. Every handler is proved to compute the function
    of DfuModel that carries the same name. */
module DfuBootloader {
  import opened Bytes
  import opened FlashMemory
  import opened Endpoints
  import M = DfuModel
  import S = DfuSecure
  import E = DfuErase

  lemma StoreParameter(params: seq<Byte>, data: seq<Byte>, i: nat)
    requires i < |params| && i < |data|
    ensures (params[..i] + data[i..])[i := params[i]] == params[..i + 1] + data[i + 1..]
  {
  }

  /** The size field after k bytes have been taken. */
  ghost function Less(n: Word, k: nat): Word { (n - k) % 0x1_0000 }

  lemma CountDown(n: Word, k: nat)
    ensures (Less(n, k) - 1) % 0x1_0000 == Less(n, k + 1)
  {
  }

  lemma NothingTaken(n: Word)
    ensures Less(n, 0) == n
  {
  }

  lemma CountBoth(n: Word, k: nat)
    requires k <= 5
    ensures ((n - 1) % 0x1_0000 - k) % 0x1_0000 == (n - 1 - k) % 0x1_0000
  {
  }

  lemma CountUp(n: int)
    ensures (n % 0x1_0000 + 1) % 0x1_0000 == (n + 1) % 0x1_0000
  {
  }

  lemma RangeEnd(start: Word, end: Word)
    ensures (start + (end - start + 1) % 0x1_0000) % 0x1_0000 == (end + 1) % 0x1_0000
  {
  }

  class Bootloader {
    const part: M.Part
    var isSecure: bool
    var runBootloader: bool
    var waitForExit: bool
    var watchdog: bool
    var state: Byte
    var status: Byte
    var sent: M.Command
    var responseByte: Byte
    var appStart: Word
    var flash64K: Byte
    var startAddr: Word
    var endAddr: Word

    // The memories and the control endpoint.
    var flash: Flash
    var eeprom: seq<Byte>
    var out: OutPipe
    var reply: InPipe
    var stalled: bool

    ghost function Value(): M.Dfu
      reads this
    {
      M.Dfu(part, isSecure, runBootloader, waitForExit, watchdog, state, status, sent, responseByte,
            appStart, flash64K, startAddr, endAddr, flash, eeprom)
    }

    ghost predicate Valid()
      reads this
    {
      Value().Valid()
    }

    constructor (part: M.Part, secureMode: bool, flash: Flash, eeprom: seq<Byte>)
      requires flash.Valid() && |eeprom| > 0 && part.bootStart <= |flash.mem| && |part.signature| == 3
      ensures Valid() && this.flash == flash && this.eeprom == eeprom && isSecure == secureMode
      ensures state == M.DFU_IDLE && !waitForExit
    {
      this.part := part;
      isSecure, runBootloader, waitForExit, watchdog := secureMode, true, false, false;
      state, status := M.DFU_IDLE, M.STATUS_OK;
      sent := M.Command(0, [0, 0, 0, 0, 0], 0);
      responseByte, appStart, flash64K, startAddr, endAddr := 0, 0, 0, 0, 0;
      this.flash, this.eeprom := flash, eeprom;
      out, reply, stalled := OutPipe([], []), InPipe([], []), false;
    }

    method LoadStartEndAddresses()
      requires Valid()
      modifies `startAddr, `endAddr
      ensures Value() == M.LoadAddresses(old(Value()))
    {
      startAddr := MakeWord(sent.data[2], sent.data[1]);
      endAddr := MakeWord(sent.data[4], sent.data[3]);
    }

    method ProcessMemProgCommand()
      requires Valid()
      modifies `startAddr, `endAddr, `flash, `state
      ensures Value() == M.ProcessMemProg(old(Value()))
    {
      hide Flash.Erase;
      if sent.data[0] == 0x00 || sent.data[0] == 0x01 {
        LoadStartEndAddresses();
        if sent.data[0] == 0x00 {
          flash := flash.Erase(0x1_0000 * flash64K + startAddr);
        }
        state := M.DFU_DNLOAD_IDLE;
      }
    }

    method ProcessMemReadCommand()
      requires Valid()
      modifies `startAddr, `endAddr, `flash64K, `state, `status
      ensures Value() == M.ProcessMemRead(old(Value()))
    {
      if sent.data[0] == 0x00 || sent.data[0] == 0x02 {
        LoadStartEndAddresses();
        state := M.DFU_UPLOAD_IDLE;
      } else if sent.data[0] == 0x01 {
        var address := 0;
        while address < part.bootStart
          invariant address <= part.bootStart
          invariant Value() == old(Value())
          invariant M.FirstNonBlank(flash.mem, 0, part.bootStart) == M.FirstNonBlank(flash.mem, address, part.bootStart)
        {
          if flash.Read(address) != BLANK {
            flash64K := address / 0x1_0000 % 0x100;
            startAddr := address % 0x1_0000;
            state := M.DFU_ERROR;
            status := M.ERR_CHECK_ERASED;
            break;
          }
          address := address + 1;
        }
      }
    }

    method EraseApplication()
      requires Valid()
      modifies `flash
      ensures flash == M.EraseFrom(old(flash), 0, part.bootStart)
    {
      hide Flash.Erase, Flash.Commit;
      var address := 0;
      while address < part.bootStart
        invariant flash.Valid() && flash.page == old(flash).page
        invariant M.EraseFrom(old(flash), 0, part.bootStart) == M.EraseFrom(flash, address, part.bootStart)
      {
        flash := flash.Erase(address);
        flash := flash.Commit(address);
        address := address + flash.page;
      }
    }

    method ProcessWriteCommand()
      requires Valid()
      modifies `waitForExit, `appStart, `watchdog, `runBootloader, `flash, `isSecure
      ensures Value() == M.ProcessWrite(old(Value()))
    {
      hide M.EraseFrom;
      if sent.data[0] == 0x03 {
        waitForExit := true;
        if sent.dataSize != 0 {
          if sent.data[1] == 0x01 {
            appStart := MakeWord(sent.data[4], sent.data[3]);
          }
        } else if sent.data[1] == 0x00 {
          watchdog := true;
        } else if flash.Read(0) == BLANK && flash.Read(1) == BLANK {
          runBootloader := false;
        }
      } else if sent.data[0] == 0x00 && sent.data[1] == 0xFF {
        EraseApplication();
        isSecure := false;
      }
    }

    method ProcessReadCommand()
      requires Valid()
      modifies `responseByte, `state, `status
      ensures Value() == M.ProcessRead(old(Value()))
    {
      hide Flash.Valid;
      var index := sent.data[1];
      var invalid := false;
      if sent.data[0] == 0x00 {
        if index < 3 {
          responseByte := M.BOOTLOADER_INFO[index];
        } else {
          invalid := true;
        }
      } else if sent.data[0] == 0x01 {
        if index == 0x30 {
          responseByte := 0x58;
        } else if index == 0x31 {
          responseByte := part.signature[0];
        } else if index == 0x60 {
          responseByte := part.signature[1];
        } else if index == 0x61 {
          responseByte := part.signature[2];
        } else {
          invalid := true;
        }
      }
      if invalid {
        state := M.DFU_ERROR;
        status := M.ERR_ADDRESS;
      }
    }

    method ProcessBootloaderCommand()
      requires Valid()
      modifies `isSecure, `runBootloader, `waitForExit, `watchdog, `state, `status, `responseByte, `appStart,
               `flash64K, `startAddr, `endAddr, `flash, `stalled
      ensures Value() == M.ProcessCommand(old(Value()))
      ensures stalled == (old(stalled) || !M.Allowed(old(Value())))
    {
      hide M.ProcessMemProg, M.ProcessMemRead, M.ProcessWrite, M.ProcessRead, Flash.Valid;
      if isSecure {
        if !((sent.command == M.COMMAND_WRITE && sent.data[0] == 0x00 && sent.data[1] == 0xFF) ||
             sent.command == M.COMMAND_READ) {
          state := M.DFU_ERROR;
          status := M.ERR_WRITE;
          stalled := true;
          return;
        }
      }
      if sent.command == M.COMMAND_PROG_START {
        ProcessMemProgCommand();
      } else if sent.command == M.COMMAND_DISP_DATA {
        ProcessMemReadCommand();
      } else if sent.command == M.COMMAND_WRITE {
        ProcessWriteCommand();
      } else if sent.command == M.COMMAND_READ {
        ProcessReadCommand();
      } else if sent.command == M.COMMAND_CHANGE_BASE_ADDR {
        if sent.data[0] == 0x03 && sent.data[1] == 0x00 {
          flash64K := sent.data[2];
        }
      }
    }

    method DiscardFillerBytes(count: Byte)
      modifies `out
      ensures out == M.Discard(old(out), count)
    {
      var remaining := count;
      while remaining != 0
        invariant M.Discard(old(out), count) == M.Discard(out, remaining)
        decreases remaining
      {
        remaining := remaining - 1;
        if out.cur == [] {
          if out.rest == [] {
            return;
          }
          out := out.Advance();
        } else {
          out := out.Drop();
        }
      }
    }

    /** The flash branch of the data stage. */
    method WriteFlash(words: Word) returns (attached: bool)
      requires Valid()
      modifies `out, `flash
      ensures var a := Value().FlashAddress();
              var w := M.WriteWords(old(flash), old(out), a, a, 0, words);
              flash == w.flash && out == w.out && attached == w.attached
    {
      hide Flash.Fill, Flash.Erase, Flash.Commit, Flash.Valid;
      var address: nat := 0x1_0000 * flash64K + startAddr;
      var pageStart: nat := address;
      var wordsInPage: nat := 0;
      var remaining := words;
      ghost var w := M.WriteWords(flash, out, address, address, 0, words);
      while remaining != 0
        invariant flash.Valid()
        invariant w == M.WriteWords(flash, out, address, pageStart, wordsInPage, remaining)
        decreases remaining
      {
        remaining := remaining - 1;
        if out.cur == [] {
          if out.rest == [] {
            return false;
          }
          out := out.Advance();
        }
        flash := flash.Fill(address, out.PeekWord());
        out := out.DropWord();
        wordsInPage := wordsInPage + 1;
        address := address + 2;
        if wordsInPage == flash.page / 2 || remaining == 0 {
          flash := flash.Commit(pageStart);
          if remaining != 0 {
            pageStart := address;
            wordsInPage := 0;
            flash := flash.Erase(address);
          }
        }
      }
      return true;
    }

    /** The EEPROM branch of the data stage. */
    method WriteEeprom(bytes: Word)
      requires |eeprom| > 0
      modifies `out, `eeprom, `startAddr
      ensures M.EepromDownload(eeprom, out, startAddr) == M.WriteEeprom(old(eeprom), old(out), old(startAddr), bytes)
    {
      var remaining := bytes;
      ghost var w := M.WriteEeprom(eeprom, out, startAddr, bytes);
      while remaining != 0
        invariant |eeprom| > 0
        invariant w == M.WriteEeprom(eeprom, out, startAddr, remaining)
        decreases remaining
      {
        remaining := remaining - 1;
        if out.cur == [] {
          if out.rest == [] {
            return;
          }
          out := out.Advance();
        }
        eeprom := eeprom[M.EepromAt(eeprom, startAddr) := out.Peek()];
        out := out.Drop();
        startAddr := (startAddr + 1) % 0x1_0000;
      }
    }

    /** Up to five parameters from the current packet. */
    method LoadParameters()
      requires |sent.data| == 5
      modifies `out, `sent
      ensures var params := old(out).cur;
              var k := if |params| < 5 then |params| else 5;
              && sent == M.Command(old(sent).command, params[..k] + old(sent).data[k..], Less(old(sent).dataSize, k))
              && out == OutPipe(params[k..], old(out).rest)
    {
      hide Less;
      ghost var c, params := sent, out.cur;
      NothingTaken(c.dataSize);
      var i := 0;
      while i < 5 && out.cur != []
        invariant 0 <= i <= 5 && i <= |params|
        invariant out == OutPipe(params[i..], old(out).rest)
        invariant sent == M.Command(c.command, params[..i] + c.data[i..], Less(c.dataSize, i))
      {
        StoreParameter(params, c.data, i);
        CountDown(c.dataSize, i);
        sent := M.Command(sent.command, sent.data[i := out.Peek()], (sent.dataSize - 1) % 0x1_0000);
        out := out.Drop();
        i := i + 1;
      }
    }

    /** The command byte and its parameters, from the first packet of the data stage. */
    method LoadCommand()
      requires |sent.data| == 5
      modifies `out, `sent
      ensures sent == M.LoadCommand(old(sent), old(out).cur)
      ensures out == OutPipe(M.AfterCommand(old(out).cur), old(out).rest)
    {
      ghost var size, params := sent.dataSize, out.Drop().cur;
      sent := M.Command(out.Peek(), sent.data, (sent.dataSize - 1) % 0x1_0000);
      out := out.Drop();
      LoadParameters();
      CountBoth(size, if |params| < 5 then |params| else 5);
    }

    method DataStage()
      requires Valid()
      modifies `out, `flash, `eeprom, `startAddr, `state
      ensures Value() == M.DataStage(old(Value()), old(out))
    {
      hide M.Discard, M.WriteWords, M.WriteEeprom, Flash.Valid;
      if state == M.DFU_DNLOAD_IDLE {
        if sent.dataSize == 0 {
          state := M.DFU_IDLE;
        } else {
          DiscardFillerBytes(M.FILLER_SIZE);
          DiscardFillerBytes(startAddr % M.PACKET_SIZE);
          WriteData();
        }
      }
    }

    /** The data of the packets, to flash or to EEPROM, and the suffix behind it. */
    method WriteData()
      requires Valid()
      modifies `out, `flash, `eeprom, `startAddr
      ensures var d := old(Value());
              if sent.data[0] == 0x00 then
                var w := M.WriteWords(d.flash, old(out), d.FlashAddress(), d.FlashAddress(), 0, d.ByteCount() / 2);
                Value() == if w.attached then d.(flash := w.flash, startAddr := d.endAddr) else d.(flash := w.flash)
              else
                var w := M.WriteEeprom(d.eeprom, old(out), d.startAddr, d.ByteCount());
                Value() == d.(eeprom := w.eeprom, startAddr := w.a)
    {
      hide M.Discard, M.WriteWords, M.WriteEeprom, Flash.Valid;
      var bytes: Word := (endAddr - startAddr + 1) % 0x1_0000;
      if sent.data[0] == 0x00 {
        var attached := WriteFlash(bytes / 2);
        if !attached {
          return;
        }
        startAddr := endAddr;
      } else {
        WriteEeprom(bytes);
      }
      DiscardFillerBytes(M.SUFFIX_SIZE);
    }

    /** A command that waited for this request. */
    method FinishExit()
      requires Valid()
      modifies `isSecure, `runBootloader, `waitForExit, `watchdog, `state, `status, `responseByte, `appStart,
               `flash64K, `startAddr, `endAddr, `flash, `stalled
      ensures Value() == M.FinishExit(old(Value()))
      ensures stalled == (old(stalled) || (old(waitForExit) && !M.Allowed(old(Value()))))
    {
      hide M.ProcessCommand, Flash.Valid;
      if waitForExit {
        ProcessBootloaderCommand();
        waitForExit := false;
      }
    }

    /** The command of the first packet, loaded and processed. */
    method CommandStage()
      requires Valid() && out.cur == [] && out.rest != []
      modifies this
      ensures Valid() && Value() == M.ProcessCommand(old(Value()).(sent := M.LoadCommand(old(sent), old(out).rest[0])))
      ensures out == OutPipe(M.AfterCommand(old(out).rest[0]), old(out).rest[1..]) && reply == old(reply)
      ensures stalled ==
              (old(stalled) || !M.Allowed(old(Value()).(sent := M.LoadCommand(old(sent), old(out).rest[0]))))
    {
      hide M.ProcessCommand, M.LoadCommand, M.AfterCommand, M.Allowed, Flash.Valid;
      out := out.Advance();
      LoadCommand();
      ProcessBootloaderCommand();
    }

    method Dnload()
      requires Valid() && out.cur == []
      modifies this
      ensures Value() == M.Dnload(old(Value()), old(out).rest).0
      ensures stalled == (old(stalled) || M.Dnload(old(Value()), old(out).rest).1.stalled)
      ensures M.Dnload(old(Value()), old(out).rest).1.packets == []
      ensures reply == old(reply)
    {
      hide M.FinishExit, M.ProcessCommand, M.DataStage, M.LoadCommand, M.AfterCommand, M.Allowed, Flash.Valid;
      FinishExit();
      if sent.dataSize != 0 {
        if out.rest == [] {
          return;
        }
        CommandStage();
      }
      DataStage();
    }

    method UploadFlash(words: Word)
      requires Valid()
      modifies `reply
      ensures reply == M.ReadWords(flash, old(reply), Value().FlashAddress(), words)
    {
      hide Flash.Valid, Flash.Read, InPipe.Put, InPipe.Send;
      var address: nat := 0x1_0000 * flash64K + startAddr;
      var remaining := words;
      while remaining != 0
        invariant M.ReadWords(flash, old(reply), Value().FlashAddress(), words) ==
                  M.ReadWords(flash, reply, address, remaining)
        decreases remaining
      {
        remaining := remaining - 1;
        if |reply.bank| == M.PACKET_SIZE {
          reply := reply.Send();
        }
        reply := reply.Put(flash.Read(address)).Put(flash.Read(address + 1));
        address := address + 2;
      }
    }

    method UploadEeprom(bytes: Word)
      requires |eeprom| > 0
      modifies `reply, `startAddr
      ensures reply == M.ReadEeprom(eeprom, old(reply), old(startAddr), bytes)
      ensures startAddr == (old(startAddr) + bytes) % 0x1_0000
    {
      hide M.EepromAt, InPipe.Put, InPipe.Send;
      var remaining := bytes;
      while remaining != 0
        invariant M.ReadEeprom(eeprom, old(reply), old(startAddr), bytes) ==
                  M.ReadEeprom(eeprom, reply, startAddr, remaining)
        invariant startAddr == (old(startAddr) + bytes - remaining) % 0x1_0000
        decreases remaining
      {
        remaining := remaining - 1;
        if |reply.bank| == M.PACKET_SIZE {
          reply := reply.Send();
        }
        reply := reply.Put(eeprom[M.EepromAt(eeprom, startAddr)]);
        CountUp(old(startAddr) + bytes - remaining - 1);
        startAddr := (startAddr + 1) % 0x1_0000;
      }
    }

    /** UPLOAD when no memory read was requested. */
    method SendResponse()
      requires Valid() && reply == InPipe([], [])
      modifies `reply
      ensures state == M.DFU_ERROR && sent.data[0] == 0x01 ==> reply.sent == [[Low(startAddr), High(startAddr)]]
      ensures !(state == M.DFU_ERROR && sent.data[0] == 0x01) ==> reply.sent == [[responseByte]]
    {
      if state == M.DFU_ERROR && sent.data[0] == 0x01 {
        reply := reply.Put(Low(startAddr)).Put(High(startAddr));
        assert reply.bank == [Low(startAddr), High(startAddr)];
      } else {
        reply := reply.Put(responseByte);
        assert reply.bank == [responseByte];
      }
      reply := reply.Send();
    }

    method Upload()
      requires Valid() && reply == InPipe([], [])
      modifies `reply, `startAddr, `state
      ensures Value() == M.Upload(old(Value())).0
      ensures M.Reply(false, reply.sent) == M.Upload(old(Value())).1
    {
      hide M.ReadWords, M.ReadEeprom, Flash.Valid;
      if state != M.DFU_UPLOAD_IDLE {
        SendResponse();
      } else {
        var bytes: Word := (endAddr - startAddr + 1) % 0x1_0000;
        if sent.data[0] == 0x00 {
          UploadFlash(bytes / 2);
          startAddr := endAddr;
        } else if sent.data[0] == 0x02 {
          RangeEnd(startAddr, endAddr);
          UploadEeprom(bytes);
        }
        state := M.DFU_IDLE;
        reply := reply.Send();
      }
    }

    method GetStatus()
      requires reply == InPipe([], [])
      modifies `reply
      ensures reply.sent == [[status, 0, 0, 0, state, 0]]
    {
      reply := reply.Put(status).Put(0).Put(0).Put(0).Put(state).Put(0);
      assert reply.bank == [status, 0, 0, 0, state, 0];
      reply := reply.Send();
    }

    method GetState()
      requires reply == InPipe([], [])
      modifies `reply
      ensures reply.sent == [[state]]
    {
      reply := reply.Put(state);
      assert reply.bank == [state];
      reply := reply.Send();
    }

    /** One control request, from reset endpoint banks to the reply. */
    method ControlRequest(r: M.Request)
      requires Valid()
      modifies this
      ensures Valid()
      ensures Value() == M.Step(old(Value()), r).0
      ensures M.Reply(stalled, reply.sent) == M.Step(old(Value()), r).1
    {
      hide M.Dnload, M.Upload, Flash.Valid;
      out, reply, stalled := OutPipe([], r.packets), InPipe([], []), false;
      if !r.toInterface {
        return;
      }
      sent := sent.(dataSize := r.length);
      if r.request == M.REQ_DNLOAD {
        Dnload();
      } else if r.request == M.REQ_UPLOAD {
        Upload();
      } else {
        StatusRequest(r);
      }
    }

    /** The requests without a data stage of their own. */
    method StatusRequest(r: M.Request)
      requires Valid() && r.toInterface && r.request != M.REQ_DNLOAD && r.request != M.REQ_UPLOAD
      requires sent.dataSize == r.length && !stalled && reply == InPipe([], [])
      modifies `status, `state, `reply
      ensures Value() == M.Step(old(Value()), r).0
      ensures M.Reply(stalled, reply.sent) == M.Step(old(Value()), r).1
    {
      hide M.Dnload, M.Upload, Flash.Valid;
      if r.request == M.REQ_GETSTATUS {
        GetStatus();
      } else if r.request == M.REQ_CLRSTATUS {
        status := M.STATUS_OK;
      } else if r.request == M.REQ_GETSTATE {
        GetState();
      } else if r.request == M.REQ_ABORT {
        state := M.DFU_IDLE;
      }
    }

    /** A whole session: the device and its replies are those of the model. A device in secure mode that is sent
        no chip erase stays in dfuIDLE or dfuERROR and keeps its memories, secure mode is never entered, and the
        page buffer holds what downloads cut short since it was last cleared have left in it. */
    method Session(rs: seq<M.Request>) returns (replies: seq<M.Reply>)
      requires Valid()
      modifies this
      ensures Valid() && (Value(), replies) == M.Run(old(Value()), rs)
      ensures old(S.Locked(Value())) && !S.SessionErases(old(sent), rs) ==>
                S.Locked(Value()) && flash == old(flash) && eeprom == old(eeprom)
      ensures isSecure ==> old(isSecure)
      ensures flash.buf == E.Waiting(old(Value()), rs)
      ensures old(flash.Blank()) && !E.SomeCutShort(old(Value()), rs) ==> flash.Blank()
    {
      hide M.Step, Flash.Valid, S.Locked, S.SessionErases, E.SomeCutShort, Flash.Blank, E.Waiting;
      replies := [];
      ghost var start := Value();
      for i := 0 to |rs|
        invariant Valid() && (Value(), replies) == M.Run(start, rs[..i])
      {
        ControlRequest(rs[i]);
        replies := replies + [M.Reply(stalled, reply.sent)];
        S.RunNext(start, rs[..i], rs[i]);
        assert rs[..i] + [rs[i]] == rs[..i + 1];
      }
      assert rs[..|rs|] == rs;
      S.UnlockedForever(start, rs);
      E.WaitingIs(start, rs);
      if S.Locked(start) && !S.SessionErases(start.sent, rs) {
        S.SecureSession(start, rs);
      }
      if start.flash.Blank() && !E.SomeCutShort(start, rs) {
        E.SessionBuffer(start, rs);
      }
    }
  }
}
