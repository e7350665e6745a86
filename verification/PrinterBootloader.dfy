/** The Printer boot loader in the form of its source: the HEXParser struct, PageDirty and
    RunBootloader as fields, updated one character at a time. */
module PrinterBootloader {
  import opened Bytes
  import opened FlashMemory
  import M = PrinterModel
  import S = PrinterStream
  import Safety = PrinterSafety

  class Bootloader {
    const bootStart: nat
    var state: M.ParserState
    var prevData: Byte
    var data: Byte
    var readMSB: bool
    var recordType: Byte
    var dataRem: Byte
    var checksum: Byte
    var pageStart: nat
    var base: nat
    var addr: nat
    var pageDirty: bool
    var run: bool
    var flash: Flash

    ghost function Value(): M.Parser
      reads this
    {
      M.Parser(bootStart, state, prevData, data, readMSB, recordType, dataRem, checksum,
               pageStart, base, addr, pageDirty, run, flash)
    }

    constructor (bootStart: nat, flash: Flash)
      ensures Value() == M.Start(bootStart, flash)
    {
      this.bootStart, this.flash := bootStart, flash;
      state, prevData, data, readMSB, recordType, dataRem, checksum := M.WaitLine, 0, 0, false, 0, 0, 0;
      pageStart, base, addr, pageDirty, run := 0, 0, 0, false, true;
    }

    method FlushPageIfRequired()
      requires flash.Valid()
      modifies `flash, `pageStart, `pageDirty
      ensures Value() == M.FlushPage(old(Value()))
    {
      hide Flash.Commit;
      if !pageDirty {
        return;
      }
      var newPageStart := addr - Offset(addr, flash.page);
      if pageStart != newPageStart {
        flash := flash.Commit(pageStart);
        pageStart := newPageStart;
        pageDirty := false;
      }
    }

    /** A word of a data record. */
    method StoreWord(word: Word)
      requires flash.Valid()
      modifies `pageDirty, `flash, `addr, `pageStart
      ensures Value() == M.StoreWord(old(Value()), word)
    {
      hide Flash.Erase, Flash.Fill, M.FlushPage, Flash.Valid;
      if !pageDirty {
        flash := flash.Erase(pageStart);
        pageDirty := true;
      }
      flash := flash.Fill(addr, word);
      addr := addr + 2;
      FlushPageIfRequired();
    }

    /** The READ_DATA state. */
    method ReadDataByte()
      requires flash.Valid()
      modifies `dataRem, `state, `pageDirty, `prevData, `flash, `addr, `pageStart, `base
      ensures Value() == M.DataByte(old(Value()))
    {
      hide M.StoreWord, Flash.Valid, MakeWord;
      dataRem := (dataRem - 1) % 0x100;
      if addr >= bootStart {
        state := M.WaitLine;
        pageDirty := false;
        return;
      }
      if dataRem % 2 == 1 {
        prevData := data;
        return;
      }
      var word := MakeWord(prevData, data);
      if recordType == M.TYPE_DATA {
        StoreWord(word);
      } else if recordType == M.TYPE_EXTENDED_SEGMENT {
        base := word as int * 0x10;
      } else if recordType == M.TYPE_EXTENDED_LINEAR {
        base := word as int * 0x1_0000;
      }
      if dataRem == 0 {
        state := M.Checksum;
      }
    }

    /** The switch over the parser states, for a complete byte. */
    method RecordByte()
      requires flash.Valid()
      modifies this
      ensures Value() == M.RecordByte(old(Value()))
    {
      hide M.DataByte, M.FlushPage, M.Sum8, Flash.Valid;
      if state != M.Checksum {
        checksum := M.Sum8(checksum, data);
      }
      match state
      case WaitLine =>
      case ByteCount =>
        dataRem := data;
        state := M.AddressHigh;
      case AddressHigh =>
        addr := addr + 0x100 * data;
        state := M.AddressLow;
      case AddressLow =>
        addr := addr + data;
        state := M.RecordType;
      case RecordType =>
        recordType := data;
        state := if dataRem != 0 then M.ReadData else M.Checksum;
      case ReadData =>
        ReadDataByte();
      case Checksum =>
        if data == (0x100 - checksum) % 0x100 {
          FlushPageIfRequired();
          if recordType == M.TYPE_END_OF_FILE {
            run := false;
          }
        }
    }

    method ParseIntelHEXByte(c: char)
      requires flash.Valid()
      modifies this
      ensures flash.Valid()
      ensures Value() == M.Parse(old(Value()), c)
    {
      hide M.RecordByte, M.HexValue, M.ShiftNibble, Flash.Valid;
      if state == M.WaitLine || c == ':' {
        checksum := 0;
        addr := base;
        readMSB := false;
        if c == ':' {
          state := M.ByteCount;
        }
        return;
      }
      var digit := M.HexValue(c);
      if digit < 0 {
        return;
      }
      data := M.ShiftNibble(data, digit);
      readMSB := !readMSB;
      if readMSB {
        return;
      }
      RecordByte();
    }

    /** The main loop, on all the characters the host sends. */
    method Receive(text: string)
      requires flash.Valid()
      modifies this
      ensures Value() == M.Run(old(Value()), text)
      ensures Safety.Guarded(old(Value())) && !Safety.SomeHits(old(Value()), text)
              ==> SameFrom(old(flash.mem), flash.mem, bootStart)
    {
      ReceiveAll(text);
      ghost var s := old(Value());
      if Safety.Guarded(s) && !Safety.SomeHits(s, text) {
        Safety.BootSectionSpared(s, text);
      }
    }

    /** A contiguous file sent to a device that has just been connected: its image is in flash exactly when the
        end-of-file record's address lies in another page than the end of the image, or the last page is blank. */
    method ReceiveFile(text: string, ghost lines: seq<S.Line>, ghost end: Word)
      requires flash.Valid() && flash.Blank() && Value() == M.Start(bootStart, flash)
      requires S.Contiguous(lines) && |S.Image(lines)| <= bootStart <= |flash.mem|
      requires S.WithoutNoise(text) == S.FileText(lines, end)
      modifies this
      ensures var image, page := S.Image(lines), old(flash.page);
              && !run
              && (flash.mem == Overlay(old(flash.mem), 0, image, S.ImageEnd(|image|, page))
                  <==> S.EndFlushes(|image|, end, page) || S.LastPage(image, page) == Blanks(Offset(|image|, page)))
              && SameFrom(flash.mem, old(flash.mem), S.ImageEnd(|image|, page))
    {
      hide M.Run, Offset, Overlay, S.Image, S.WithoutNoise, S.FileText, S.LastPage, S.EndFlushes, S.ImageEnd,
      S.Contiguous;
      ghost var f := flash;
      ReceiveAll(text);
      S.StreamedFile(bootStart, f, lines, end, text);
    }

    method ReceiveAll(text: string)
      requires flash.Valid()
      modifies this
      ensures Value() == M.Run(old(Value()), text)
    {
      hide M.Parse, Flash.Valid;
      assert text[..0] == "";
      for i := 0 to |text|
        invariant flash.Valid() && Value() == M.Run(old(Value()), text[..i])
      {
        ParseIntelHEXByte(text[i]);
        assert text[..i + 1][..i] == text[..i];
      }
      assert text[..|text|] == text;
    }
  }
}
