/** DFU secure mode: what holds over every session. */
module DfuSecure {
  import opened Bytes
  import opened FlashMemory
  import opened Endpoints
  import opened DfuModel

  /** The command buffer after a request. It depends on the requests alone, so a host can
      tell beforehand which command each of its requests will load. */
  function SentAfter(c: Command, r: Request): (s: Command)
    requires |c.data| == 5
    ensures |s.data| == 5
  {
    if !r.toInterface then c
    else if r.request == REQ_DNLOAD && r.length != 0 && r.packets != [] then
      LoadCommand(c.(dataSize := r.length), r.packets[0])
    else c.(dataSize := r.length)
  }

  function SentAfterAll(c: Command, rs: seq<Request>): (s: Command)
    requires |c.data| == 5
    ensures |s.data| == 5
    decreases |rs|
  {
    if rs == [] then c else SentAfter(SentAfterAll(c, rs[..|rs| - 1]), rs[|rs| - 1])
  }

  /** The request makes the boot loader process a chip erase. */
  predicate ErasesChip(c: Command, r: Request)
    requires |c.data| == 5
  {
    r.toInterface && r.request == REQ_DNLOAD && r.length != 0 && r.packets != [] &&
    IsChipErase(SentAfter(c, r))
  }

  /** Some request of the session makes the boot loader process a chip erase. */
  predicate SessionErases(c: Command, rs: seq<Request>)
    requires |c.data| == 5
    decreases |rs|
  {
    rs != [] &&
    (SessionErases(c, rs[..|rs| - 1]) || ErasesChip(SentAfterAll(c, rs[..|rs| - 1]), rs[|rs| - 1]))
  }

  ghost predicate Locked(d: Dfu) {
    d.Valid() && d.isSecure && !d.waitForExit && (d.state == DFU_IDLE || d.state == DFU_ERROR)
  }

  /** The same boot loader with other memory contents. */
  ghost function WithMemory(d: Dfu, flash: Flash, eeprom: seq<Byte>): Dfu {
    d.(flash := flash, eeprom := eeprom)
  }

  /** A locked boot loader processes a command other than chip erase without touching memory. */
  lemma LockedCommand(d: Dfu)
    requires Locked(d) && !IsChipErase(d.sent)
    ensures Locked(ProcessCommand(d))
    ensures ProcessCommand(d).sent == d.sent
    ensures ProcessCommand(d).flash == d.flash && ProcessCommand(d).eeprom == d.eeprom
  {
    hide ProcessMemProg, ProcessMemRead, ProcessWrite, ProcessRead, Flash.Valid;
  }

  lemma LockedCommandBlind(d: Dfu, flash: Flash, eeprom: seq<Byte>)
    requires Locked(d) && Locked(WithMemory(d, flash, eeprom)) && !IsChipErase(d.sent)
    ensures ProcessCommand(WithMemory(d, flash, eeprom)) == WithMemory(ProcessCommand(d), flash, eeprom)
  {
    hide ProcessMemProg, ProcessMemRead, ProcessWrite, Flash.Valid;
  }

  /** One request that is not a chip erase: the device stays locked and its memories stay put. */
  lemma LockedStep(d: Dfu, r: Request)
    requires Locked(d) && !ErasesChip(d.sent, r)
    ensures Locked(Step(d, r).0)
    ensures Step(d, r).0.sent == SentAfter(d.sent, r)
    ensures Step(d, r).0.flash == d.flash && Step(d, r).0.eeprom == d.eeprom
  {
    hide ProcessCommand, LoadCommand, IsChipErase, WriteWords, WriteEeprom, ReadWords, ReadEeprom, Flash.Valid;
    if r.toInterface && r.request == REQ_DNLOAD && r.length != 0 && r.packets != [] {
      LockedCommand(d.(sent := SentAfter(d.sent, r)));
    }
  }

  /** One request that is not a chip erase: the reply does not depend on the memories. */
  lemma LockedStepBlind(d: Dfu, flash: Flash, eeprom: seq<Byte>, r: Request)
    requires Locked(d) && Locked(WithMemory(d, flash, eeprom)) && !ErasesChip(d.sent, r)
    ensures Step(WithMemory(d, flash, eeprom), r).1 == Step(d, r).1
    ensures Step(WithMemory(d, flash, eeprom), r).0 == WithMemory(Step(d, r).0, flash, eeprom)
  {
    hide ProcessCommand, LoadCommand, IsChipErase, WriteWords, WriteEeprom, ReadWords, ReadEeprom, Flash.Valid;
    if r.toInterface && r.request == REQ_DNLOAD && r.length != 0 && r.packets != [] {
      var c := d.(sent := SentAfter(d.sent, r));
      LockedCommand(c);
      LockedCommandBlind(c, flash, eeprom);
    }
  }

  /** Secure mode over a whole session without chip erase: only dfuIDLE and dfuERROR are
      visited, and neither memory changes. */
  lemma {:induction false} SecureSession(d: Dfu, rs: seq<Request>)
    requires Locked(d) && !SessionErases(d.sent, rs)
    ensures Locked(Run(d, rs).0)
    ensures Run(d, rs).0.sent == SentAfterAll(d.sent, rs)
    ensures Run(d, rs).0.flash == d.flash && Run(d, rs).0.eeprom == d.eeprom
    decreases |rs|
  {
    hide Step, ErasesChip, SentAfter;
    if rs != [] {
      SecureSession(d, rs[..|rs| - 1]);
      LockedStep(Run(d, rs[..|rs| - 1]).0, rs[|rs| - 1]);
    }
  }

  /** Secure mode reveals nothing: two devices that differ only in their memories give the same
      replies to every session without chip erase. */
  lemma {:induction false} SecureIsBlind(d: Dfu, flash: Flash, eeprom: seq<Byte>, rs: seq<Request>)
    requires Locked(d) && Locked(WithMemory(d, flash, eeprom)) && !SessionErases(d.sent, rs)
    ensures Run(WithMemory(d, flash, eeprom), rs).1 == Run(d, rs).1
    ensures Run(WithMemory(d, flash, eeprom), rs).0 == WithMemory(Run(d, rs).0, flash, eeprom)
    decreases |rs|
  {
    hide Step, ErasesChip, SentAfter;
    if rs != [] {
      var front, last := rs[..|rs| - 1], rs[|rs| - 1];
      SecureSession(d, front);
      SecureSession(WithMemory(d, flash, eeprom), front);
      SecureIsBlind(d, flash, eeprom, front);
      LockedStepBlind(Run(d, front).0, flash, eeprom, last);
    }
  }

  lemma RunNext(d: Dfu, rs: seq<Request>, r: Request)
    requires d.Valid()
    ensures var (e, replies) := Run(d, rs);
            Run(d, rs + [r]) == (Step(e, r).0, replies + [Step(e, r).1])
  {
    hide Step, Dfu.Valid;
    assert (rs + [r])[..|rs|] == rs;
  }

  lemma CommandKeepsSent(d: Dfu)
    requires d.Valid()
    ensures ProcessCommand(d).sent == d.sent
    ensures ProcessCommand(d).isSecure ==> d.isSecure
  {
    hide ProcessRead, ProcessMemRead, ProcessMemProg, ProcessWrite, Flash.Valid;
    MemoryKeepsSent(d);
    WriteKeepsSent(d);
  }

  lemma MemoryKeepsSent(d: Dfu)
    requires d.Valid()
    ensures ProcessMemProg(d).sent == d.sent && ProcessMemProg(d).isSecure == d.isSecure
    ensures ProcessMemRead(d).sent == d.sent && ProcessMemRead(d).isSecure == d.isSecure
  {
    hide Flash.Valid, Flash.Erase, FirstNonBlank, MakeWord;
  }

  lemma WriteKeepsSent(d: Dfu)
    requires d.Valid()
    ensures ProcessWrite(d).sent == d.sent && (ProcessWrite(d).isSecure ==> d.isSecure)
  {
    hide Flash.Valid, EraseFrom, Flash.Read, MakeWord;
  }

  lemma DataStageKeeps(d: Dfu, out: OutPipe)
    requires d.Valid()
    ensures DataStage(d, out).sent == d.sent && DataStage(d, out).isSecure == d.isSecure
  {
    hide WriteWords, WriteEeprom, Discard, Flash.Valid;
  }

  lemma FinishExitKeeps(d: Dfu)
    requires d.Valid()
    ensures FinishExit(d).sent == d.sent
    ensures FinishExit(d).isSecure ==> d.isSecure
  {
    hide ProcessCommand, Flash.Valid;
    CommandKeepsSent(d);
  }

  /** In every state the command buffer is what the requests make it, and secure mode is
      never entered again. */
  lemma StepKeeps(d: Dfu, r: Request)
    requires d.Valid()
    ensures Step(d, r).0.sent == SentAfter(d.sent, r)
    ensures Step(d, r).0.isSecure ==> d.isSecure
  {
    hide FinishExit, ProcessCommand, DataStage, LoadCommand, ReadWords, ReadEeprom, Flash.Valid;
    if r.toInterface && r.request == REQ_DNLOAD {
      var d1 := d.(sent := d.sent.(dataSize := r.length));
      FinishExitKeeps(d1);
      var e := FinishExit(d1);
      if e.sent.dataSize == 0 {
        DataStageKeeps(e, OutPipe([], r.packets));
      } else if r.packets != [] {
        var c := e.(sent := LoadCommand(e.sent, r.packets[0]));
        CommandKeepsSent(c);
        DataStageKeeps(ProcessCommand(c), OutPipe(AfterCommand(r.packets[0]), r.packets[1..]));
      }
    }
  }

  /** A chip erase unlocks the device. */
  lemma EraseUnlocks(d: Dfu, r: Request)
    requires Locked(d) && ErasesChip(d.sent, r)
    ensures !Step(d, r).0.isSecure
  {
    hide DataStage, LoadCommand, EraseFrom, Flash.Valid;
    var c := d.(sent := SentAfter(d.sent, r));
    DataStageKeeps(ProcessCommand(c), OutPipe(AfterCommand(r.packets[0]), r.packets[1..]));
  }

  /** Once cleared, secure mode stays cleared. */
  lemma {:induction false} UnlockedForever(d: Dfu, rs: seq<Request>)
    requires d.Valid()
    ensures Run(d, rs).0.sent == SentAfterAll(d.sent, rs)
    ensures Run(d, rs).0.isSecure ==> d.isSecure
    decreases |rs|
  {
    hide Step, SentAfter;
    if rs != [] {
      UnlockedForever(d, rs[..|rs| - 1]);
      StepKeeps(Run(d, rs[..|rs| - 1]).0, rs[|rs| - 1]);
    }
  }

  /** A locked device is unlocked exactly by the sessions that contain a chip erase. */
  lemma {:induction false} UnlockedExactlyByErase(d: Dfu, rs: seq<Request>)
    requires Locked(d)
    ensures Run(d, rs).0.isSecure <==> !SessionErases(d.sent, rs)
    decreases |rs|
  {
    hide Step, SentAfter, ErasesChip;
    if rs != [] {
      var front, last := rs[..|rs| - 1], rs[|rs| - 1];
      UnlockedExactlyByErase(d, front);
      UnlockedForever(d, front);
      var e := Run(d, front).0;
      StepKeeps(e, last);
      if !SessionErases(d.sent, front) {
        SecureSession(d, front);
        if ErasesChip(e.sent, last) {
          EraseUnlocks(e, last);
        } else {
          LockedStep(e, last);
        }
      }
    }
  }
}
