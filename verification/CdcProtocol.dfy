/** The AVR109 protocol: how replies are framed, which word an address command reaches, and that blocks
    written over any number of commands read back. */
module CdcProtocol {
  import opened Bytes
  import opened FlashMemory
  import opened Endpoints
  import opened CdcModel

  // Framing.

  lemma {:induction false} PutAllStream(p: InPipe, reply: seq<Byte>)
    requires p.Packed(EPSIZE)
    ensures PutAll(p, reply).Packed(EPSIZE) && PutAll(p, reply).Stream() == p.Stream() + reply
    ensures PutAll(p, reply).bank != [] || (reply == [] && p.bank == [])
    decreases |reply|
  {
    hide InPipe.Stream, InPipe.Packed;
    if reply == [] {
      assert p.Stream() + reply == p.Stream();
    } else {
      PutStream(p, EPSIZE, reply[0]);
      PutAllStream(p.Room(EPSIZE).Put(reply[0]), reply[1..]);
      assert p.Stream() + [reply[0]] + reply[1..] == p.Stream() + reply;
    }
  }

  /** The packets end with the first one that is not full. */
  ghost predicate Terminated(packets: seq<seq<Byte>>) {
    && packets != []
    && |packets[|packets| - 1]| < EPSIZE
    && forall i | 0 <= i < |packets| - 1 :: |packets[i]| == EPSIZE
  }

  lemma FinishStream(p: InPipe)
    requires p.Packed(EPSIZE)
    ensures Terminated(Finish(p).sent) && Flatten(Finish(p).sent) == p.Stream()
  {
    hide Flatten;
    SendStream(p);
    SendStream(p.Send());
    assert p.Send().bank == [];
  }

  /** Every reply, of any length, is sent as full packets and exactly one shorter packet, possibly empty,
      which together hold the reply. */
  lemma FrameLaw(reply: seq<Byte>)
    ensures Terminated(Frame(reply)) && Flatten(Frame(reply)) == reply
  {
    hide PutAll, Finish, Terminated;
    var p := InPipe([], []);
    PutAllStream(p, reply);
    FinishStream(PutAll(p, reply));
  }

  datatype Received = Received(reply: seq<Byte>, rest: seq<seq<Byte>>)

  /** The host's side: a transfer ends with the first short packet. */
  ghost function Receive(packets: seq<seq<Byte>>): Received
    decreases |packets|
  {
    if packets == [] then Received([], [])
    else if |packets[0]| < EPSIZE then Received(packets[0], packets[1..])
    else
      var more := Receive(packets[1..]);
      Received(packets[0] + more.reply, more.rest)
  }

  lemma {:induction false} ReceiveTerminated(packets: seq<seq<Byte>>, rest: seq<seq<Byte>>)
    requires Terminated(packets)
    ensures Receive(packets + rest) == Received(Flatten(packets), rest)
    decreases |packets|
  {
    var all := packets + rest;
    if |packets| == 1 {
      assert Flatten(packets) == packets[0] + Flatten([]);
      assert all[1..] == rest;
    } else {
      var more := packets[1..];
      assert Terminated(more) by {
        assert more[|more| - 1] == packets[|packets| - 1];
        assert forall i | 0 <= i < |more| - 1 :: more[i] == packets[i + 1];
      }
      ReceiveTerminated(more, rest);
      assert all[1..] == more + rest;
    }
  }

  /** The host recovers every reply and stops exactly at its end. */
  lemma ReceiveFrame(reply: seq<Byte>, rest: seq<seq<Byte>>)
    ensures Receive(Frame(reply) + rest) == Received(reply, rest)
  {
    hide Frame, Receive;
    FrameLaw(reply);
    ReceiveTerminated(Frame(reply), rest);
  }

  // Addresses.

  /** The flash sizes of the USB AVRs. */
  ghost predicate UsbFlash(f: Flash) {
    f.Valid() && (|f.mem| == 0x2000 || |f.mem| == 0x4000 || |f.mem| == 0x8000 ||
                  |f.mem| == 0x1_0000 || |f.mem| == 0x2_0000)
  }

  lemma AddressValue(hi: Byte, lo: Byte)
    ensures AddressOf(hi, lo) == ShiftNine(hi) + 2 * lo as int
  {
    hide Or, ShiftNine;
    AddressHalves(hi, lo);
  }

  lemma ShiftNineValue(hi: Byte)
    ensures ShiftNine(hi) == if hi < 0x40 then 0x200 * hi as int
                             else if hi < 0x80 then 0xFFFF_0000 + 0x200 * hi as int
                             else if hi < 0xC0 then 0x200 * (hi as int - 0x80)
                             else 0xFFFF_0000 + 0x200 * (hi as int - 0x80)
  {
    LowBits(hi);
  }

  /** The word an address command names is the word the flash decodes if and only if the part has at
      most 64 KB, or the word lies in the first or the last quarter of the 16-bit word addresses. */
  lemma AddressReaches(f: Flash, hi: Byte, lo: Byte)
    requires UsbFlash(f) && 0x200 * (hi as int) + 2 * lo as int < |f.mem|
    ensures f.Decode(AddressOf(hi, lo)) == 0x200 * hi as int + 2 * lo as int
            <==> |f.mem| <= 0x1_0000 || hi < 0x40 || hi >= 0xC0
  {
    hide Or, ShiftNine, AddressOf, Wrap;
    AddressValue(hi, lo);
    ShiftNineValue(hi);
    var a := AddressOf(hi, lo);
    WrapIsMod(a, |f.mem|);
    if a < |f.mem| {
      WrapInside(a, |f.mem|);
    } else if |f.mem| == 0x1_0000 {
      Fold16(a, hi, lo);
    } else {
      Fold17(a, hi, lo);
    }
  }

  /** An address command that misses: word 0x4000 of a 128 KB part, byte address 0x8000, is taken for word 0xC000. */
  lemma AddressMisses(f: Flash)
    requires f.Valid() && |f.mem| == 0x2_0000
    ensures f.Decode(AddressOf(0x40, 0)) == 0x1_8000
  {
    hide Or, ShiftNine, AddressOf, Wrap;
    AddressValue(0x40, 0);
    ShiftNineValue(0x40);
    WrapIsMod(AddressOf(0x40, 0), |f.mem|);
  }

  lemma Fold16(a: nat, hi: Byte, lo: Byte)
    requires 0x40 <= hi < 0x80 && a == 0xFFFF_0000 + 0x200 * (hi as int) + 2 * lo as int
    ensures a % 0x1_0000 == 0x200 * hi as int + 2 * lo as int
  {
  }

  lemma Fold17(a: nat, hi: Byte, lo: Byte)
    requires 0x40 <= hi < 0x80 || hi >= 0xC0
    requires a == 0xFFFF_0000 + 0x200 * (if hi < 0x80 then hi as int else hi as int - 0x80) + 2 * lo as int
    ensures a % 0x2_0000 == 0x1_0000 + 0x200 * (if hi < 0x80 then hi as int else hi as int - 0x80) + 2 * lo as int
  {
  }

  /** Below 32 KB the current address is the byte address of the word. */
  lemma LowAddress(hi: Byte, lo: Byte)
    requires hi < 0x40
    ensures AddressOf(hi, lo) == 0x200 * hi as int + 2 * lo as int
  {
    hide Or, ShiftNine, AddressOf;
    AddressValue(hi, lo);
    ShiftNineValue(hi);
  }

  /** CurrAddress | HighByte is addition. */
  lemma OrHigh(addr: nat)
    requires addr % 2 == 0
    ensures Or(addr, 0) == addr && Or(addr, 1) == addr + 1
  {
    OrEven(addr / 2, 1);
    assert Or(addr / 2, 0) == addr / 2;
  }
}
