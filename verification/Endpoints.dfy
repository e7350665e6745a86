/** USB endpoints as the boot loaders see them: a stream of bytes cut into packets.
    The packets handed to a handler are everything the host sends. A handler that
    waits for one more packet finds the device unattached and returns, which is the
    early return the sources make in their wait loops. */
module Endpoints {
  import opened Bytes

  /** An OUT endpoint: bytes left in the current packet, and the packets to come. */
  datatype OutPipe = OutPipe(cur: seq<Byte>, rest: seq<seq<Byte>>) {

    /** No byte is buffered and no packet will come. */
    predicate Dry() { cur == [] && rest == [] }

    /** Endpoint_ClearOUT followed by the wait for the next packet. */
    function Advance(): OutPipe
      requires rest != []
    {
      OutPipe(rest[0], rest[1..])
    }

    /** The pipe once a byte is wanted from it: the next packet if the current one is used up. */
    function Ready(): OutPipe
      requires !Dry()
    {
      if cur == [] then Advance() else this
    }

    /** An empty endpoint bank reads as zero. */
    function Peek(): Byte { if cur == [] then 0 else cur[0] }

    function Drop(): OutPipe { if cur == [] then this else OutPipe(cur[1..], rest) }

    /** Endpoint_Read_16_LE. */
    function PeekWord(): Word { MakeWord(Peek(), Drop().Peek()) }

    function DropWord(): OutPipe { Drop().Drop() }

    /** All bytes the host still has to deliver. */
    ghost function Stream(): seq<Byte> { cur + Flatten(rest) }

    /** The words that can still be read, as their bytes. */
    ghost function Readable(): seq<Byte> { (if cur == [] then [] else Padded(cur)) + Flatten(PaddedAll(rest)) }

    /** Every packet holds whole words, and none is empty. */
    ghost predicate WholeWords() {
      && |cur| % 2 == 0
      && forall i | 0 <= i < |rest| :: |rest[i]| % 2 == 0 && rest[i] != []
    }
  }

  /** A packet as it is read word by word: a last byte without partner is paired with a zero, and an empty packet
      is good for one word of zeros. */
  ghost function Padded(packet: seq<Byte>): seq<Byte> {
    if packet == [] then [0, 0] else if |packet| % 2 == 1 then packet + [0] else packet
  }

  ghost function PaddedAll(packets: seq<seq<Byte>>): (r: seq<seq<Byte>>)
    ensures |r| == |packets| && forall i | 0 <= i < |packets| :: r[i] == Padded(packets[i])
  {
    seq(|packets|, i requires 0 <= i < |packets| => Padded(packets[i]))
  }

  /** An IN endpoint: packets handed to the host, and the bank being filled. */
  datatype InPipe = InPipe(sent: seq<seq<Byte>>, bank: seq<Byte>) {

    /** Endpoint_ClearIN. */
    function Send(): InPipe { InPipe(sent + [bank], []) }

    function Put(b: Byte): InPipe { InPipe(sent, bank + [b]) }

    /** Endpoint_ClearIN if the bank is full. */
    function Room(size: nat): InPipe { if |bank| == size then Send() else this }

    ghost function Stream(): seq<Byte> { Flatten(sent) + bank }

    /** Only full packets have been sent so far. */
    ghost predicate Packed(size: nat) {
      && |bank| <= size
      && forall i | 0 <= i < |sent| :: |sent[i]| == size
    }
  }

  lemma SendStream(p: InPipe)
    ensures p.Send().Stream() == p.Stream()
    ensures Flatten(p.Send().sent) == p.Stream()
  {
    FlattenAppend(p.sent, [p.bank]);
    assert Flatten([p.bank]) == p.bank;
  }

  lemma PutStream(p: InPipe, size: nat, b: Byte)
    requires p.Packed(size) && size > 0
    ensures p.Room(size).Put(b).Stream() == p.Stream() + [b]
    ensures p.Room(size).Put(b).Packed(size)
  {
    SendStream(p);
    assert p.Room(size).Stream() == p.Stream();
  }

  lemma PaddedFirst(packets: seq<seq<Byte>>)
    requires packets != []
    ensures Flatten(PaddedAll(packets)) == Padded(packets[0]) + Flatten(PaddedAll(packets[1..]))
  {
    assert PaddedAll(packets)[1..] == PaddedAll(packets[1..]);
  }

  /** A word read from any pipe is the next word that can be read. */
  lemma ReadPadded(p: OutPipe)
    requires !p.Dry()
    ensures |p.Readable()| >= 2
    ensures p.Ready().PeekWord() == MakeWord(p.Readable()[0], p.Readable()[1])
    ensures p.Ready().DropWord().Readable() == p.Readable()[2..]
  {
    hide PaddedAll, MakeWord, Flatten;
    if p.cur == [] {
      PaddedFirst(p.rest);
      BankWord(p.rest[0], p.rest[1..]);
    } else {
      BankWord(p.cur, p.rest);
    }
  }

  /** The first word of a packet in the bank. */
  lemma BankWord(cur: seq<Byte>, rest: seq<seq<Byte>>)
    ensures var p, r := OutPipe(cur, rest), Padded(cur) + Flatten(PaddedAll(rest));
            p.PeekWord() == MakeWord(r[0], r[1]) && p.DropWord().Readable() == r[2..]
  {
    hide PaddedAll, MakeWord, Flatten;
    var tail := Flatten(PaddedAll(rest));
    assert (Padded(cur) + tail)[2..] == Padded(cur)[2..] + tail;
    if |cur| > 2 {
      assert OutPipe(cur, rest).DropWord().cur == cur[2..];
      assert Padded(cur)[2..] == Padded(cur[2..]);
    } else {
      assert OutPipe(cur, rest).DropWord().cur == [];
      assert Padded(cur)[2..] == [];
      assert [] + tail == tail;
    }
  }

  lemma NothingReadable(p: OutPipe)
    requires p.Dry()
    ensures p.Readable() == []
  {
  }

  /** Packets of whole words are read as they are. */
  lemma {:induction false} WholePadded(packets: seq<seq<Byte>>)
    requires forall i | 0 <= i < |packets| :: |packets[i]| % 2 == 0 && packets[i] != []
    ensures Flatten(PaddedAll(packets)) == Flatten(packets)
    decreases |packets|
  {
    if packets != [] {
      PaddedFirst(packets);
      WholePadded(packets[1..]);
    }
  }

  lemma WholeReadable(p: OutPipe)
    requires p.WholeWords()
    ensures p.Readable() == p.Stream()
  {
    hide PaddedAll, Flatten;
    WholePadded(p.rest);
  }

  /** A word read from a pipe of whole words is the next two bytes of its stream. */
  lemma ReadWord(p: OutPipe)
    requires p.WholeWords() && p.Stream() != []
    ensures !p.Dry() && |p.Stream()| >= 2
    ensures p.Ready().PeekWord() == MakeWord(p.Stream()[0], p.Stream()[1])
    ensures p.Ready().DropWord().Stream() == p.Stream()[2..]
    ensures p.Ready().DropWord().WholeWords()
  {
    ReadyStream(p);
    var q := p.Ready();
    assert |q.cur| >= 2;
    assert q.DropWord().cur == q.cur[2..];
    assert (q.cur + Flatten(q.rest))[2..] == q.cur[2..] + Flatten(q.rest);
  }

  lemma ReadyStream(p: OutPipe)
    requires p.WholeWords() && p.Stream() != []
    ensures !p.Dry()
    ensures p.Ready().Stream() == p.Stream() && p.Ready().cur != []
    ensures p.Ready().WholeWords()
  {
    if p.cur == [] {
      assert p.rest != [];
      var q := p.Advance();
      assert q.rest == p.rest[1..];
    }
  }
}
