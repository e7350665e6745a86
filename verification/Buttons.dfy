/** The button pipeline: the pin-change interrupt and the main loop of the ATmega328p, the serial
    line, and the receive interrupt and the main loop of the ATmega16u2, as interleaved steps.
    Each main loop is cut at its accesses to the variables it shares with its interrupt handler,
    so a handler can run between any two of them. */
module Buttons {
  import opened Bytes
  import S = SnakeModel

  /** Where the main loop of the ATmega328p stands: before its test of `state`, before its second
      read of `state`, before sending, and before clearing `state`. */
  datatype SenderPc = Check | Load | Send | Clear

  /** Where SendNextReport stands: before its test of `state_send`, before writing the report, and
      before clearing `state_send`. */
  datatype ReportPc = Idle | Write | Done

  datatype Pipeline = Pipeline(
    state: Byte,
    msg: Byte,
    sender: SenderPc,
    wire: seq<Byte>,
    dataSend: Byte,
    stateSend: bool,
    report: ReportPc,
    sent: seq<Byte>,
    snapshots: seq<Byte>)

  datatype Event =
    | PinChange(pind: Byte)   // PCINT2 interrupt, with the value of PIND
    | SenderStep              // next step of the ATmega328p main loop
    | Receive                 // USART1 receive interrupt
    | Overrun                 // a byte on the line is lost
    | ReportStep(ready: bool) // next step of SendNextReport; is the IN endpoint writable?

  /** The buttons pressed, one bit each: pins D2 to D6, active low. */
  function Snapshot(pind: Byte): Byte {
    AndAtMost(0xFF - pind, 0x7C);
    And(0xFF - pind, 0x7C) / 4
  }

  function Message(state: Byte): Byte {
    Or(state, 0x20) % 0x100
  }

  function SenderStepped(p: Pipeline): Pipeline {
    match p.sender
    case Check => if p.state != 0 then p.(sender := Load) else p
    case Load =>
      var m := Message(p.state);
      p.(msg := m, sender := if m != 0x20 then Send else Check)
    case Send => p.(wire := p.wire + [p.msg], sender := Clear)
    case Clear => p.(state := 0, sender := Check)
  }

  function ReportStepped(p: Pipeline, ready: bool): Pipeline {
    match p.report
    case Idle => if p.stateSend then p.(report := Write) else p
    case Write => p.(sent := if ready then p.sent + [p.dataSend] else p.sent, report := Done)
    case Done => p.(stateSend := false, report := Idle)
  }

  function Step(p: Pipeline, e: Event): Pipeline {
    match e
    case PinChange(pind) => p.(state := Snapshot(pind), snapshots := p.snapshots + [Snapshot(pind)])
    case SenderStep => SenderStepped(p)
    case Receive => if p.wire == [] then p else p.(dataSend := p.wire[0], stateSend := true, wire := p.wire[1..])
    case Overrun => if p.wire == [] then p else p.(wire := p.wire[1..])
    case ReportStep(ready) => ReportStepped(p, ready)
  }

  const RESET := Pipeline(0, 0, Check, [], 0, false, Idle, [], [])

  function Run(events: seq<Event>): Pipeline
    decreases |events|
  {
    if events == [] then RESET else Step(Run(events[..|events| - 1]), events[|events| - 1])
  }

  /** The reports are messages of the snapshots at strictly increasing places. */
  ghost predicate Picks(sent: seq<Byte>, snapshots: seq<Byte>, places: seq<nat>) {
    && |places| == |sent|
    && Ascending(places, |snapshots|)
    && forall i | 0 <= i < |sent| :: IsMessageOf(sent[i], snapshots, places[i])
  }

  ghost predicate Ascending(places: seq<nat>, limit: nat) {
    && (forall i, j | 0 <= i < j < |places| :: places[i] < places[j])
    && (forall i | 0 <= i < |places| :: places[i] < limit)
  }

  /** The byte is the message of the snapshot at that place, with some button pressed. */
  ghost predicate IsMessageOf(b: Byte, snapshots: seq<Byte>, place: nat) {
    place < |snapshots| && snapshots[place] != 0 && b == Message(snapshots[place]) && b != 0x20
  }

  // Places: where in the snapshots the value of each variable comes from.

  datatype Places = Places(state: nat, msg: nat, wire: seq<nat>, data: nat, sent: seq<nat>)

  ghost function StepPlaces(p: Pipeline, q: Places, e: Event): Places
    requires |p.wire| == |q.wire|
  {
    match e
    case PinChange(_) => q.(state := |p.snapshots|)
    case SenderStep =>
      if p.sender == Load then q.(msg := q.state)
      else if p.sender == Send then q.(wire := q.wire + [q.msg])
      else q
    case Receive => if p.wire == [] then q else q.(data := q.wire[0], wire := q.wire[1..])
    case Overrun => if p.wire == [] then q else q.(wire := q.wire[1..])
    case ReportStep(ready) => if p.report == Write && ready then q.(sent := q.sent + [q.data]) else q
  }

  /** The places of everything that is sent or can still be sent, oldest first. */
  ghost function Front(p: Pipeline, q: Places): seq<nat> {
    q.sent + if p.stateSend && p.report != Done then [q.data] else []
  }

  ghost function Back(p: Pipeline, q: Places): seq<nat> {
    if p.sender == Send then [q.msg]
    else if p.sender != Clear && p.state != 0 then [q.state]
    else []
  }

  ghost predicate Values(p: Pipeline, q: Places) {
    && |q.sent| == |p.sent| && |q.wire| == |p.wire|
    && (forall i | 0 <= i < |p.sent| :: IsMessageOf(p.sent[i], p.snapshots, q.sent[i]))
    && (forall i | 0 <= i < |p.wire| :: IsMessageOf(p.wire[i], p.snapshots, q.wire[i]))
    && (p.stateSend ==> IsMessageOf(p.dataSend, p.snapshots, q.data))
    && (p.report == Write ==> p.stateSend)
    && (p.sender == Send ==> IsMessageOf(p.msg, p.snapshots, q.msg))
    && (p.state != 0 ==> q.state < |p.snapshots| && p.state == p.snapshots[q.state])
  }

  /** A message is 0x20 exactly when no button is pressed. */
  lemma MessageMarks(state: Byte)
    requires state < 32
    ensures Message(state) == state + 0x20
  {
    hide Or, Pow2;
    Pow2Of5();
    OrDisjoint(1, state, 5);
  }

  lemma Pow2Of5()
    ensures Pow2(5) == 32
  {
    Pow2Of8();
    assert Pow2(5) == 2 * Pow2(4);
  }

  lemma MessageOfNone()
    ensures Message(0) == 0x20
  {
    MessageMarks(0);
  }

  lemma ValuesStep(p: Pipeline, q: Places, e: Event)
    requires Values(p, q)
    ensures Values(Step(p, e), StepPlaces(p, q, e))
  {
    hide Message, Snapshot;
    MessageOfNone();
  }

  /** Dropping elements keeps a sequence ascending. */
  lemma DropPlaces(a: seq<nat>, b: seq<nat>, c: seq<nat>, limit: nat)
    requires Ascending(a + b + c, limit)
    ensures Ascending(a + c, limit)
  {
    var s := a + b + c;
    assert forall i | 0 <= i < |a| :: (a + c)[i] == s[i];
    assert forall i | |a| <= i < |a + c| :: (a + c)[i] == s[i + |b|];
  }

  lemma AppendPlace(a: seq<nat>, limit: nat)
    requires Ascending(a, limit)
    ensures Ascending(a + [limit], limit + 1) && Ascending(a, limit + 1)
  {
  }

  ghost predicate Ordered(p: Pipeline, q: Places) {
    Ascending(Front(p, q) + q.wire + Back(p, q), |p.snapshots|)
  }

  lemma OrderedPinChange(p: Pipeline, q: Places, pind: Byte)
    requires Values(p, q) && Ordered(p, q)
    ensures Ordered(Step(p, PinChange(pind)), StepPlaces(p, q, PinChange(pind)))
  {
    hide Message, Snapshot, Ascending;
    var kept := Front(p, q) + q.wire;
    assert kept + Back(p, q) + [] == kept + Back(p, q);
    DropPlaces(kept, Back(p, q), [], |p.snapshots|);
    assert kept + [] == kept;
    AppendPlace(kept, |p.snapshots|);
    AppendPlace(kept + Back(p, q), |p.snapshots|);
  }

  lemma OrderedSenderStep(p: Pipeline, q: Places)
    requires Values(p, q) && Ordered(p, q)
    ensures Ordered(Step(p, SenderStep), StepPlaces(p, q, SenderStep))
  {
    hide Message, Snapshot, Ascending;
    MessageOfNone();
    if p.sender == Send {
      assert Front(p, q) + (q.wire + [q.msg]) + [] == Front(p, q) + q.wire + [q.msg];
    }
  }

  /** A byte leaves the line behind the report that is waiting, or is lost. */
  lemma OrderedLine(p: Pipeline, q: Places, e: Event)
    requires Values(p, q) && Ordered(p, q) && (e == Receive || e == Overrun)
    ensures Ordered(Step(p, e), StepPlaces(p, q, e))
  {
    hide Message, Snapshot, Ascending;
    if p.wire != [] {
      if e == Receive && p.report != Done {
        OrderedReplace(p, q);
      } else {
        var back := Back(p, q);
        var first, rest := [q.wire[0]], q.wire[1..];
        assert q.wire == first + rest;
        assert Front(p, q) + q.wire + back == Front(p, q) + first + (rest + back);
        DropPlaces(Front(p, q), first, rest + back, |p.snapshots|);
        assert Front(p, q) + (rest + back) == Front(p, q) + rest + back;
      }
    }
  }

  /** The byte replaces a report that is still waiting. */
  lemma OrderedReplace(p: Pipeline, q: Places)
    requires Values(p, q) && Ordered(p, q) && p.wire != [] && p.report != Done
    ensures Ordered(Step(p, Receive), StepPlaces(p, q, Receive))
  {
    hide Message, Snapshot, Ascending;
    var back := Back(p, q);
    var first, rest := [q.wire[0]], q.wire[1..];
    assert q.wire == first + rest;
    var waiting := Front(p, q)[|q.sent|..];
    assert Front(p, q) + q.wire + back == q.sent + waiting + (q.wire + back);
    DropPlaces(q.sent, waiting, q.wire + back, |p.snapshots|);
    assert q.sent + (q.wire + back) == q.sent + first + rest + back;
  }

  lemma OrderedReportStep(p: Pipeline, q: Places, ready: bool)
    requires Values(p, q) && Ordered(p, q)
    ensures Ordered(Step(p, ReportStep(ready)), StepPlaces(p, q, ReportStep(ready)))
  {
    hide Message, Snapshot, Ascending;
    var tail := q.wire + Back(p, q);
    if p.report == Write && !ready {
      assert Front(p, q) + q.wire + Back(p, q) == q.sent + [q.data] + tail;
      DropPlaces(q.sent, [q.data], tail, |p.snapshots|);
      assert q.sent + tail == q.sent + [] + q.wire + Back(p, q);
    } else if p.report == Write {
      assert Front(p, q) == q.sent + [q.data] + [];
    }
  }

  /** The invariant over every interleaving. */
  lemma {:induction false} RunKeepsPlaces(events: seq<Event>) returns (q: Places)
    ensures Values(Run(events), q) && Ordered(Run(events), q)
    decreases |events|
  {
    hide Values, Ordered, Step, StepPlaces;
    if events == [] {
      q := Places(0, 0, [], 0, []);
      StartsEmpty(q);
    } else {
      var front, e := events[..|events| - 1], events[|events| - 1];
      var q0 := RunKeepsPlaces(front);
      var p := Run(front);
      SameLength(p, q0);
      q := StepPlaces(p, q0, e);
      ValuesStep(p, q0, e);
      match e
      case PinChange(pind) => OrderedPinChange(p, q0, pind);
      case SenderStep => OrderedSenderStep(p, q0);
      case Receive => OrderedLine(p, q0, e);
      case Overrun => OrderedLine(p, q0, e);
      case ReportStep(ready) => OrderedReportStep(p, q0, ready);
    }
  }

  lemma StartsEmpty(q: Places)
    requires q == Places(0, 0, [], 0, [])
    ensures Values(RESET, q) && Ordered(RESET, q)
  {
  }

  lemma SameLength(p: Pipeline, q: Places)
    requires Values(p, q)
    ensures |p.wire| == |q.wire|
  {
  }

  /** Pipeline safety: under every interleaving, the reports are the messages of some of the
      snapshots, each at most once and in order, and no report says that no button is pressed. */
  lemma ReportsAreSnapshots(events: seq<Event>)
    ensures exists places :: Picks(Run(events).sent, Run(events).snapshots, places)
    ensures 0x20 !in Run(events).sent
  {
    hide Run;
    var q := RunKeepsPlaces(events);
    var p := Run(events);
    var tail := Front(p, q)[|q.sent|..] + q.wire + Back(p, q);
    assert Front(p, q) + q.wire + Back(p, q) == q.sent + tail + [];
    DropPlaces(q.sent, tail, [], |p.snapshots|);
    assert q.sent + [] == q.sent;
    assert Picks(p.sent, p.snapshots, q.sent);
  }

  /** A snapshot is the five pins D2 to D6 inverted, and its message adds bit 5. */
  lemma SnapshotIsPins(pind: Byte)
    ensures Snapshot(pind) == (0xFF - pind) / 4 % 32
    ensures Message(Snapshot(pind)) == Snapshot(pind) + 0x20
  {
    MaskPins(0xFF - pind);
    hide And, Message;
    MessageMarks(Snapshot(pind));
  }

  lemma MaskPins(x: nat)
    ensures And(x, 0x7C) / 4 == x / 4 % 32
  {
    Pow2Of5();
    AndLowMask(x / 4, 5);
    MaskShift(x, 0x3E);
    MaskShift(x / 2, 31);
    hide And, Pow2;
    assert x / 2 / 2 == x / 4;
  }

  /** The five pins of the pad; a pin that is low is a button that is pressed. */
  datatype Pad = Pad(d2: bool, d3: bool, d4: bool, d5: bool, d6: bool)

  ghost function PressedOn(pind: Byte): Pad {
    Pad(pind / 4 % 2 == 0, pind / 8 % 2 == 0, pind / 16 % 2 == 0, pind / 32 % 2 == 0, pind / 64 % 2 == 0)
  }

  lemma FiveBits(a: nat, b: nat, c: nat, d: nat, e: nat)
    requires b == a / 2 && c == b / 2 && d == c / 2 && e == d / 2
    ensures a % 32 == a % 2 + 2 * (b % 2) + 4 * (c % 2) + 8 * (d % 2) + 16 * (e % 2)
  {
    HalveMod(a, 16);
    HalveMod(b, 8);
    HalveMod(c, 4);
    HalveMod(d, 2);
  }

  /** The low pins, as a number with one bit each. */
  lemma SnapshotBits(pind: Byte)
    ensures var p := PressedOn(pind);
            Snapshot(pind) == (if p.d2 then 1 else 0) + (if p.d3 then 2 else 0) + (if p.d4 then 4 else 0)
                              + (if p.d5 then 8 else 0) + (if p.d6 then 16 else 0)
  {
    hide Snapshot;
    SnapshotIsPins(pind);
    Inverted(pind);
    FiveBits(pind / 4, pind / 8, pind / 16, pind / 32, pind / 64);
  }

  lemma Inverted(pind: Byte)
    ensures (0xFF - pind) / 4 % 32 == 31 - pind / 4 % 32
  {
  }

  /** For every state of the pins: a button alone turns the snake of player 1 in its direction, and no button,
      the fifth button or several at once leave it as it is. */
  lemma ButtonTurnsSnake(pind: Byte, dir: int)
    ensures var p := PressedOn(pind);
            S.SetDirA(dir, Message(Snapshot(pind))) ==
            if p == Pad(false, false, true, false, false) then S.UP
            else if p == Pad(false, false, false, true, false) then S.DOWN
            else if p == Pad(false, true, false, false, false) then S.RIGHT
            else if p == Pad(false, false, false, false, true) then S.LEFT
            else dir
  {
    hide Message, Snapshot, PressedOn;
    SnapshotIsPins(pind);
    SnapshotBits(pind);
  }
}
