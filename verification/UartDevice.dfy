/** The UART as the driver sees it: registers, and what the hardware may do between two instructions. */
module UartDevice {
  import opened Words

  /** The interrupt-enable bits of the control register. */
  datatype Control = Control(rts: bool, rrdy: bool, trdy: bool, dcts: bool)

  /** The bits of the status register that the driver tests; `bad` is PE or FE. */
  datatype Status = Status(rrdy: bool, trdy: bool, dcts: bool, cts: bool, bad: bool)

  /**
   The line side. `holding` is the transmit holding register, empty when TRDY is set. `wire` is what has
   left it, and `overwritten` records a write to TXDATA while it was full.
   */
  datatype Line = Line(cts: bool, dcts: bool, rrdy: bool, bad: bool, data: byte,
                       holding: Option<byte>, wire: seq<byte>, overwritten: bool)

  /** What the hardware does in one gap between instructions. */
  datatype Events = Events(ctsChanges: nat, transmits: bool, arrival: Option<(byte, bool)>)

  function Read(l: Line): Status {
    Status(l.rrdy, l.holding.None?, l.dcts, l.cts, l.bad)
  }

  function Advance(l: Line, e: Events): Line {
    var l1 := l.(cts := if e.ctsChanges % 2 == 1 then !l.cts else l.cts, dcts := l.dcts || e.ctsChanges > 0);
    var l2 := if e.transmits && l1.holding.Some?
        then l1.(holding := None, wire := l1.wire + [l1.holding.value]) else l1;
    match e.arrival
    case None => l2
    case Some((b, bad)) => l2.(rrdy := true, data := b, bad := bad)
  }

  /** Writing the status register clears the latched bits. */
  function ClearStatus(l: Line): Line {
    l.(dcts := false, bad := false)
  }

  function WriteTxData(l: Line, b: byte): Line {
    l.(holding := Some(b), overwritten := l.overwritten || l.holding.Some?)
  }

  function ReadRxData(l: Line): Line {
    l.(rrdy := false)
  }

  function Held(l: Line): seq<byte> {
    if l.holding.Some? then [l.holding.value] else []
  }

  /** Every byte written to TXDATA has reached the wire or is held, unless one was overwritten. */
  ghost predicate Transmitted(l: Line, written: seq<byte>) {
    !l.overwritten ==> written == l.wire + Held(l)
  }

  lemma AdvanceTransmitted(l: Line, e: Events, written: seq<byte>)
    requires Transmitted(l, written)
    ensures Transmitted(Advance(l, e), written)
  {
    assert l.wire + Held(l) + [] == l.wire + Held(l);
  }

  lemma ClearTransmitted(l: Line, written: seq<byte>)
    requires Transmitted(l, written)
    ensures Transmitted(ClearStatus(l), written) && Transmitted(ReadRxData(l), written)
  {
  }

  /** The interrupt line. */
  predicate IrqPending(l: Line, c: Control) {
    (l.rrdy && c.rrdy) || (l.holding.None? && c.trdy) || (l.dcts && c.dcts)
  }

  /** The transmit side will be interrupted as soon as it can make progress. */
  predicate Awake(l: Line, c: Control, flowControl: bool) {
    c.dcts && (c.trdy || (flowControl && (!l.cts || l.dcts)))
  }

  /** The device may send: it has room and, under flow control, CTS is set. */
  predicate MaySend(l: Line, flowControl: bool) {
    l.holding.None? && (flowControl ==> l.cts)
  }

  /** A transmitter that is awake raises an interrupt whenever it may send. */
  lemma AwakeInterrupts(l: Line, c: Control, flowControl: bool)
    requires Awake(l, c, flowControl) && MaySend(l, flowControl)
    ensures IrqPending(l, c)
  {
  }

  /** CTS changes only through a latched edge, so hardware alone never puts the transmitter to sleep. */
  lemma AdvanceAwake(l: Line, e: Events, c: Control, flowControl: bool)
    requires Awake(l, c, flowControl)
    ensures Awake(Advance(l, e), c, flowControl)
  {
  }
}
