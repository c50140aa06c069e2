/** The interrupt-driven UART driver: altera_avalon_uart_init.c, _write.c and _read.c, fast variants. */
module UartDriver {
  import opened Words
  import opened Ring
  import opened UartDevice

  /** The abstract transmit side: bytes written to TXDATA, and bytes still queued. */
  datatype Outgoing = Outgoing(written: seq<byte>, queue: seq<byte>)

  /** The abstract receive side. `wrapped` is set once a byte has been stored into a full ring. */
  datatype Incoming = Incoming(stored: seq<byte>, delivered: seq<byte>, queue: seq<byte>, wrapped: bool)

  /** What the hardware does around the three gaps of one interrupt service. */
  datatype Gaps = Gaps(beforeClear: Events, afterClear: Events, beforeTransmit: Events)

  /**
   An interrupt service: what it found, and what the hardware did meanwhile. `waiting` is the receive queue's
   length.
   */
  datatype Service = Service(line: Line, control: Control, waiting: nat, gaps: Gaps)

  /** The service finds a good character and a full receive ring. */
  predicate Overflows(s: Service) {
    s.line.rrdy && !s.line.bad && s.waiting == 63
  }

  ghost predicate SomeOverflows(services: seq<Service>) {
    exists i :: 0 <= i < |services| && Overflows(services[i])
  }

  ghost predicate SomeLosesEdge(services: seq<Service>, flowControl: bool) {
    exists i :: 0 <= i < |services| && LostEdge(services[i].line, services[i].gaps, services[i].control, flowControl)
  }

  lemma OneMoreService(before: seq<Service>, s: Service, from: nat, flowControl: bool)
    requires from <= |before|
    ensures SomeOverflows(before + [s]) <==> SomeOverflows(before) || Overflows(s)
    ensures SomeLosesEdge((before + [s])[from..], flowControl)
      <==> SomeLosesEdge(before[from..], flowControl) || LostEdge(s.line, s.gaps, s.control, flowControl)
  {
    var after := before + [s];
    assert after[|before|] == s && after[from..][|before| - from] == s;
    assert forall i :: 0 <= i < |before| ==> after[i] == before[i];
    assert forall i :: 0 <= i < |before| - from ==> after[from..][i] == before[from..][i];
  }

  datatype Result = Count(n: nat) | WouldBlock | StillWaiting

  class Uart {
    const flowControl: bool
    const txBuf: array<byte>
    const rxBuf: array<byte>
    var ctrl: Control
    var txStart: nat
    var txEnd: nat
    var rxStart: nat
    var rxEnd: nat
    var control: Control
    var line: Line
    ghost var tx: Outgoing
    ghost var rx: Incoming
    /** Whether the foreground is outside the filling part of write, respectively outside read. */
    ghost var txArmed: bool
    ghost var rxArmed: bool
    /** Every interrupt service so far, and how many there had been when transmission was last enabled. */
    ghost var services: seq<Service>
    ghost var armedAt: nat

    /** altera_avalon_uart_init, on a device whose line is idle. */
    constructor (flowControl: bool, cts: bool)
      ensures Valid() && txArmed && rxArmed && fresh(txBuf) && fresh(rxBuf) && services == []
      ensures tx == Outgoing([], []) && rx == Incoming([], [], [], false)
      ensures ctrl == Control(true, true, false, true)
    {
      this.flowControl := flowControl;
      txBuf, rxBuf := new byte[64], new byte[64];
      txStart, txEnd, rxStart, rxEnd := 0, 0, 0, 0;
      line := Line(cts, false, false, false, 0, None, [], false);
      ctrl := Control(true, true, false, true);
      control := Control(true, true, false, true);
      tx, rx, txArmed, rxArmed := Outgoing([], []), Incoming([], [], [], false), true, true;
      services, armedAt := [], 0;
    }

    ghost predicate TxOk()
      reads this`txStart, this`txEnd, this`tx, this`line, txBuf
    {
      && Holds(txBuf[..], txStart, txEnd, tx.queue) && txStart == Masked(|tx.written|)
      && Transmitted(line, tx.written)
    }

    ghost predicate RxOk()
      reads this`rxStart, this`rxEnd, this`rx, rxBuf
    {
      && rxBuf.Length == 64 && rxStart < 64 && rxEnd < 64
      && (!rx.wrapped
          ==> && Holds(rxBuf[..], rxStart, rxEnd, rx.queue) && rx.stored == rx.delivered + rx.queue
              && rxStart == Masked(|rx.delivered|))
    }

    /** All four masked indices are those of counters that never wrap. */
    lemma IndicesCount()
      requires TxOk() && RxOk()
      ensures txStart == Masked(|tx.written|) && txEnd == Masked(|Accepted()|)
      ensures !rx.wrapped ==> rxStart == Masked(|rx.delivered|) && rxEnd == Masked(|rx.stored|)
    {
      Counters(txBuf[..], txStart, txEnd, tx.queue, |tx.written|, |Accepted()|);
      if !rx.wrapped {
        Counters(rxBuf[..], rxStart, rxEnd, rx.queue, |rx.delivered|, |rx.stored|);
      }
    }

    /** The rings and the registers, within an interrupt service too. */
    ghost predicate Sound()
      reads this`txStart, this`txEnd, this`tx, this`line, this`rxStart, this`rxEnd, this`rx
      reads this`rxArmed, this`ctrl, this`control, txBuf, rxBuf
    {
      && txBuf != rxBuf && control == ctrl
      && TxOk() && RxOk()
      && (rxArmed && !rx.wrapped && !ctrl.rrdy ==> |rx.queue| == 63)
    }

    /**
     What holds at every point where interrupts are enabled. A byte has been stored into a full receive ring
     exactly if some service found one full. The transmitter is awake, unless a service since transmission was
     last enabled has lost a CTS edge.
     */
    ghost predicate Valid()
      reads this, txBuf, rxBuf
    {
      && Sound() && armedAt <= |services|
      && (rx.wrapped <==> SomeOverflows(services))
      && (TxAwake() || SomeLosesEdge(services[armedAt..], flowControl))
    }

    /** Without flow control no wake-up is ever lost. */
    lemma AlwaysAwake()
      requires Valid() && !flowControl
      ensures TxAwake()
    {
    }

    /** No transmit wake-up has been lost. */
    ghost predicate TxAwake()
      reads this`txArmed, this`tx, this`line, this`control
    {
      txArmed && tx.queue != [] ==> Awake(line, control, flowControl)
    }

    /** altera_avalon_uart_rxirq */
    method RxIrq(status: Status)
      requires TxOk() && RxOk() && txBuf != rxBuf && control == ctrl
      modifies this`rxEnd, this`rx, this`ctrl, this`control, this`line, rxBuf
      ensures TxOk() && RxOk() && control == ctrl
      ensures line == if status.bad then old(line) else ReadRxData(old(line))
      ensures ctrl == old(ctrl).(rrdy := ctrl.rrdy) && (ctrl.rrdy ==> old(ctrl).rrdy)
      ensures status.bad ==> rx == old(rx) && ctrl == old(ctrl)
      ensures !status.bad && !old(rx).wrapped
              ==> && rx.wrapped == (|old(rx).queue| == 63)
                  && rx == old(rx).(stored := old(rx).stored + [old(line).data], wrapped := rx.wrapped,
                                    queue := if rx.wrapped then [] else old(rx).queue + [old(line).data])
                  && ctrl.rrdy == (old(ctrl).rrdy && (rx.wrapped || |rx.queue| != 63))
      ensures old(rx).wrapped ==> rx.wrapped
      ensures !old(rx).wrapped && rx.wrapped ==> rxStart == rxEnd
      ensures !status.bad && !old(rx).wrapped
              ==> (rx.stored == rx.delivered + Contents(rxBuf[..], rxStart, rxEnd) <==> |old(rx).queue| != 63)
    {
      hide Holds, Contents, Transmitted;
      if status.bad {
        return;
      }
      ClearTransmitted(line, tx.written);
      Store();
      var next := After(rxEnd);
      if !rx.wrapped {
        Empty(rxBuf[..], rxStart, rxEnd, rx.queue);
      }
      if next == rxStart {
        ctrl := ctrl.(rrdy := false);
        control := ctrl;
      }
    }

    method Store()
      requires RxOk() && txBuf != rxBuf
      modifies this`rxEnd, this`rx, this`line, rxBuf
      ensures RxOk() && line == ReadRxData(old(line))
      ensures txBuf[..] == old(txBuf[..])
      ensures rx.wrapped == (old(rx).wrapped || |old(rx).queue| == 63)
      ensures !old(rx).wrapped
              ==> && rx == old(rx).(stored := old(rx).stored + [old(line).data], wrapped := rx.wrapped,
                                    queue := if rx.wrapped then [] else old(rx).queue + [old(line).data])
                  && Holds(rxBuf[..], rxStart, rxEnd, rx.queue)
                  && (rx.wrapped ==> After(rxEnd) != rxStart == rxEnd)
      ensures !old(rx).wrapped
              ==> (rx.stored == rx.delivered + Contents(rxBuf[..], rxStart, rxEnd) <==> |old(rx).queue| != 63)
    {
      ghost var b, q, before := line.data, rx.queue, rxBuf[..];
      var next := After(rxEnd);
      rxBuf[rxEnd] := line.data;
      line := ReadRxData(line);
      assert rxBuf[..] == before[rxEnd := b];
      if !rx.wrapped {
        if |q| == 63 {
          EnqueueFull(before, rxStart, rxEnd, q, b);
        } else {
          Enqueue(before, rxStart, rxEnd, q, b);
        }
      }
      rxEnd := next;
      rx := rx.(stored := rx.stored + [b], queue := if |q| == 63 then [] else q + [b],
                wrapped := rx.wrapped || |q| == 63);
      if !old(rx).wrapped {
        HoldsContents(rxBuf[..], rxStart, rxEnd, rx.queue);
        Empty(rxBuf[..], rxStart, rxEnd, rx.queue);
      }
    }

    /** altera_avalon_uart_txirq. The status register is read again only when flow control saw CTS low. */
    method TxIrq(status: Status)
      requires TxOk() && control == ctrl
      modifies this`txStart, this`tx, this`ctrl, this`control, this`line
      ensures TxOk() && control == ctrl
      ensures ctrl.rts == old(ctrl).rts && ctrl.rrdy == old(ctrl).rrdy
      ensures Accepted() == old(Accepted())
      ensures Eligible(status, old(tx).queue, flowControl)
              ==> && tx == AfterSending(old(tx)) && |tx.written| == |old(tx).written| + 1
                  && line == WriteTxData(old(line), old(tx).queue[0])
                  && (tx.queue != [] ==> ctrl == old(ctrl).(trdy := true))
      ensures !Eligible(status, old(tx).queue, flowControl)
              ==> && tx == old(tx) && line == old(line)
                  && (tx.queue != [] ==> ctrl == old(ctrl).(trdy := old(ctrl).trdy && line.cts))
      ensures tx.queue == [] ==> ctrl == old(ctrl).(trdy := false, dcts := false)
    {
      hide TxOk, AfterSending, Accepted, WriteTxData, Eligible;
      SendOrThrottle(status);
      DrainedWhen();
      if txStart == txEnd {
        ctrl := ctrl.(trdy := false, dcts := false);
      }
      control := ctrl;
    }

    /** The first half: send if there is a byte and it may go, else look at CTS once more. */
    method SendOrThrottle(status: Status)
      requires TxOk()
      modifies this`txStart, this`tx, this`ctrl, this`line
      ensures TxOk() && Accepted() == old(Accepted())
      ensures if Eligible(status, old(tx).queue, flowControl) then
                && tx == AfterSending(old(tx)) && |tx.written| == |old(tx).written| + 1
                && line == WriteTxData(old(line), old(tx).queue[0]) && ctrl == old(ctrl).(trdy := true)
              else
                && tx == old(tx) && line == old(line)
                && ctrl == old(ctrl).(trdy := old(ctrl).trdy && (tx.queue == [] || line.cts))
    {
      hide TxOk, AfterSending, Accepted, WriteTxData;
      DrainedWhen();
      if txStart != txEnd {
        if !flowControl || status.cts {
          Send();
          ctrl := ctrl.(trdy := true);
        } else {
          if !Read(line).cts {
            ctrl := ctrl.(trdy := false);
          }
        }
      }
    }

    method Send()
      requires TxOk() && tx.queue != []
      modifies this`txStart, this`tx, this`line
      ensures TxOk()
      ensures tx == AfterSending(old(tx)) && |tx.written| == |old(tx).written| + 1
      ensures Accepted() == old(Accepted())
      ensures line == WriteTxData(old(line), old(tx).queue[0])
    {
      Dequeue(txBuf[..], txStart, txEnd, tx.queue);
      line := WriteTxData(line, txBuf[txStart]);
      tx := AfterSending(tx);
      txStart := After(txStart);
    }

    /**
     altera_avalon_uart_irq, with the hardware free to act between its instructions. Under flow control a
     wake-up is lost exactly when CTS rises between the read of the status register and the write that
     clears it, after which CTS stays high, and the transmit interrupt is off.
     */
    method Irq(gaps: Gaps)
      requires Valid()
      modifies this`txStart, this`tx, this`rxEnd, this`rx, this`ctrl, this`control, this`line, this`services, rxBuf
      ensures Valid()
      ensures services == old(services) + [Service(old(line), old(control), |old(rx).queue|, gaps)]
      ensures old(TxAwake())
              ==> (TxAwake()
                   <==> !(old(txArmed) && old(tx).queue != [] && LostEdge(old(line), gaps, old(control), flowControl)))
      ensures TransmitPart(old(tx), tx, old(line), line, old(control), control, gaps)
      ensures flowControl && !old(line).cts ==> tx == old(tx)
      ensures old(tx).queue != [] && MaySend(old(line), flowControl)
              ==> tx == Outgoing(old(tx).written + [old(tx).queue[0]], old(tx).queue[1..])
      ensures ReceivePart(old(rx), rx, old(line), line, gaps)
      ensures Accepted() == old(Accepted()) && |old(tx).written| <= |tx.written|
      ensures !old(rx).wrapped && rx.wrapped ==> rxStart == rxEnd
    {
      hide Sound, Awake, LostEdge, Overwrites, EdgesAtTransmit, TrdyAfter, SomeOverflows, SomeLosesEdge;
      ghost var l0, c0, t0 := line, control, tx;
      ghost var service := Service(line, control, |rx.queue|, gaps);
      OneMoreService(services, service, armedAt, flowControl);
      services := services + [service];
      SameControl();
      Serve(gaps);
      SameControl();
      hide Quiet, Transmits;
      ServiceKeeps(txArmed, t0.queue, tx.queue, l0, gaps, c0, line, control, flowControl);
    }

    lemma SameControl()
      requires Sound()
      ensures control == ctrl
    {
    }

    /** What a service does to the transmit side. */
    ghost predicate TransmitPart(t0: Outgoing, t1: Outgoing, l0: Line, l1: Line, c0: Control, c1: Control, gaps: Gaps) {
      && t1 == AfterService(Read(l0), t0, flowControl)
      && (t1 != t0 ==> l1.holding == Some(t0.queue[0]))
      && (t1 == t0 ==> (l1.holding.Some? <==> l0.holding.Some? && !Transmits(gaps)))
      && (l1.overwritten <==> l0.overwritten || Overwrites(l0, gaps, t0, flowControl))
      && (l1.cts, l1.dcts) == EdgesAtTransmit(l0, gaps)
      && (t1.queue != []
          ==> c1 == c0.(trdy := TrdyAfter(Read(l0), flowControl, c0.trdy, l1.cts), rrdy := c1.rrdy))
    }

    /** What it does to the receive side. */
    ghost predicate ReceivePart(r0: Incoming, r1: Incoming, l0: Line, l1: Line, gaps: Gaps) {
      && (r1.wrapped <==> r0.wrapped || (l0.rrdy && !l0.bad && |r0.queue| == 63))
      && (!r1.wrapped ==> r0.queue <= r1.queue && r1.delivered == r0.delivered)
      && (!l0.rrdy || l0.bad ==> r1 == r0)
      && (Quiet(gaps) && !l0.rrdy ==> !l1.rrdy)
      && (Quiet(gaps) && l0.rrdy
          ==> if l0.bad then l1.rrdy && !l1.bad && l1.data == l0.data
              else !r0.wrapped ==> r1.stored == r0.stored + [l0.data])
    }

    lemma ReceiveFollows(r0: Incoming, r1: Incoming, l0: Line, l3: Line, gaps: Gaps)
      requires Received(r0, r1, Read(l0), Cleared(l0, gaps).data)
      requires Quiet(gaps) ==> l3.rrdy == (l0.rrdy && l0.bad) && l3.data == Cleared(l0, gaps).data == l0.data && !l3.bad
      ensures ReceivePart(r0, r1, l0, l3, gaps)
    {
      hide Cleared, Quiet;
    }

    /** The two halves of the service. */
    method Serve(gaps: Gaps)
      requires Sound()
      modifies this`txStart, this`tx, this`rxEnd, this`rx, this`ctrl, this`control, this`line, rxBuf
      ensures Sound()
      ensures TransmitPart(old(tx), tx, old(line), line, old(control), control, gaps)
      ensures ReceivePart(old(rx), rx, old(line), line, gaps)
      ensures Accepted() == old(Accepted()) && |old(tx).written| <= |tx.written|
      ensures !old(rx).wrapped && rx.wrapped ==> rxStart == rxEnd
    {
      hide TxOk, RxOk, EdgesAtTransmit, TrdyAfter, Quiet, Transmits, Accepted;
      var status := Acknowledge(gaps);
      Transmit(status);
    }

    /** The second half: transmit if the status read at the start asked for it. */
    method Transmit(status: Status)
      requires TxOk() && control == ctrl
      modifies this`txStart, this`tx, this`ctrl, this`control, this`line
      ensures TxOk() && control == ctrl && ctrl.rrdy == old(ctrl).rrdy
      ensures Accepted() == old(Accepted())
      ensures tx == AfterService(status, old(tx), flowControl)
      ensures if Sends(status, old(tx).queue, flowControl) then
                |tx.written| == |old(tx).written| + 1 && line == WriteTxData(old(line), old(tx).queue[0])
              else tx == old(tx) && line == old(line)
      ensures tx.queue != [] ==> ctrl == old(ctrl).(trdy := TrdyAfter(status, flowControl, old(ctrl).trdy, line.cts))
    {
      hide TxOk, AfterSending, Accepted, WriteTxData;
      if status.trdy || status.dcts {
        TxIrq(status);
      }
    }

    /** The first half of the service: acknowledge, then receive. */
    method Acknowledge(gaps: Gaps) returns (status: Status)
      requires Sound()
      modifies this`rxEnd, this`rx, this`ctrl, this`control, this`line, rxBuf
      ensures Sound() && status == Read(old(line))
      ensures ctrl == old(ctrl).(rrdy := ctrl.rrdy) && tx == old(tx)
      ensures (line.cts, line.dcts) == EdgesAtTransmit(old(line), gaps)
      ensures line.overwritten == old(line).overwritten
      ensures line.holding.Some? <==> old(line).holding.Some? && !Transmits(gaps)
      ensures ReceivePart(old(rx), rx, old(line), line, gaps)
      ensures !old(rx).wrapped && rx.wrapped ==> rxStart == rxEnd
    {
      hide TxOk, RxOk, Advance, ReceivePart, Received, Transmits, EdgesAtTransmit, Cleared;
      ghost var l0, r0 := line, rx;
      status := ReadAndClear(gaps);
      Receive(status);
      ghost var l2 := line;
      Hardware(gaps.beforeTransmit);
      LineAfterwards(l0, gaps, l2);
      ReceiveFollows(r0, rx, l0, line, gaps);
    }

    /** The receive interrupt, if the status asked for it. */
    method Receive(status: Status)
      requires Sound()
      modifies this`rxEnd, this`rx, this`ctrl, this`control, this`line, rxBuf
      ensures Sound() && ctrl == old(ctrl).(rrdy := ctrl.rrdy)
      ensures Received(old(rx), rx, status, old(line).data)
      ensures line == if status.rrdy && !status.bad then ReadRxData(old(line)) else old(line)
      ensures !old(rx).wrapped && rx.wrapped ==> rxStart == rxEnd
    {
      hide TxOk, RxOk, Contents;
      if status.rrdy {
        RxIrq(status);
      }
    }

    /** Read the status register, then write it, which clears the latched bits. */
    method ReadAndClear(gaps: Gaps) returns (status: Status)
      requires TxOk()
      modifies this`line
      ensures TxOk() && status == Read(old(line)) && line == Cleared(old(line), gaps)
    {
      hide Holds, Advance, Transmitted;
      status := Read(line);
      Hardware(gaps.beforeClear);
      ClearTransmitted(line, tx.written);
      line := ClearStatus(line);
      Hardware(gaps.afterClear);
    }


    /**
     Whatever may happen between two foreground instructions while interrupts are enabled: any amount of
     hardware activity, and any number of interrupt services.
     */
    method Interfere()
      requires Valid()
      modifies this`txStart, this`tx, this`rxEnd, this`rx, this`ctrl, this`control, this`line, this`services, rxBuf
      ensures Valid() && old(services) <= services
      ensures Accepted() == old(Accepted()) && |tx.written| >= |old(tx).written|
      ensures old(rx).wrapped ==> rx.wrapped
      ensures !rx.wrapped ==> old(rx).queue <= rx.queue && rx.delivered == old(rx).delivered
    {
      hide Sound, TxAwake, LostEdge, Overwrites, EdgesAtTransmit, SomeOverflows, SomeLosesEdge;
      var steps: int := *;
      while steps > 0
        invariant Valid() && old(services) <= services
        invariant Accepted() == old(Accepted()) && |tx.written| >= |old(tx).written|
        invariant old(rx).wrapped ==> rx.wrapped
        invariant !rx.wrapped ==> old(rx).queue <= rx.queue && rx.delivered == old(rx).delivered
      {
        steps := steps - 1;
        var e: Events := *;
        Act(e);
        if IrqPending(line, control) {
          var gaps: Gaps := *;
          Irq(gaps);
        }
      }
    }

    /** The hardware alone. */
    method Act(e: Events)
      requires Valid()
      modifies this`line
      ensures Valid() && line == Advance(old(line), e)
      ensures old(TxAwake()) ==> TxAwake()
    {
      hide RxOk, TxOk, TxAwake, Advance;
      Hardware(e);
    }

    /** ctrl |= TRDY | DCTS, with interrupts off. */
    method EnableTransmit()
      requires Valid()
      modifies this`ctrl, this`control, this`txArmed, this`armedAt
      ensures Valid() && txArmed && TxAwake() && armedAt == |services|
      ensures ctrl == old(ctrl).(trdy := true, dcts := true)
    {
      hide RxOk, TxOk, SomeOverflows;
      ctrl := ctrl.(trdy := true, dcts := true);
      control := ctrl;
      txArmed := true;
      armedAt := |services|;
    }

    /** The wait for space: transmit interrupts on, then poll until tx_start moves away from `next`. */
    method WaitForSpace(next: nat, patience: nat) returns (space: bool, polls: nat)
      requires Valid() && next == After(txEnd)
      modifies this`txStart, this`tx, this`txArmed, this`rxEnd, this`rx, this`ctrl, this`control, this`line,
          this`services
      modifies this`armedAt, rxBuf
      ensures Valid() && Accepted() == old(Accepted()) && |tx.written| >= |old(tx).written|
      ensures old(services) <= services
      ensures if space then !txArmed && |tx.queue| < 63
              else txArmed && polls == 0 && |tx.queue| == 63 && |old(services)| <= armedAt
    {
      hide Sound, TxAwake, SomeOverflows, SomeLosesEdge;
      polls := patience;
      EnableTransmit();
      Interfere();
      while next == txStart
        invariant Valid() && Accepted() == old(Accepted()) && |tx.written| >= |old(tx).written|
        invariant txArmed && |old(services)| <= armedAt && old(services) <= services
        decreases polls
      {
        if polls == 0 {
          RoomUnless(next);
          return false, polls;
        }
        polls := polls - 1;
        Interfere();
      }
      RoomUnless(next);
      Disarm();
      space := true;
    }

    /** The writer goes on to fill the ring. */
    ghost method Disarm()
      requires Valid()
      modifies this`txArmed
      ensures Valid() && !txArmed
    {
      hide RxOk, TxOk, SomeOverflows, SomeLosesEdge;
      txArmed := false;
    }

    lemma RoomUnless(next: nat)
      requires Valid() && next == After(txEnd)
      ensures |tx.queue| <= 63 && (next != txStart <==> |tx.queue| < 63)
    {
      Empty(txBuf[..], txStart, txEnd, tx.queue);
    }

    /** tx_buf[tx_end] = b, which no reader of the ring can see yet. */
    method StoreNext(b: byte)
      requires Valid() && |tx.queue| < 63
      modifies txBuf
      ensures Valid() && txEnd < txBuf.Length && txBuf[txEnd] == b
    {
      hide RxOk, SomeOverflows, SomeLosesEdge;
      ghost var before := txBuf[..];
      StoreFree(before, txStart, txEnd, tx.queue, b);
      txBuf[txEnd] := b;
      assert txBuf[..] == before[txEnd := b];
    }

    /** tx_end = next, which makes the stored byte visible to the interrupt service. */
    method Publish(next: nat)
      requires Valid() && |tx.queue| < 63 && next == After(txEnd) && !txArmed
      modifies this`txEnd, this`tx
      ensures Valid() && Accepted() == old(Accepted()) + [old(txBuf[txEnd])] && tx.written == old(tx).written
    {
      hide RxOk, Transmitted, SomeOverflows, SomeLosesEdge;
      ghost var b := txBuf[txEnd];
      assert txBuf[..][txEnd := b] == txBuf[..];
      Enqueue(txBuf[..], txStart, txEnd, tx.queue, b);
      txEnd := next;
      assert tx.written + (tx.queue + [b]) == tx.written + tx.queue + [b];
      tx := tx.(queue := tx.queue + [b]);
    }

    lemma TwoBuffers()
      requires Valid()
      ensures txBuf != rxBuf
    {
    }

    /** One byte through the loop body of write, once there is room for it. */
    method Put(b: byte, next: nat)
      requires Valid() && |tx.queue| < 63 && next == After(txEnd) && !txArmed
      modifies this`txStart, this`txEnd, this`tx, this`rxEnd, this`rx, this`ctrl, this`control, this`line, this`services
      modifies txBuf, rxBuf
      ensures Valid() && Accepted() == old(Accepted()) + [b] && |tx.written| >= |old(tx).written|
      ensures old(services) <= services
    {
      hide Sound, TxAwake, SomeOverflows, SomeLosesEdge;
      TwoBuffers();
      Interfere();
      StoreNext(b);
      Interfere();
      Publish(next);
    }

    /**
     altera_avalon_uart_write. `patience` bounds how many times the run polls for space before it is cut
     short. Bytes are left only because the ring was found full.
     */
    method Write(data: seq<byte>, nonBlocking: bool, patience: nat) returns (result: Result, n: nat)
      requires Valid()
      modifies this`txStart, this`txEnd, this`tx, this`txArmed, this`rxEnd, this`rx, this`ctrl, this`control, this`line
      modifies this`services, this`armedAt, txBuf, rxBuf
      ensures Valid() && txArmed && old(services) <= services && |old(services)| <= armedAt
      ensures n <= |data| && Accepted() == old(Accepted()) + data[..n]
      ensures result == Count(n) || (result == StillWaiting && !nonBlocking)
      ensures result.Count? && !nonBlocking ==> n == |data|
      ensures n < |data| ==> |old(tx).queue| + n >= 63
    {
      hide Sound, TxAwake, SomeOverflows, SomeLosesEdge;
      var polls := patience;
      n := 0;
      Disarm();
      while n < |data|
        invariant Valid() && !txArmed && old(services) <= services
        invariant n <= |data| && Accepted() == old(Accepted()) + data[..n] && |tx.written| >= |old(tx).written|
      {
        var next := After(txEnd);
        Interfere();
        RoomUnless(next);
        if next == txStart {
          if nonBlocking {
            break;
          }
          var space;
          space, polls := WaitForSpace(next, polls);
          if !space {
            return StillWaiting, n;
          }
        }
        assert data[..n + 1] == data[..n] + [data[n]];
        Put(data[n], next);
        n := n + 1;
      }
      EnableTransmit();
      Interfere();
      result := Count(n);
    }

    /** altera_avalon_uart_close: wait until the interrupt service has drained the ring. */
    method Close(nonBlocking: bool, patience: nat) returns (result: Result)
      requires Valid()
      modifies this`txStart, this`tx, this`rxEnd, this`rx, this`ctrl, this`control, this`line, this`services, rxBuf
      ensures Valid() && Accepted() == old(Accepted())
      ensures result == Count(0) ==> tx.queue == [] && tx.written == Accepted()
      ensures result == WouldBlock ==> nonBlocking && tx.queue != []
      ensures result == StillWaiting ==> !nonBlocking && tx.queue != []
      ensures result == Count(0) || result == WouldBlock || result == StillWaiting
    {
      hide Sound, TxAwake, SomeOverflows, SomeLosesEdge;
      var polls := patience;
      Interfere();
      while txStart != txEnd
        invariant Valid() && Accepted() == old(Accepted())
        decreases polls
      {
        Drained();
        if nonBlocking {
          return WouldBlock;
        }
        if polls == 0 {
          return StillWaiting;
        }
        polls := polls - 1;
        Interfere();
      }
      Drained();
      result := Count(0);
    }

    lemma Drained()
      requires Valid()
      ensures if txStart == txEnd then tx.queue == [] && tx.written == Accepted() else tx.queue != []
    {
      DrainedWhen();
    }

    lemma DrainedWhen()
      requires TxOk()
      ensures if txStart == txEnd then tx.queue == [] && tx.written == Accepted() else tx.queue != []
    {
      Empty(txBuf[..], txStart, txEnd, tx.queue);
    }

    /** ctrl |= RRDY, with interrupts off. */
    method EnableReceive()
      requires Valid()
      modifies this`ctrl, this`control, this`rxArmed
      ensures Valid() && rxArmed && ctrl == old(ctrl).(rrdy := true)
    {
      hide RxOk, TxOk, SomeOverflows, SomeLosesEdge;
      ctrl := ctrl.(rrdy := true);
      control := ctrl;
      rxArmed := true;
    }

    /** One byte out of the ring; the test for emptiness came before. */
    method Take() returns (b: byte)
      requires Valid() && (!rx.wrapped ==> rx.queue != [])
      modifies this`txStart, this`tx, this`rxStart, this`rxEnd, this`rx, this`rxArmed
      modifies this`ctrl, this`control, this`line, this`services, rxBuf
      ensures Valid() && Accepted() == old(Accepted()) && (old(rx).wrapped ==> rx.wrapped) && old(services) <= services
      ensures !rx.wrapped ==> rx.delivered == old(rx).delivered + [b] && old(rx).queue[1..] <= rx.queue
    {
      hide Sound, TxAwake, SomeOverflows, SomeLosesEdge;
      b := Peek();
      ghost var q := rx.queue;
      Interfere();
      assert !rx.wrapped ==> rx.queue[0] == q[0] && q[1..] <= rx.queue[1..];
      Advanced();
    }

    /** rx_buf[rx_start] */
    method Peek() returns (b: byte)
      requires Valid() && (!rx.wrapped ==> rx.queue != [])
      ensures !rx.wrapped ==> b == rx.queue[0]
    {
      if !rx.wrapped {
        Dequeue(rxBuf[..], rxStart, rxEnd, rx.queue);
      }
      b := rxBuf[rxStart];
    }

    /** rx_start = (rx_start + 1) & ALT_AVALON_UART_BUF_MSK */
    method Advanced()
      requires Valid() && (!rx.wrapped ==> rx.queue != [])
      modifies this`rxStart, this`rx, this`rxArmed
      ensures Valid() && rx.wrapped == old(rx).wrapped
      ensures !rx.wrapped ==> rx == AfterTaking(old(rx))
    {
      hide TxOk, Holds, SomeOverflows, SomeLosesEdge;
      if !rx.wrapped {
        TakingKeeps(rxBuf[..], rxStart, rxEnd, rx);
        rx := AfterTaking(rx);
      }
      rxArmed := false;
      rxStart := After(rxStart);
    }

    /** The inner loop of read: copy until `len` bytes are out or the ring runs empty. */
    method TakeSome(dest: array<byte>, len: nat) returns (n: nat)
      requires Valid() && len <= dest.Length && dest != txBuf && dest != rxBuf
      modifies this`txStart, this`tx, this`rxStart, this`rxEnd, this`rx, this`rxArmed
      modifies this`ctrl, this`control, this`line, this`services, rxBuf, dest
      ensures Valid() && Accepted() == old(Accepted()) && (old(rx).wrapped ==> rx.wrapped) && old(services) <= services
      ensures n <= len && (!rx.wrapped ==> rx.delivered == old(rx).delivered + dest[..n])
      ensures n == 0 ==> rxArmed == old(rxArmed)
      ensures n == len || rxStart == rxEnd
      ensures !rx.wrapped ==> n == len || n >= |old(rx).queue|
    {
      hide Sound, TxAwake, SomeOverflows, SomeLosesEdge;
      n := 0;
      Interfere();
      while n < len && rxStart != rxEnd
        invariant Valid() && Accepted() == old(Accepted()) && (old(rx).wrapped ==> rx.wrapped)
            && old(services) <= services
        invariant n <= len && (!rx.wrapped ==> rx.delivered == old(rx).delivered + dest[..n])
        invariant !rx.wrapped ==> n + |rx.queue| >= |old(rx).queue|
        invariant n == 0 ==> rxArmed == old(rxArmed)
      {
        DataWhen();
        ghost var before := dest[..n];
        dest[n] := Take();
        n := n + 1;
        assert dest[..n] == before + [dest[n - 1]];
        Interfere();
      }
      DataWhen();
    }

    lemma DataWhen()
      requires Valid()
      ensures !rx.wrapped ==> (rxStart == rxEnd <==> rx.queue == [])
    {
      if !rx.wrapped {
        Empty(rxBuf[..], rxStart, rxEnd, rx.queue);
      }
    }

    /**
     altera_avalon_uart_read, with `patience` as for write. The bytes returned continue the stream of bytes
     delivered, and unless the call is cut short they are as many as asked for, or at least all that were
     queued; both hold as long as no byte has been stored into a full ring. A non-blocking call is cut short
     only after that: a byte that arrives after the inner loop sends the call round once more.
     */
    method ReadBytes(dest: array<byte>, len: nat, nonBlocking: bool, patience: nat) returns (result: Result, n: nat)
      requires Valid() && rxArmed && len <= dest.Length && dest != txBuf && dest != rxBuf
      modifies this`txStart, this`tx, this`rxStart, this`rxEnd, this`rx, this`rxArmed
      modifies this`ctrl, this`control, this`line, this`services, rxBuf, dest
      ensures Valid() && rxArmed && Accepted() == old(Accepted()) && old(services) <= services
      ensures n <= len && (!rx.wrapped ==> rx.delivered == old(rx).delivered + dest[..n])
      ensures match result
              case Count(c) => c == n && (len > 0 ==> n > 0)
              case WouldBlock => nonBlocking && n == 0
              case StillWaiting => n == 0 && len > 0 && (nonBlocking ==> rx.wrapped)
      ensures !rx.wrapped ==> n == len || n >= |old(rx).queue|
    {
      hide Sound, TxAwake, SomeOverflows, SomeLosesEdge;
      var polls := patience;
      result := Count(0);
      n := TakeSome(dest, len);
      while true
        invariant Valid() && Accepted() == old(Accepted()) && old(services) <= services
            && (old(rx).wrapped ==> rx.wrapped)
        invariant n <= len && (!rx.wrapped ==> rx.delivered == old(rx).delivered + dest[..n])
        invariant n == 0 ==> rxArmed
        invariant !rx.wrapped ==> n == len || n >= |old(rx).queue|
        decreases polls, if n == 0 then 1 else 0
      {
        Interfere();
        DataWhen();
        if n == 0 && rxStart == rxEnd {
          if nonBlocking {
            result := WouldBlock;
            break;
          }
          EnableReceive();
          Interfere();
        }
        if n != 0 || len == 0 {
          result := Count(n);
          break;
        }
        n := TakeSome(dest, len);
        if n == 0 {
          if polls == 0 {
            result := StillWaiting;
            break;
          }
          polls := polls - 1;
        }
      }
      EnableReceive();
      Interfere();
    }

    /** The bytes taken from callers of write so far. */
    ghost function Accepted(): seq<byte>
      reads this`tx
    {
      tx.written + tx.queue
    }

    method Hardware(e: Events)
      requires TxOk()
      modifies this`line
      ensures line == Advance(old(line), e) && TxOk()
      ensures old(TxAwake()) ==> TxAwake()
    {
      AdvanceTransmitted(line, e, tx.written);
      line := Advance(line, e);
    }
  }

  /** The line after the status register has been read and cleared. */
  function Cleared(l: Line, gaps: Gaps): Line {
    Advance(ClearStatus(Advance(l, gaps.beforeClear)), gaps.afterClear)
  }

  /** What the receive interrupt does, given the status read and the character in the device. */
  ghost predicate Received(r0: Incoming, r1: Incoming, status: Status, data: byte) {
    if !status.rrdy || status.bad then r1 == r0
    else
      && (r1.wrapped <==> r0.wrapped || |r0.queue| == 63)
      && (!r0.wrapped ==> r1.stored == r0.stored + [data])
      && (!r1.wrapped ==> r0.queue <= r1.queue && r1.delivered == r0.delivered)
  }

  /** The whole first half, seen from the line. */
  lemma LineAfterwards(l0: Line, gaps: Gaps, l2: Line)
    requires var l1, status := Cleared(l0, gaps), Read(l0);
      l2 == if status.rrdy && !status.bad then ReadRxData(l1) else l1
    ensures var l3 := Advance(l2, gaps.beforeTransmit);
      && (l3.cts, l3.dcts) == EdgesAtTransmit(l0, gaps)
      && l3.overwritten == l0.overwritten
      && (l3.holding.Some? <==> l0.holding.Some? && !Transmits(gaps))
      && (Quiet(gaps) ==> l3.rrdy == (l0.rrdy && l0.bad) && l3.data == Cleared(l0, gaps).data == l0.data && !l3.bad)
  {
    hide Advance;
    var l := Advance(l0, gaps.beforeClear);
    AdvanceEdges(Cleared(l0, gaps), l2, gaps.beforeTransmit);
    Gap(l0, gaps.beforeClear);
    Gap(ClearStatus(l), gaps.afterClear);
    Gap(l2, gaps.beforeTransmit);
  }

  /** CTS, and its edge latch, when the transmit part of the service looks at them. */
  function EdgesAtTransmit(l: Line, gaps: Gaps): (bool, bool) {
    var l2 := Advance(Advance(ClearStatus(Advance(l, gaps.beforeClear)), gaps.afterClear), gaps.beforeTransmit);
    (l2.cts, l2.dcts)
  }

  lemma AdvanceEdges(l: Line, l': Line, e: Events)
    requires l'.cts == l.cts && l'.dcts == l.dcts
    ensures Advance(l', e).cts == Advance(l, e).cts && Advance(l', e).dcts == Advance(l, e).dcts
  {
    Edges(l, e);
    Edges(l', e);
  }

  /** Transmission and reception do not touch CTS. */
  lemma Edges(l: Line, e: Events)
    ensures Advance(l, e).cts == (if e.ctsChanges % 2 == 1 then !l.cts else l.cts)
    ensures Advance(l, e).dcts == (l.dcts || e.ctsChanges > 0)
  {
  }

  predicate LostEdge(before: Line, gaps: Gaps, control: Control, flowControl: bool) {
    && flowControl && !control.trdy && !before.cts
    && gaps.beforeClear.ctsChanges % 2 == 1
    && gaps.afterClear.ctsChanges == 0 && gaps.beforeTransmit.ctsChanges == 0
  }

  /** The transmitter and the receiver over one gap. */
  lemma Gap(l: Line, e: Events)
    ensures Advance(l, e).overwritten == l.overwritten
    ensures Advance(l, e).holding.Some? <==> l.holding.Some? && !e.transmits
    ensures e.arrival.None? ==> Advance(l, e).rrdy == l.rrdy && Advance(l, e).bad == l.bad
    ensures e.arrival.None? ==> Advance(l, e).data == l.data
  {
  }

  predicate Transmits(gaps: Gaps) {
    gaps.beforeClear.transmits || gaps.afterClear.transmits || gaps.beforeTransmit.transmits
  }

  /** No character arrives during the service. */
  predicate Quiet(gaps: Gaps) {
    gaps.beforeClear.arrival.None? && gaps.afterClear.arrival.None? && gaps.beforeTransmit.arrival.None?
  }

  /** The service is entered for a CTS edge while the transmitter is, and stays, busy. */
  predicate Overwrites(before: Line, gaps: Gaps, tx: Outgoing, flowControl: bool) {
    before.dcts && before.holding.Some? && !Transmits(gaps) && tx.queue != [] && (flowControl ==> before.cts)
  }

  /** No activity at all. */
  function Nothing(): Events {
    Events(0, false, None)
  }

  /**
   A lost wake-up: the transmitter is awake, with a byte queued and its interrupt off because CTS is low. CTS
   rises between the read and the clearing of the status register. The service ends with CTS high, the
   device ready, no interrupt pending, and the byte still queued.
   */
  method LostWakeUp(u: Uart)
    requires u.Valid() && u.flowControl && u.TxAwake() && u.txArmed && u.tx.queue != []
    requires !u.line.cts && !u.control.trdy && u.line.holding.None? && !u.line.rrdy
    modifies u, u.rxBuf
    ensures u.Valid() && !u.TxAwake() && u.tx == old(u.tx)
    ensures MaySend(u.line, u.flowControl) && !IrqPending(u.line, u.control)
  {
    u.Irq(Gaps(Nothing().(ctsChanges := 1), Nothing(), Nothing()));
  }

  /** A service entered for a CTS edge writes TXDATA although the transmitter is busy: a byte is overwritten. */
  method BusyTransmitterIsOverwritten(u: Uart)
    requires u.Valid() && u.line.holding.Some? && u.line.dcts && u.tx.queue != [] && (u.flowControl ==> u.line.cts)
    modifies u, u.rxBuf
    ensures u.Valid() && u.line.overwritten && u.tx == AfterSending(old(u.tx))
    ensures u.line.holding == Some(old(u.tx).queue[0])
  {
    u.Irq(Gaps(Nothing(), Nothing(), Nothing()));
  }

  /**
   Receive interrupts are off because the ring is full, but the service looks at RRDY whatever it was entered
   for: a transmit interrupt stores the waiting character all the same, and the ring looks empty.
   */
  method TransmitInterruptOverflowsReceive(u: Uart)
    requires u.Valid() && !u.rx.wrapped && |u.rx.queue| == 63 && !u.control.rrdy
    requires u.line.rrdy && !u.line.bad && u.line.holding.None? && u.control.trdy
    modifies u, u.rxBuf
    ensures IrqPending(old(u.line), old(u.control))
    ensures u.Valid() && u.rx.wrapped && u.rxStart == u.rxEnd
  {
    u.Irq(Gaps(Nothing(), Nothing(), Nothing()));
  }

  /**
   The comment on rxirq says that a character received in error is discarded. It is not read out of the
   device, so the next service, which finds the error bits cleared, delivers it.
   */
  method ErroredCharacterIsDelivered(u: Uart, gaps: Gaps)
    requires u.Valid() && u.line.rrdy && u.line.bad && !u.rx.wrapped && Quiet(gaps)
    modifies u, u.rxBuf
    ensures u.Valid() && u.rx.stored == old(u.rx).stored + [old(u.line).data]
  {
    u.Irq(gaps);
    u.Irq(gaps);
  }

  /**
   As long as no service loses an edge, interrupts alone drain the ring, whatever CTS does: every byte accepted
   is written to TXDATA, in order. The line need only be fair: `rest` bounds, afresh each time, how long it
   goes on before the device is again ready with CTS set, if CTS matters.
   */
  method LineDrains(u: Uart)
    requires u.Valid() && u.txArmed && u.TxAwake()
    modifies u, u.rxBuf
    ensures u.Valid() && u.TxAwake() && u.tx == Outgoing(old(u.Accepted()), [])
  {
    hide Uart.TxOk, Uart.RxOk, Advance, Overwrites, EdgesAtTransmit, LostEdge, Awake, MaySend;
    var rest: int := *;
    while u.txStart != u.txEnd
      invariant u.Valid() && u.txArmed && u.TxAwake()
      invariant u.Accepted() == old(u.Accepted())
      decreases |u.tx.queue|, rest
    {
      u.DrainedWhen();
      var e: Events := *;
      if rest <= 0 {
        e := Ready(u.line, u.flowControl);
        rest := *;
      } else {
        rest := rest - 1;
      }
      u.Hardware(e);
      ghost var ready := MaySend(u.line, u.flowControl);
      if ready {
        AwakeInterrupts(u.line, u.control, u.flowControl);
        SendsWhenReady(u.line, u.tx.queue, u.flowControl);
      }
      if IrqPending(u.line, u.control) {
        var gaps := Lossless(u.line, u.control, u.flowControl);
        u.Irq(gaps);
      }
    }
    u.DrainedWhen();
  }

  /** Any activity of the line after which the device may send. */
  method Ready(l: Line, flowControl: bool) returns (e: Events)
    ensures MaySend(Advance(l, e), flowControl)
  {
    assert MaySend(Advance(l, Events(if l.cts then 0 else 1, true, None)), flowControl);
    e :| MaySend(Advance(l, e), flowControl);
  }

  /** Any activity of the hardware during a service that does not lose an edge. */
  method Lossless(l: Line, c: Control, flowControl: bool) returns (gaps: Gaps)
    ensures !LostEdge(l, gaps, c, flowControl)
  {
    var none := Events(0, false, None);
    assert !LostEdge(l, Gaps(none, none, none), c, flowControl);
    gaps :| !LostEdge(l, gaps, c, flowControl);
  }

  lemma SendsWhenReady(l: Line, queue: seq<byte>, flowControl: bool)
    requires MaySend(l, flowControl) && queue != []
    ensures queue != [] && (flowControl ==> l.cts) && l.holding.None?
  {
  }

  /** The oldest byte received has gone to the reader. */
  function AfterTaking(i: Incoming): Incoming
    requires i.queue != []
  {
    i.(delivered := i.delivered + [i.queue[0]], queue := i.queue[1..])
  }

  lemma TakingKeeps(buf: seq<byte>, start: nat, end: nat, i: Incoming)
    requires Holds(buf, start, end, i.queue) && i.queue != []
    requires i.stored == i.delivered + i.queue && start == |i.delivered| % 64
    ensures var j := AfterTaking(i);
      Holds(buf, After(start), end, j.queue) && j.stored == j.delivered + j.queue && After(start) == |j.delivered| % 64
  {
    Dequeue(buf, start, end, i.queue);
    hide Holds;
    assert i.delivered + i.queue == i.delivered + [i.queue[0]] + i.queue[1..];
  }

  /** The oldest byte has gone to TXDATA. */
  function AfterSending(o: Outgoing): Outgoing
    requires o.queue != []
  {
    Outgoing(o.written + [o.queue[0]], o.queue[1..])
  }

  /** The transmit part of a service has a byte and may send it. */
  predicate Eligible(status: Status, queue: seq<byte>, flowControl: bool) {
    queue != [] && (flowControl ==> status.cts)
  }

  /** The transmit part is entered, and sends. */
  predicate Sends(status: Status, queue: seq<byte>, flowControl: bool) {
    (status.trdy || status.dcts) && Eligible(status, queue, flowControl)
  }

  function AfterService(status: Status, o: Outgoing, flowControl: bool): Outgoing {
    if Sends(status, o.queue, flowControl) then AfterSending(o) else o
  }

  /** The transmit interrupt enable after a service that leaves bytes queued. */
  predicate TrdyAfter(status: Status, flowControl: bool, trdy: bool, cts: bool) {
    if !status.trdy && !status.dcts then trdy
    else if !flowControl || status.cts then true
    else trdy && cts
  }

  /** The same for the armed transmitter and any queue. */
  lemma ServiceKeeps(armed: bool, q0: seq<byte>, q1: seq<byte>, l0: Line, gaps: Gaps, c0: Control, l1: Line,
      c1: Control, flowControl: bool)
    requires q0 == [] ==> q1 == []
    requires (l1.cts, l1.dcts) == EdgesAtTransmit(l0, gaps)
    requires q1 != [] ==> c1 == c0.(trdy := TrdyAfter(Read(l0), flowControl, c0.trdy, l1.cts), rrdy := c1.rrdy)
    requires !Eligible(Read(l0), q0, flowControl) ==> q1 == q0
    ensures (armed && q0 != [] ==> Awake(l0, c0, flowControl))
            ==> ((armed && q1 != [] ==> Awake(l1, c1, flowControl))
                <==> !(armed && q0 != [] && LostEdge(l0, gaps, c0, flowControl)))
  {
    assert LostEdge(l0, gaps, c0, flowControl) ==> !Eligible(Read(l0), q0, flowControl);
    hide Awake, LostEdge, EdgesAtTransmit, TrdyAfter;
    if armed && q1 != [] && Awake(l0, c0, flowControl) {
      ServiceEdges(l0, gaps, c0, l1, c1, flowControl);
    }
  }

  /** One service that leaves bytes queued, seen as a change of the interrupt-enable bits. */
  lemma ServiceEdges(l0: Line, gaps: Gaps, c0: Control, l1: Line, c1: Control, flowControl: bool)
    requires Awake(l0, c0, flowControl)
    requires (l1.cts, l1.dcts) == EdgesAtTransmit(l0, gaps)
    requires c1.dcts == c0.dcts
    requires var status := Read(l0);
      c1.trdy == TrdyAfter(status, flowControl, c0.trdy, l1.cts)
    ensures Awake(l1, c1, flowControl) <==> !LostEdge(l0, gaps, c0, flowControl)
  {
    hide Advance;
    var cleared := ClearStatus(Advance(l0, gaps.beforeClear));
    Edges(l0, gaps.beforeClear);
    Edges(cleared, gaps.afterClear);
    Edges(Advance(cleared, gaps.afterClear), gaps.beforeTransmit);
  }
}
