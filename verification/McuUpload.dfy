/** CMD_LMS_MCU_FW_WR of main.c, as the command loop runs it over the SPI bus. */
module McuUpload {
  import opened Words
  import opened RegisterChip
  import opened Commands
  import opened Upload

  /** Only the MCU has been talked to: the board is as before, and exactly `sent` has been written to the MCU's chip. */
  ghost predicate Fed(b: Board, g: Board, sent: seq<(nat, Value)>) {
    g.brd == b.brd && g.lms.log == b.lms.log + sent
  }

  lemma FedMore(b: Board, g: Board, h: Board, s: seq<(nat, Value)>, t: seq<(nat, Value)>)
    requires Fed(b, g, s) && Fed(g, h, t)
    ensures Fed(b, h, s + t)
  {
    assert b.lms.log + s + t == b.lms.log + (s + t);
  }

  lemma FedNothing(b: Board)
    ensures Fed(b, b, [])
  {
  }

  /** Writes to the control and FIFO registers; the high byte of the value is zero. */
  function ControlWrite(mode: byte): (nat, Value) {
    (CONTROL_REG as int, (0, mode))
  }

  function PayloadWrites(p: seq<byte>): (ws: seq<(nat, Value)>)
    ensures |ws| == |p|
  {
    seq(|p|, i requires 0 <= i < |p| => (FIFO_REG, (0, p[i])))
  }

  /** Portion 0 resets the MCU and then sets one of three modes; other mode numbers leave it reset. */
  function StartWrites(mode: byte): seq<(nat, Value)> {
    [ControlWrite(0)] + if mode in {PROG_EEPROM, PROG_SRAM, BOOT_MCU} then [ControlWrite(mode)] else []
  }

  /** Everything an accepted packet writes. */
  function PacketWrites(d: seq<byte>): seq<(nat, Value)>
    requires |d| == 56
  {
    (if Portion(d) == 0 then StartWrites(d[0]) else []) + (if IsBoot(d) then [] else PayloadWrites(Payload(d)))
  }

  lemma {:induction false} FifoAppend(xs: seq<(nat, Value)>, ys: seq<(nat, Value)>)
    ensures Fifo(xs + ys) == Fifo(xs) + Fifo(ys)
  {
    if ys == [] {
      assert xs + ys == xs;
    } else {
      assert (xs + ys)[..|xs + ys| - 1] == xs + ys[..|ys| - 1];
      FifoAppend(xs, ys[..|ys| - 1]);
    }
  }

  lemma {:induction false} FifoPayload(p: seq<byte>)
    ensures Fifo(PayloadWrites(p)) == p
  {
    if p != [] {
      assert PayloadWrites(p)[..|p| - 1] == PayloadWrites(p[..|p| - 1]);
      FifoPayload(p[..|p| - 1]);
    }
  }

  lemma FifoStart(mode: byte)
    ensures Fifo(StartWrites(mode)) == []
  {
    assert [ControlWrite(0)][..0] == [] && [ControlWrite(0), ControlWrite(mode)][..1] == [ControlWrite(0)];
    assert (CONTROL_REG as int) == 2;
  }

  /** Of all this, the FIFO register receives the payload, or nothing for a boot request. */
  lemma FifoPacket(d: seq<byte>)
    requires |d| == 56
    ensures Fifo(PacketWrites(d)) == if IsBoot(d) then [] else Payload(d)
  {
    var start := if Portion(d) == 0 then StartWrites(d[0]) else [];
    FifoStart(d[0]);
    FifoPayload(Payload(d));
    FifoAppend(start, if IsBoot(d) then [] else PayloadWrites(Payload(d)));
  }

  lemma FifoFed(b: Board, g: Board, d: seq<byte>)
    requires |d| == 56 && Fed(b, g, PacketWrites(d))
    ensures Fifo(g.lms.log) == Fifo(b.lms.log) + if IsBoot(d) then [] else Payload(d)
  {
    FifoAppend(b.lms.log, PacketWrites(d));
    FifoPacket(d);
  }

  /** sc_brdg_data := write bit, register, 0, value; then the four-byte command. */
  method WriteRegister(fw: Firmware, reg: byte, value: byte)
    requires fw.Valid()
    modifies fw.bus, fw.brdg
    ensures fw.Valid()
    ensures Fed(old(fw.bus.state), fw.bus.state, [(reg as int, (0, value))])
    ensures fw.bus.state.lms.status == old(fw.bus.state.lms.status)
  {
    fw.brdg[0] := 0x80;
    fw.brdg[1] := reg;
    fw.brdg[2] := 0x00;
    fw.brdg[3] := value;
    fw.SendWrite(0, fw.brdg, 0);
    LowAddress(reg);
  }

  lemma LowAddress(a1: byte)
    ensures Address(0x80, a1) == a1 as int && Address(0x00, a1) == a1 as int
  {
  }

  /** One read of the MCU status register; the answer lands on the command bytes. */
  method ReadStatus(fw: Firmware) returns (status: byte)
    requires fw.Valid()
    modifies fw.bus, fw.brdg
    ensures fw.Valid() && Fed(old(fw.bus.state), fw.bus.state, [])
    ensures var s := old(fw.bus.state.lms.status);
      && status == (if s == [] then READY else s[0])
      && fw.bus.state == old(fw.bus.state).(lms := old(fw.bus.state.lms).(status := if s == [] then [] else s[1..]))
  {
    fw.brdg[0] := 0x00;
    fw.brdg[1] := 3;
    LowAddress(3);
    fw.SendRead(0, fw.brdg, 0, fw.brdg, 0);
    status := fw.brdg[1];
  }

  /** How many of the coming answers, at most `limit`, lack a bit before the first one that has it. */
  function Misses(s: seq<byte>, mask: byte, limit: nat): (n: nat)
    ensures n <= limit
    ensures forall i :: 0 <= i < n ==> StatusAt(s, i) & mask == 0
    ensures n < limit ==> StatusAt(s, n) & mask != 0
  {
    if limit == 0 then 0
    else
      var n := Misses(s, mask, limit - 1);
      if n == limit - 1 && StatusAt(s, n) & mask == 0 then limit else n
  }

  /** The answers left after such a wait, which reads the one that has the bit too. */
  function AfterWait(s: seq<byte>, mask: byte, limit: nat): seq<byte> {
    var n := Misses(s, mask, limit);
    From(s, if n < limit then n + 1 else limit)
  }

  lemma MissesIs(s: seq<byte>, mask: byte, limit: nat, n: nat)
    requires n <= limit && (forall i :: 0 <= i < n ==> StatusAt(s, i) & mask == 0)
    requires n < limit ==> StatusAt(s, n) & mask != 0
    ensures n == Misses(s, mask, limit) && AfterWait(s, mask, limit) == From(s, if n < limit then n + 1 else limit)
  {
  }

  /** One more read, of the i-th of the answers s. */
  method NextStatus(fw: Firmware, ghost b: Board, ghost s: seq<byte>, ghost i: nat) returns (status: byte)
    requires fw.Valid() && Fed(b, fw.bus.state, []) && fw.bus.state.lms.status == From(s, i)
    modifies fw.bus, fw.brdg
    ensures fw.Valid() && Fed(b, fw.bus.state, []) && fw.bus.state.lms.status == From(s, i + 1)
    ensures status == StatusAt(s, i)
  {
    hide Fed, StatusAt, From, Firmware.Valid;
    ghost var g := fw.bus.state;
    status := ReadStatus(fw);
    FedMore(b, g, fw.bus.state, [], []);
    Answers(s, i);
  }

  /** Poll until a bit of the status is set, at most `limit` times; returns how many polls found it clear. */
  method PollStatus(fw: Firmware, mask: byte, limit: nat) returns (retries: nat)
    requires fw.Valid()
    modifies fw.bus, fw.brdg
    ensures fw.Valid() && Fed(old(fw.bus.state), fw.bus.state, [])
    ensures retries == Misses(old(fw.bus.state.lms.status), mask, limit)
    ensures fw.bus.state.lms.status == AfterWait(old(fw.bus.state.lms.status), mask, limit)
  {
    hide Fed, StatusAt, Misses, AfterWait, From, Firmware.Valid;
    ghost var s := fw.bus.state.lms.status;
    FedNothing(fw.bus.state);
    NothingRead(s);
    retries := 0;
    while retries < limit
      invariant fw.Valid() && retries <= limit && Fed(old(fw.bus.state), fw.bus.state, [])
      invariant fw.bus.state.lms.status == From(s, retries)
      invariant forall i :: 0 <= i < retries ==> StatusAt(s, i) & mask == 0
    {
      var status := NextStatus(fw, old(fw.bus.state), s, retries);
      if status & mask != 0 {
        MissesIs(s, mask, limit, retries);
        return;
      }
      retries := retries + 1;
    }
    MissesIs(s, mask, limit, retries);
  }

  /** The answers left after n reads. */
  function From(s: seq<byte>, n: nat): seq<byte> {
    if n <= |s| then s[n..] else []
  }

  lemma Answers(s: seq<byte>, n: nat)
    ensures StatusAt(s, n) == if From(s, n) == [] then READY else From(s, n)[0]
    ensures From(s, n + 1) == if From(s, n) == [] then [] else From(s, n)[1..]
  {
  }

  lemma NothingRead(s: seq<byte>)
    ensures From(s, 0) == s
  {
  }

  /** When the listed answers are used up the MCU is ready. */
  lemma ReadyAtLast(s: seq<byte>)
    ensures StatusAt(s, |s|) & 0x01 != 0
  {
  }

  /** The i-th answer the status register will give. */
  function StatusAt(s: seq<byte>, i: nat): byte {
    if i < |s| then s[i] else READY
  }

  /**
   The wait with the limit 500. Its counter has eight bits, so the limit is never reached: the loop ends
   because the device becomes ready, or not at all.
   */
  method PollUntilReady(fw: Firmware)
    requires fw.Valid()
    modifies fw.bus, fw.brdg
    ensures fw.Valid() && Fed(old(fw.bus.state), fw.bus.state, [])
    ensures var s := old(fw.bus.state.lms.status);
      fw.bus.state.lms.status == AfterWait(s, 0x01, |s| + 1) && Misses(s, 0x01, |s| + 1) <= |s|
  {
    ghost var s, i := fw.bus.state.lms.status, 0;
    FedNothing(fw.bus.state);
    hide Fed, StatusAt, Misses, AfterWait, From, Firmware.Valid;
    NothingRead(s);
    ReadyAtLast(s);
    var retries := 0;
    while retries < 500
      invariant fw.Valid() && 0 <= retries < 256 && Fed(old(fw.bus.state), fw.bus.state, [])
      invariant 0 <= i <= |s| && fw.bus.state.lms.status == From(s, i)
      invariant forall j :: 0 <= j < i ==> StatusAt(s, j) & 0x01 == 0
      decreases |s| - i
    {
      var status := NextStatus(fw, old(fw.bus.state), s, i);
      if status & 0x01 != 0 {
        MissesIs(s, 0x01, |s| + 1, i);
        break;
      }
      retries := (retries + 1) % 256;
      i := i + 1;
    }
  }

  /** The 32 payload bytes, one register write each. */
  method WritePayload(fw: Firmware)
    requires fw.Valid()
    modifies fw.bus, fw.brdg
    ensures fw.Valid() && Fed(old(fw.bus.state), fw.bus.state, PayloadWrites(Payload(fw.rx[DATA..])))
    ensures fw.bus.state.lms.status == old(fw.bus.state.lms.status)
  {
    ghost var b, d := fw.bus.state, fw.rx[DATA..];
    ghost var all := PayloadWrites(Payload(d));
    FedNothing(b);
    hide Fed, Firmware.BusReady;
    for block := 0 to 32
      invariant fw.Valid() && fw.rx[DATA..] == d && Fed(b, fw.bus.state, all[..block])
      invariant fw.bus.state.lms.status == b.lms.status
    {
      assert fw.rx[DATA + 2 + block] == d[2 + block] == Payload(d)[block];
      ghost var g := fw.bus.state;
      WriteRegister(fw, 4, fw.rx[DATA + 2 + block]);
      FedMore(b, g, fw.bus.state, all[..block], [all[block]]);
      assert all[..block + 1] == all[..block] + [all[block]];
    }
    assert all[..32] == all;
  }

  /** Portion 0: reset the MCU and set the programming mode. Mode BOOT_MCU ends the command. */
  method StartProgramming(fw: Firmware) returns (boots: bool)
    requires fw.Valid()
    modifies fw.bus, fw.brdg
    ensures fw.Valid() && Fed(old(fw.bus.state), fw.bus.state, StartWrites(fw.rx[DATA]))
    ensures boots <==> fw.rx[DATA] == BOOT_MCU
    ensures !boots ==> fw.bus.state.lms.status == old(fw.bus.state.lms.status)
  {
    hide Fed, Firmware.BusReady;
    ghost var b := fw.bus.state;
    WriteRegister(fw, CONTROL_REG, 0x00);
    ghost var g := fw.bus.state;
    boots := false;
    if fw.rx[DATA] == PROG_EEPROM {
      WriteRegister(fw, CONTROL_REG, 0x01);
      FedMore(b, g, fw.bus.state, [ControlWrite(0)], [ControlWrite(1)]);
    } else if fw.rx[DATA] == PROG_SRAM {
      WriteRegister(fw, CONTROL_REG, 0x02);
      FedMore(b, g, fw.bus.state, [ControlWrite(0)], [ControlWrite(2)]);
    } else if fw.rx[DATA] == BOOT_MCU {
      WriteRegister(fw, CONTROL_REG, 0x03);
      FedMore(b, g, fw.bus.state, [ControlWrite(0)], [ControlWrite(3)]);
      ghost var h := fw.bus.state;
      var status := ReadStatus(fw);
      FedMore(b, h, fw.bus.state, StartWrites(3), []);
      assert StartWrites(3) + [] == StartWrites(3);
      boots := true;
    } else {
      assert [ControlWrite(0)] + [] == [ControlWrite(0)];
    }
  }

  /** With these answers to come, no poll after portion 255 sees the PROGRAMMED bit. */
  predicate NeverProgrammed(s: seq<byte>) {
    var ready := AfterWait(s, 0x01, MAX_MCU_RETRIES);
    Misses(AfterWait(ready, 0x01, |ready| + 1), 0x40, MAX_MCU_RETRIES) == MAX_MCU_RETRIES
  }

  /** Wait, send the payload, wait; after portion 255 also wait for the PROGRAMMED bit. */
  method SendPortion(fw: Firmware)
    requires fw.Valid()
    modifies fw`cmdErrors, fw.bus, fw.brdg
    ensures fw.Valid() && Fed(old(fw.bus.state), fw.bus.state, PayloadWrites(Payload(fw.rx[DATA..])))
    ensures var fails := fw.rx[DATA + 1] == 255 && NeverProgrammed(old(fw.bus.state.lms.status));
      fw.cmdErrors == old(fw.cmdErrors) + if fails then 1 else 0
  {
    hide Fed, Firmware.BusReady, Misses, AfterWait, PayloadWrites, Payload;
    ghost var b0, w := fw.bus.state, PayloadWrites(Payload(fw.rx[DATA..]));
    var retries := PollStatus(fw, 0x01, MAX_MCU_RETRIES);
    ghost var b1 := fw.bus.state;
    WritePayload(fw);
    ghost var b2 := fw.bus.state;
    FedMore(b0, b1, b2, [], w);
    PollUntilReady(fw);
    ghost var b3 := fw.bus.state;
    FedMore(b0, b2, b3, [] + w, []);
    assert [] + w + [] == w;
    if fw.rx[DATA + 1] == 255 {
      retries := PollStatus(fw, 0x40, MAX_MCU_RETRIES);
      FedMore(b0, b3, fw.bus.state, w, []);
      assert w + [] == w;
      if retries == MAX_MCU_RETRIES {
        fw.cmdErrors := fw.cmdErrors + 1;
      }
    }
  }

  /** What an accepted packet makes the MCU do; a boot request sends no payload. */
  method Perform(fw: Firmware, portion: nat) returns (boots: bool)
    requires fw.Valid() && portion == Portion(fw.rx[DATA..])
    modifies fw`cmdErrors, fw.bus, fw.brdg
    ensures fw.Valid() && boots == IsBoot(fw.rx[DATA..])
    ensures Fed(old(fw.bus.state), fw.bus.state, PacketWrites(fw.rx[DATA..]))
    ensures var fails := portion == 255 && NeverProgrammed(old(fw.bus.state.lms.status));
      fw.cmdErrors == old(fw.cmdErrors) + if fails then 1 else 0
  {
    hide Fed, Firmware.BusReady, Payload, PayloadWrites, StartWrites, NeverProgrammed;
    ghost var b, d := fw.bus.state, fw.rx[DATA..];
    assert fw.rx[DATA] == d[0] && fw.rx[DATA + 1] == d[1];
    LastPortion(d);
    boots := false;
    FedNothing(b);
    if portion == 0 {
      boots := StartProgramming(fw);
    }
    ghost var start := if portion == 0 then StartWrites(d[0]) else [];
    if boots {
      assert PacketWrites(d) == start + [];
      assert start + [] == start;
    } else {
      ghost var g := fw.bus.state;
      SendPortion(fw);
      FedMore(b, g, fw.bus.state, start, PayloadWrites(Payload(d)));
    }
  }

  lemma LastPortion(d: seq<byte>)
    requires |d| == 56
    ensures d[1] == 255 <==> Portion(d) == 255
    ensures d[1] == 0 <==> Portion(d) == 0
  {
  }

  /** An accepted packet: everything but the final status. */
  method Accept(fw: Firmware, portion: nat)
    requires fw.Valid() && fw.cmdErrors == 0 && portion == Portion(fw.rx[DATA..])
    modifies fw`cmdErrors, fw`lastPortion, fw.bus, fw.brdg
    ensures fw.Valid() && Fed(old(fw.bus.state), fw.bus.state, PacketWrites(fw.rx[DATA..]))
    ensures fw.lastPortion == if IsBoot(fw.rx[DATA..]) then old(fw.lastPortion) else portion
    ensures fw.cmdErrors == if portion == 255 && NeverProgrammed(old(fw.bus.state.lms.status)) then 1 else 0
  {
    hide Payload, IsBoot, Fed, PacketWrites, NeverProgrammed, Firmware.BusReady;
    var boots := Perform(fw, portion);
    if !boots {
      fw.lastPortion := portion;
    }
  }

  /** CMD_LMS_MCU_FW_WR, after the packet has been taken in. */
  method FirmwareWrite(fw: Firmware)
    requires fw.Valid() && fw.cmdErrors == 0
    modifies fw`cmdErrors, fw`lastPortion, fw.bus, fw.brdg, fw.tx
    ensures fw.Valid()
    ensures var d, last := fw.rx[DATA..], old(fw.lastPortion);
      && Fed(old(fw.bus.state), fw.bus.state, if InOrder(last, d) then PacketWrites(d) else [])
      && fw.lastPortion == (if InOrder(last, d) && !IsBoot(d) then Portion(d) else last)
      && fw.tx[..] == old(fw.tx[..])[STATUS := Verdict(last, d, old(fw.bus.state.lms.status))]
  {
    hide Payload, IsBoot, Fed, PacketWrites, NeverProgrammed, Firmware.BusReady;
    ghost var d := fw.rx[DATA..];
    var portion := fw.rx[DATA + 1] as int;
    assert portion == Portion(d);
    if portion != 0 && fw.lastPortion != portion - 1 {
      FedNothing(fw.bus.state);
      fw.tx[STATUS] := STATUS_WRONG_ORDER_CMD;
      return;
    }
    Accept(fw, portion);
    fw.tx[STATUS] := if fw.cmdErrors > 0 then STATUS_ERROR_CMD else STATUS_COMPLETED_CMD;
  }

  /** The reply status of a packet, from the portion before it and the answers the MCU will give. */
  function Verdict(last: nat, d: seq<byte>, status: seq<byte>): byte
    requires |d| == 56
  {
    if !InOrder(last, d) then STATUS_WRONG_ORDER_CMD
    else if Portion(d) == 255 && NeverProgrammed(status) then STATUS_ERROR_CMD
    else STATUS_COMPLETED_CMD
  }
}
