/** The command loop of main.c over runs of packets, and what becomes of an upload among other commands. */
module CommandLoop {
  import opened Words
  import opened SpiBus
  import opened SpiMaster
  import opened RegisterChip
  import opened Commands
  import opened Upload
  import opened McuUpload

  const CMD_GET_INFO: byte := 0x00
  const CMD_LMS_RST: byte := 0x20
  const CMD_LMS7002_WR: byte := 0x21
  const CMD_LMS7002_RD: byte := 0x22
  const CMD_LMS_MCU_FW_WR: byte := 0x2C
  const CMD_ADF4002_WR: byte := 0x31
  const CMD_GPIO_DIR_WR: byte := 0x4F
  const CMD_GPIO_DIR_RD: byte := 0x50
  const CMD_GPIO_WR: byte := 0x51
  const CMD_GPIO_RD: byte := 0x52
  const CMD_BRDSPI16_WR: byte := 0x55
  const CMD_BRDSPI16_RD: byte := 0x56
  const CMD_ANALOG_VAL_WR: byte := 0x61
  const CMD_ANALOG_VAL_RD: byte := 0x62

  const GPIO_DIR_REG: byte := 0xC4
  const GPIO_VAL_REG: byte := 0xC6
  const GPIO_RD_REG: byte := 0xC2

  /** FW_VER, DEV_TYPE, LMS_PROTOCOL_VER, HW_VER and EXP_BOARD */
  const BOARD_INFO: seq<byte> := [5, 15, 1, 1, 0]

  type Packet = p: seq<byte> | |p| == 64 witness Zeros(64)

  function DataOf(p: Packet): (d: seq<byte>)
    ensures |d| == DATA_SIZE
  {
    p[DATA..]
  }

  function BlocksOf(p: Packet): (n: nat)
    ensures n < 256
  {
    p[BLOCKS] as int
  }

  // ---------------------------------------------------------------------------------------------
  // What one packet does.
  // ---------------------------------------------------------------------------------------------

  /** The registers after a packet, as they follow from the registers before it and the last portion accepted. */
  ghost predicate Executed(p: Packet, last: nat, b: Board, g: Board) {
    var c, d, n := p[0], DataOf(p), BlocksOf(p);
    if c == CMD_LMS7002_WR || c == CMD_BRDSPI16_WR then g == if n > 14 then b else WriteAll(b, SlaveOf(c), d, n)
    else if c == CMD_LMS7002_RD || c == CMD_BRDSPI16_RD then g == if n > 14 then b else ReadAll(b, SlaveOf(c), d, n).0
    else if c == CMD_LMS_MCU_FW_WR then Fed(b, g, if InOrder(last, d) then PacketWrites(d) else [])
    else if c == CMD_GPIO_DIR_WR then g == GpioWritten(b, GPIO_DIR_REG, d)
    else if c == CMD_GPIO_WR then g == GpioWritten(b, GPIO_VAL_REG, d)
    else g == b
  }

  function SlaveOf(command: byte): nat {
    if command == CMD_LMS7002_WR || command == CMD_LMS7002_RD then 0 else 1
  }

  /** The two data bytes, swapped, in a register of the board. */
  function GpioWritten(b: Board, reg: byte, d: seq<byte>): Board
    requires |d| == DATA_SIZE
  {
    b.(brd := Put(b.brd, reg as int, (d[1], d[0])))
  }

  function GpioRead(t: seq<byte>, b: Board, reg: byte): seq<byte>
    requires |t| == 64
  {
    var v := Lookup(b.brd, false, reg as int);
    t[DATA := v.1][DATA + 1 := v.0]
  }

  /** Directions that were written are read back, the two bytes in the order they were sent. */
  lemma GpioRoundTrip(b: Board, d: seq<byte>, t: seq<byte>)
    requires |d| == DATA_SIZE && |t| == 64
    ensures var r := GpioRead(t, GpioWritten(b, GPIO_DIR_REG, d), GPIO_DIR_REG);
      r == t[DATA := d[0]][DATA + 1 := d[1]]
  {
  }

  /** How many blocks a command accepts. */
  function MostBlocks(command: byte): nat {
    if command in {CMD_LMS7002_WR, CMD_BRDSPI16_WR, CMD_LMS7002_RD, CMD_BRDSPI16_RD, CMD_ANALOG_VAL_WR} then 14
    else if command == CMD_ADF4002_WR then 18
    else 255
  }

  /** A block of CMD_ANALOG_VAL_WR that sets anything but a raw eight-bit value of the TCXO DAC. */
  predicate BadAnalog(d: seq<byte>, k: nat)
    requires 4 * k + 4 <= |d|
  {
    d[4 * k] != 0 || d[4 * k + 1] != 0 || d[4 * k + 2] != 0
  }

  /** How many of the first n blocks are bad. */
  function BadBlocks(d: seq<byte>, n: nat): nat
    requires 4 * n <= |d|
  {
    if n == 0 then 0 else BadBlocks(d, n - 1) + if BadAnalog(d, n - 1) then 1 else 0
  }

  /** The reply to a packet; what CMD_ANALOG_VAL_RD measures is left open. */
  ghost predicate Replied(p: Packet, last: nat, b: Board, t: seq<byte>) {
    var c, d, n, t0 := p[0], DataOf(p), BlocksOf(p), [p[0], STATUS_BUSY_CMD, p[2], p[3]] + Zeros(60);
    if c == CMD_ANALOG_VAL_RD then |t| == 64 && t[..DATA] == t0[STATUS := STATUS_COMPLETED_CMD][..DATA]
    else if n > MostBlocks(c) then t == t0[STATUS := STATUS_BLOCKS_ERROR_CMD]
    else if c == CMD_GET_INFO then t == Overwrite(t0, DATA, BOARD_INFO)[STATUS := STATUS_COMPLETED_CMD]
    else if c == CMD_ANALOG_VAL_WR then
      t == t0[STATUS := if BadBlocks(d, n) > 0 then STATUS_ERROR_CMD else STATUS_COMPLETED_CMD]
    else if c == CMD_LMS7002_RD || c == CMD_BRDSPI16_RD then
      t == Replies(t0, ReadAll(b, SlaveOf(c), d, n).1)[STATUS := STATUS_COMPLETED_CMD]
    else if c == CMD_LMS_MCU_FW_WR then t == t0[STATUS := Verdict(last, d, b.lms.status)]
    else if c == CMD_GPIO_DIR_RD then t == GpioRead(t0, b, GPIO_DIR_REG)[STATUS := STATUS_COMPLETED_CMD]
    else if c == CMD_GPIO_RD then t == GpioRead(t0, b, GPIO_RD_REG)[STATUS := STATUS_COMPLETED_CMD]
    else if c in {CMD_LMS7002_WR, CMD_BRDSPI16_WR, CMD_GPIO_DIR_WR, CMD_GPIO_WR, CMD_LMS_RST, CMD_ADF4002_WR} then
      t == t0[STATUS := STATUS_COMPLETED_CMD]
    else t == t0[STATUS := STATUS_UNKNOWN_CMD]
  }

  /** last_portion after a packet. */
  function LastAfter(p: Packet, last: nat): nat {
    var d := DataOf(p);
    if p[0] == CMD_LMS_MCU_FW_WR && InOrder(last, d) && !IsBoot(d) then Portion(d) else last
  }

  lemma BoardAddress(reg: byte)
    ensures Address(0x80, reg) == reg as int && Address(0x00, reg) == reg as int
  {
  }

  /** CMD_GPIO_DIR_WR and CMD_GPIO_WR. */
  method GpioWrite(fw: Firmware, reg: byte)
    requires fw.Valid()
    modifies fw.bus, fw.brdg, fw.tx
    ensures fw.Valid() && fw.bus.state == GpioWritten(old(fw.bus.state), reg, fw.rx[DATA..])
    ensures fw.tx[..] == old(fw.tx[..])[STATUS := STATUS_COMPLETED_CMD]
  {
    fw.brdg[0] := 0x80;
    fw.brdg[1] := reg;
    fw.brdg[2] := fw.rx[DATA + 1];
    fw.brdg[3] := fw.rx[DATA];
    BoardAddress(reg);
    hide Address, Put;
    fw.SendWrite(1, fw.brdg, 0);
    fw.tx[STATUS] := STATUS_COMPLETED_CMD;
  }

  /** CMD_GPIO_DIR_RD and CMD_GPIO_RD; the answer lands behind the command bytes. */
  method GpioReadCommand(fw: Firmware, reg: byte)
    requires fw.Valid()
    modifies fw.bus, fw.brdg, fw.tx
    ensures fw.Valid() && fw.bus.state == old(fw.bus.state)
    ensures fw.tx[..] == GpioRead(old(fw.tx[..]), old(fw.bus.state), reg)[STATUS := STATUS_COMPLETED_CMD]
  {
    fw.brdg[0] := 0x00;
    fw.brdg[1] := reg;
    BoardAddress(reg);
    hide Address, Lookup;
    fw.SendRead(1, fw.brdg, 0, fw.brdg, 2);
    fw.tx[DATA] := fw.brdg[3];
    fw.tx[DATA + 1] := fw.brdg[2];
    fw.tx[STATUS] := STATUS_COMPLETED_CMD;
  }

  /** CMD_GET_INFO */
  method GetInfo(fw: Firmware)
    requires fw.Valid()
    modifies fw.tx
    ensures fw.Valid() && fw.tx[..] == Overwrite(old(fw.tx[..]), DATA, BOARD_INFO)[STATUS := STATUS_COMPLETED_CMD]
  {
    fw.tx[DATA], fw.tx[DATA + 1], fw.tx[DATA + 2], fw.tx[DATA + 3], fw.tx[DATA + 4] := 5, 15, 1, 1, 0;
    fw.tx[STATUS] := STATUS_COMPLETED_CMD;
  }

  /** CMD_ADF4002_WR, as far as this bus and the reply are concerned; nothing in it counts an error. */
  method AdfWrite(fw: Firmware)
    requires fw.Valid() && fw.cmdErrors == 0
    modifies fw.tx
    ensures fw.Valid()
    ensures var tooMany := fw.rx[BLOCKS] as int > 18;
      fw.tx[..] == old(fw.tx[..])[STATUS := if tooMany then STATUS_BLOCKS_ERROR_CMD else STATUS_COMPLETED_CMD]
  {
    var tooMany := fw.CheckManyBlocks(3);
    if !tooMany {
      fw.tx[STATUS] := STATUS_COMPLETED_CMD;
    }
  }

  /** CMD_ANALOG_VAL_WR, likewise: a block for another channel, unit or high byte counts an error. */
  method AnalogWrite(fw: Firmware)
    requires fw.Valid() && fw.cmdErrors == 0
    modifies fw`cmdErrors, fw.tx
    ensures fw.Valid()
    ensures var d, n := fw.rx[DATA..], fw.rx[BLOCKS] as int;
      fw.tx[..] == old(fw.tx[..])[STATUS := if n > 14 then STATUS_BLOCKS_ERROR_CMD
                                            else if BadBlocks(d, n) > 0 then STATUS_ERROR_CMD else STATUS_COMPLETED_CMD]
  {
    var tooMany := fw.CheckManyBlocks(4);
    if tooMany {
      return;
    }
    ghost var d := fw.rx[DATA..];
    for block := 0 to fw.rx[BLOCKS] as int
      invariant fw.Valid() && fw.cmdErrors == BadBlocks(d, block) && fw.tx[..] == old(fw.tx[..])
    {
      ghost var k := 4 * block;
      assert fw.rx[DATA + k] == d[k] && fw.rx[DATA + k + 1] == d[k + 1] && fw.rx[DATA + k + 2] == d[k + 2];
      if fw.rx[DATA + 4 * block] == 0 {
        if fw.rx[DATA + 4 * block + 1] == 0 {
          if fw.rx[DATA + 4 * block + 2] != 0 {
            fw.cmdErrors := fw.cmdErrors + 1;
          }
        } else {
          fw.cmdErrors := fw.cmdErrors + 1;
        }
      } else {
        fw.cmdErrors := fw.cmdErrors + 1;
      }
    }
    fw.tx[STATUS] := if fw.cmdErrors > 0 then STATUS_ERROR_CMD else STATUS_COMPLETED_CMD;
  }

  /** CMD_LMS_RST: an invalid mode counts an error, but the reply does not show it. */
  method Reset(fw: Firmware)
    requires fw.Valid()
    modifies fw`cmdErrors, fw.tx
    ensures fw.Valid() && fw.tx[..] == old(fw.tx[..])[STATUS := STATUS_COMPLETED_CMD]
  {
    if fw.rx[DATA] > 2 {
      fw.cmdErrors := fw.cmdErrors + 1;
    }
    fw.tx[STATUS] := STATUS_COMPLETED_CMD;
  }

  /** CMD_ANALOG_VAL_RD: any data at all. */
  method AnalogRead(fw: Firmware)
    requires fw.Valid()
    modifies fw`cmdErrors, fw.tx
    ensures fw.Valid() && fw.tx[..DATA] == old(fw.tx[..])[STATUS := STATUS_COMPLETED_CMD][..DATA]
  {
    ghost var t0 := fw.tx[..];
    fw.cmdErrors := *;
    for i := DATA to 64
      invariant fw.tx[..DATA] == t0[..DATA]
    {
      fw.tx[i] := *;
    }
    fw.tx[STATUS] := STATUS_COMPLETED_CMD;
    assert fw.tx[..DATA] == t0[..DATA][STATUS := STATUS_COMPLETED_CMD];
  }

  /** The commands that use this bus. */
  predicate OnThisBus(command: byte) {
    command in {CMD_LMS7002_WR, CMD_LMS7002_RD, CMD_BRDSPI16_WR, CMD_BRDSPI16_RD, CMD_LMS_MCU_FW_WR,
                CMD_GPIO_DIR_WR, CMD_GPIO_DIR_RD, CMD_GPIO_WR, CMD_GPIO_RD}
  }

  /** One pass of the command loop: take the packet in, and do what it says. */
  method HandlePacket(fw: Firmware, p: Packet)
    requires fw.Valid()
    modifies fw`cmdErrors, fw`lastPortion, fw.bus, fw.rx, fw.tx, fw.brdg
    ensures fw.Valid()
    ensures Executed(p, old(fw.lastPortion), old(fw.bus.state), fw.bus.state)
    ensures Replied(p, old(fw.lastPortion), old(fw.bus.state), fw.tx[..])
    ensures fw.lastPortion == LastAfter(p, old(fw.lastPortion))
  {
    fw.Begin(p);
    if OnThisBus(fw.rx[0]) {
      UseBus(fw, p);
    } else {
      StayOffBus(fw, p);
    }
  }

  /** The cases of the switch that use the bus. */
  method UseBus(fw: Firmware, ghost p: Packet)
    requires fw.Valid() && fw.cmdErrors == 0 && fw.rx[..] == p && OnThisBus(p[0])
    requires fw.tx[..] == [p[0], STATUS_BUSY_CMD, p[2], p[3]] + Zeros(60)
    modifies fw`cmdErrors, fw`lastPortion, fw.bus, fw.rx, fw.tx, fw.brdg
    ensures fw.Valid()
    ensures Executed(p, old(fw.lastPortion), old(fw.bus.state), fw.bus.state)
    ensures Replied(p, old(fw.lastPortion), old(fw.bus.state), fw.tx[..])
    ensures fw.lastPortion == LastAfter(p, old(fw.lastPortion))
  {
    hide Fed, PacketWrites, WriteAll, ReadAll, Replies, Verdict, Firmware.BusReady, GpioWritten, GpioRead, BadBlocks;
    assert fw.rx[DATA..] == DataOf(p);
    var command := fw.rx[0];
    if command == CMD_LMS7002_WR {
      fw.RegisterWrite(0);
    } else if command == CMD_LMS7002_RD {
      fw.RegisterRead(0);
    } else if command == CMD_BRDSPI16_WR {
      fw.RegisterWrite(1);
    } else if command == CMD_BRDSPI16_RD {
      fw.RegisterRead(1);
    } else if command == CMD_LMS_MCU_FW_WR {
      FirmwareWrite(fw);
    } else if command == CMD_GPIO_DIR_WR {
      GpioWrite(fw, GPIO_DIR_REG);
    } else if command == CMD_GPIO_DIR_RD {
      GpioReadCommand(fw, GPIO_DIR_REG);
    } else if command == CMD_GPIO_WR {
      GpioWrite(fw, GPIO_VAL_REG);
    } else {
      GpioReadCommand(fw, GPIO_RD_REG);
    }
  }

  /** The other cases, and the default. */
  method StayOffBus(fw: Firmware, ghost p: Packet)
    requires fw.Valid() && fw.cmdErrors == 0 && fw.rx[..] == p && !OnThisBus(p[0])
    requires fw.tx[..] == [p[0], STATUS_BUSY_CMD, p[2], p[3]] + Zeros(60)
    modifies fw`cmdErrors, fw.tx
    ensures fw.Valid() && Replied(p, fw.lastPortion, fw.bus.state, fw.tx[..])
  {
    hide BadBlocks;
    assert fw.rx[DATA..] == DataOf(p);
    var command := fw.rx[0];
    if command == CMD_GET_INFO {
      GetInfo(fw);
    } else if command == CMD_LMS_RST {
      Reset(fw);
    } else if command == CMD_ADF4002_WR {
      AdfWrite(fw);
    } else if command == CMD_ANALOG_VAL_RD {
      AnalogRead(fw);
    } else if command == CMD_ANALOG_VAL_WR {
      AnalogWrite(fw);
    } else {
      fw.tx[STATUS] := STATUS_UNKNOWN_CMD;
    }
  }

  // ---------------------------------------------------------------------------------------------
  // What the FIFO register receives over a run.
  // ---------------------------------------------------------------------------------------------

  /** The bytes that the first n blocks of a write packet put into the FIFO register themselves. */
  function Strays(d: seq<byte>, n: nat): seq<byte>
    requires 4 * n <= |d|
  {
    if n == 0 then []
    else
      var k := 4 * (n - 1);
      Strays(d, n - 1) + if Address(d[k], d[k + 1]) == FIFO_REG then [d[k + 3]] else []
  }

  lemma {:induction false} WriteAllFifo(b: Board, slave: nat, d: seq<byte>, n: nat)
    requires 4 * n <= |d|
    ensures Fifo(WriteAll(b, slave, d, n).lms.log) == Fifo(b.lms.log) + if slave == 0 then Strays(d, n) else []
  {
    hide Address;
    if n > 0 {
      WriteAllFifo(b, slave, d, n - 1);
      var g, k := WriteAll(b, slave, d, n - 1), 4 * (n - 1);
      var w := (Address(d[k], d[k + 1]), (d[k + 2], d[k + 3]));
      assert slave == 0 ==> (g.lms.log + [w])[..|g.lms.log|] == g.lms.log;
    }
  }

  lemma {:induction false} ReadAllFifo(b: Board, slave: nat, d: seq<byte>, n: nat)
    requires 2 * n <= |d|
    ensures ReadAll(b, slave, d, n).0.lms.log == b.lms.log
  {
    hide Address;
    if n > 0 {
      ReadAllFifo(b, slave, d, n - 1);
    }
  }

  /** A write packet for the LMS7002 one of whose blocks addresses the FIFO register of the MCU. */
  predicate WritesFifo(p: Packet) {
    p[0] == CMD_LMS7002_WR && BlocksOf(p) <= 14
    && exists k :: 0 <= k < BlocksOf(p) && Address(DataOf(p)[4 * k], DataOf(p)[4 * k + 1]) == FIFO_REG
  }

  /** An upload packet with portion 0 that is not a boot request; it is always accepted. */
  predicate Begins(p: Packet) {
    p[0] == CMD_LMS_MCU_FW_WR && Portion(DataOf(p)) == 0 && !IsBoot(DataOf(p))
  }

  /**
   An upload as a run has left it: its session, what the FIFO register received before the latest portion 0, and
   what it has received since.
   */
  datatype Progress = Progress(session: Session, before: seq<byte>, since: seq<byte>)

  function After(g: Progress, p: Packet): Progress {
    var d := DataOf(p);
    if p[0] == CMD_LMS_MCU_FW_WR then
      if !InOrder(g.session.last, d) || IsBoot(d) then g
      else if Portion(d) == 0 then Progress(Handle(g.session, d), g.before + g.since, Payload(d))
      else g.(session := Handle(g.session, d), since := g.since + Payload(d))
    else if p[0] == CMD_LMS7002_WR && BlocksOf(p) <= 14 then g.(since := g.since + Strays(d, BlocksOf(p)))
    else g
  }

  function AfterAll(ps: seq<Packet>): Progress {
    if ps == [] then Progress(POWER_UP, [], []) else After(AfterAll(ps[..|ps| - 1]), ps[|ps| - 1])
  }

  /** One packet changes the FIFO register as the progress says. */
  lemma ExecutedFifo(first: seq<byte>, g: Progress, p: Packet, b: Board, b': Board)
    requires Executed(p, g.session.last, b, b') && Fifo(b.lms.log) == first + g.before + g.since
    ensures Fifo(b'.lms.log) == first + After(g, p).before + After(g, p).since
    ensures After(g, p).session.last == LastAfter(p, g.session.last)
  {
    hide Fifo, Payload, Strays, WriteAll, ReadAll, Fed, PacketWrites, GpioWritten;
    var c, d, n := p[0], DataOf(p), BlocksOf(p);
    if c == CMD_LMS_MCU_FW_WR {
      UploadFifo(g, d, b, b');
      assert first + (g.before + g.since) == first + g.before + g.since;
      assert first + g.before + g.since + Payload(d) == first + g.before + (g.since + Payload(d));
    } else if (c == CMD_LMS7002_WR || c == CMD_BRDSPI16_WR) && n <= 14 {
      WriteAllFifo(b, SlaveOf(c), d, n);
      assert first + g.before + g.since + Strays(d, n) == first + g.before + (g.since + Strays(d, n));
    } else if (c == CMD_LMS7002_RD || c == CMD_BRDSPI16_RD) && n <= 14 {
      ReadAllFifo(b, SlaveOf(c), d, n);
    } else {
      GpioKeepsLms(b, GPIO_DIR_REG, d);
      GpioKeepsLms(b, GPIO_VAL_REG, d);
    }
  }

  lemma GpioKeepsLms(b: Board, reg: byte, d: seq<byte>)
    requires |d| == DATA_SIZE
    ensures GpioWritten(b, reg, d).lms == b.lms
  {
  }

  lemma UploadFifo(g: Progress, d: seq<byte>, b: Board, b': Board)
    requires |d| == DATA_SIZE && Fed(b, b', if InOrder(g.session.last, d) then PacketWrites(d) else [])
    ensures Fifo(b'.lms.log) == Fifo(b.lms.log) + if InOrder(g.session.last, d) && !IsBoot(d) then Payload(d) else []
  {
    if InOrder(g.session.last, d) {
      FifoFed(b, b', d);
    } else {
      assert b.lms.log + [] == b.lms.log;
    }
  }

  /** Any run of packets: the FIFO register receives what the progress says, and the portions are counted alike. */
  method CommandRun(fw: Firmware, ps: seq<Packet>)
    requires fw.Valid() && fw.lastPortion == 0
    modifies fw`cmdErrors, fw`lastPortion, fw.bus, fw.rx, fw.tx, fw.brdg
    ensures fw.Valid() && fw.lastPortion == AfterAll(ps).session.last
    ensures Fifo(fw.bus.state.lms.log) == Fifo(old(fw.bus.state.lms.log)) + AfterAll(ps).before + AfterAll(ps).since
  {
    ghost var first := Fifo(fw.bus.state.lms.log);
    for i := 0 to |ps|
      invariant fw.Valid() && fw.lastPortion == AfterAll(ps[..i]).session.last
      invariant Fifo(fw.bus.state.lms.log) == first + AfterAll(ps[..i]).before + AfterAll(ps[..i]).since
    {
      ghost var b, g := fw.bus.state, AfterAll(ps[..i]);
      HandlePacket(fw, ps[i]);
      assert ps[..i + 1][..i] == ps[..i];
      ExecutedFifo(first, g, ps[i], b, fw.bus.state);
    }
    assert ps[..|ps|] == ps;
  }

  /** The data fields of the upload packets of a run. */
  function UploadFields(ps: seq<Packet>): (ds: seq<seq<byte>>)
    ensures forall i :: 0 <= i < |ds| ==> |ds[i]| == 56
  {
    if ps == [] then []
    else UploadFields(ps[..|ps| - 1]) + if ps[|ps| - 1][0] == CMD_LMS_MCU_FW_WR then [DataOf(ps[|ps| - 1])] else []
  }

  /** Other commands do not affect the session. */
  lemma {:induction false} SessionOfUploads(ps: seq<Packet>)
    ensures AfterAll(ps).session == HandleAll(POWER_UP, UploadFields(ps))
  {
    if ps != [] {
      var init, p := ps[..|ps| - 1], ps[|ps| - 1];
      SessionOfUploads(init);
      if p[0] == CMD_LMS_MCU_FW_WR {
        assert (UploadFields(init) + [DataOf(p)])[..|UploadFields(init)|] == UploadFields(init);
      } else {
        assert UploadFields(init) + [] == UploadFields(init);
      }
    }
  }

  /** The position of the latest packet that begins an upload, or 0. */
  function Latest(ps: seq<Packet>): (i: nat)
    ensures i <= |ps|
  {
    if ps == [] then 0 else if Begins(ps[|ps| - 1]) then |ps| - 1 else Latest(ps[..|ps| - 1])
  }

  /** How many bytes other than payloads the FIFO register has received since then. */
  function StraysSince(ps: seq<Packet>): nat {
    if ps == [] then 0
    else
      var p := ps[|ps| - 1];
      if Begins(p) then 0
      else if p[0] == CMD_LMS7002_WR && BlocksOf(p) <= 14 then
        StraysSince(ps[..|ps| - 1]) + |Strays(DataOf(p), BlocksOf(p))|
      else StraysSince(ps[..|ps| - 1])
  }

  lemma {:induction false} NoStrays(d: seq<byte>, n: nat)
    requires 4 * n <= |d|
    ensures Strays(d, n) == [] <==> forall k :: 0 <= k < n ==> Address(d[4 * k], d[4 * k + 1]) != FIFO_REG
  {
    hide Address;
    if n > 0 {
      NoStrays(d, n - 1);
    }
  }

  /** There are none exactly if no write packet since then has addressed the register. */
  lemma {:induction false} NoStraysSince(ps: seq<Packet>)
    ensures StraysSince(ps) == 0 <==> forall i :: Latest(ps) <= i < |ps| ==> !WritesFifo(ps[i])
  {
    if ps != [] {
      var init, p := ps[..|ps| - 1], ps[|ps| - 1];
      NoStraysSince(init);
      assert forall i :: 0 <= i < |init| ==> ps[i] == init[i];
      if p[0] == CMD_LMS7002_WR && BlocksOf(p) <= 14 {
        NoStrays(DataOf(p), BlocksOf(p));
      }
      hide Strays;
      assert Begins(p) ==> !WritesFifo(p);
      assert !Begins(p) ==> (StraysSince(ps) == 0 <==> StraysSince(init) == 0 && !WritesFifo(p));
    }
  }

  /** What has been received since the latest portion 0 is the stream of the session and the stray bytes. */
  lemma {:induction false} StreamAndStrays(ps: seq<Packet>)
    ensures var g := AfterAll(ps);
      && (forall i :: 0 <= i < |g.session.parts| ==> |g.session.parts[i]| == 56)
      && |g.since| == |Stream(g.session.parts)| + StraysSince(ps)
      && (StraysSince(ps) == 0 ==> g.since == Stream(g.session.parts))
  {
    if ps != [] {
      StreamAndStrays(ps[..|ps| - 1]);
      OneMorePacket(AfterAll(ps[..|ps| - 1]), ps[|ps| - 1]);
    }
  }

  lemma OneMorePacket(g: Progress, p: Packet)
    requires forall i :: 0 <= i < |g.session.parts| ==> |g.session.parts[i]| == 56
    ensures var h := After(g, p);
      && (forall i :: 0 <= i < |h.session.parts| ==> |h.session.parts[i]| == 56)
      && if Begins(p) then h.since == Stream(h.session.parts)
         else if p[0] == CMD_LMS7002_WR && BlocksOf(p) <= 14 then
           h.since == g.since + Strays(DataOf(p), BlocksOf(p)) && h.session == g.session
         else (h.since == g.since && h.session == g.session)
              || exists t :: h.since == g.since + t && Stream(h.session.parts) == Stream(g.session.parts) + t
  {
    var d, parts := DataOf(p), g.session.parts;
    if p[0] == CMD_LMS_MCU_FW_WR && InOrder(g.session.last, d) && !IsBoot(d) {
      if Portion(d) == 0 {
        assert [d][..0] == [] && Stream([d]) == [] + Payload(d);
      } else {
        assert (parts + [d])[..|parts|] == parts;
        assert Stream(parts + [d]) == Stream(parts) + Payload(d);
      }
    }
  }

  /** Up to the packet that began it, the register had received what `before` says. */
  lemma {:induction false} BeforeLatest(ps: seq<Packet>)
    ensures var h := AfterAll(ps[..Latest(ps)]);
      AfterAll(ps).before == h.before + h.since
  {
    if ps != [] {
      var init, p := ps[..|ps| - 1], ps[|ps| - 1];
      BeforeLatest(init);
      if !Begins(p) {
        assert ps[..Latest(ps)] == init[..Latest(init)];
      }
    }
  }

  /** The FIFO register has received the stream of the session and nothing else since the latest portion 0. */
  ghost predicate Intact(ps: seq<Packet>) {
    var g := AfterAll(ps);
    (forall i :: 0 <= i < |g.session.parts| ==> |g.session.parts[i]| == 56) && g.since == Stream(g.session.parts)
  }

  /**
   Over any run of commands, the bytes that the FIFO register has received since the latest portion 0 that was not a
   boot request are the payloads of portions 0 to last_portion, in order, if and only if no LMS7002 write
   packet since then has addressed that register.
   */
  lemma UploadAmongOthers(ps: seq<Packet>)
    ensures var g, h := AfterAll(ps), AfterAll(ps[..Latest(ps)]);
      && Consecutive(g.session, UploadFields(ps))
      && g.before == h.before + h.since
      && (Intact(ps) <==> forall i :: Latest(ps) <= i < |ps| ==> !WritesFifo(ps[i]))
      && (g.session.started ==>
            && |Stream(g.session.parts)| == 32 * (g.session.last + 1)
            && forall i :: 0 <= i <= g.session.last
                ==> Stream(g.session.parts)[32 * i..32 * i + 32] == Payload(g.session.parts[i]))
  {
    SessionOfUploads(ps);
    UploadedStream(UploadFields(ps));
    BeforeLatest(ps);
    StreamAndStrays(ps);
    NoStraysSince(ps);
    hide Stream, StraysSince, WritesFifo, Latest, HandleAll, UploadFields;
  }

  /** A write packet of one block for register 4, in the middle of an upload: the MCU receives a byte too many. */
  lemma StrayByte(start: Packet)
    requires Begins(start)
    ensures var stray := [CMD_LMS7002_WR, 0, 1, 0, 0, 0, 0, 0, 0x00, 0x04, 0x12, 0x34] + Zeros(52);
      WritesFifo(stray) && !Intact([start, stray])
  {
    var stray: Packet := [CMD_LMS7002_WR, 0, 1, 0, 0, 0, 0, 0, 0x00, 0x04, 0x12, 0x34] + Zeros(52);
    var ps := [start, stray];
    assert DataOf(stray)[0] == 0x00 && DataOf(stray)[1] == 0x04 && Address(0x00, 0x04) == 4;
    assert Address(DataOf(stray)[4 * 0], DataOf(stray)[4 * 0 + 1]) == FIFO_REG;
    assert ps[..1] == [start] && ps[1] == stray && WritesFifo(ps[1]);
    UploadAmongOthers(ps);
  }

  // ---------------------------------------------------------------------------------------------
  // Which portions are accepted.
  // ---------------------------------------------------------------------------------------------

  /** The portion after the last one is accepted: its 32 bytes are written, and it becomes the last one. */
  lemma NextPortionAccepted(p: Packet, last: nat, b: Board, g: Board, t: seq<byte>)
    requires p[0] == CMD_LMS_MCU_FW_WR && p[9] as int == last + 1
    requires Executed(p, last, b, g) && Replied(p, last, b, t)
    ensures LastAfter(p, last) == last + 1 && |t| == 64 && t[1] != 6
    ensures Fifo(g.lms.log) == Fifo(b.lms.log) + p[10..42]
  {
    var d := DataOf(p);
    assert d[0] == p[8] && d[1] == p[9] && d[2..34] == p[10..42];
    FifoFed(b, g, d);
    hide Fed, PacketWrites, NeverProgrammed, Fifo;
  }

  /** Portion 0 begins anew from any portion, unless it asks for a boot. */
  lemma FirstPortionAccepted(p: Packet, last: nat, b: Board, g: Board, t: seq<byte>)
    requires p[0] == CMD_LMS_MCU_FW_WR && p[9] == 0
    requires Executed(p, last, b, g) && Replied(p, last, b, t)
    ensures |t| == 64 && t[1] != 6
    ensures LastAfter(p, last) == if p[8] == 3 then last else 0
    ensures Fifo(g.lms.log) == Fifo(b.lms.log) + if p[8] == 3 then [] else p[10..42]
  {
    var d := DataOf(p);
    assert d[0] == p[8] && d[1] == p[9] && d[2..34] == p[10..42];
    FifoFed(b, g, d);
    hide Fed, PacketWrites, NeverProgrammed, Fifo;
  }

  /** Any other portion is refused, and nothing is written. */
  lemma OtherPortionsRefused(p: Packet, last: nat, b: Board, g: Board, t: seq<byte>)
    requires p[0] == CMD_LMS_MCU_FW_WR && p[9] != 0 && p[9] as int != last + 1
    requires Executed(p, last, b, g) && Replied(p, last, b, t)
    ensures LastAfter(p, last) == last && |t| == 64 && t[1] == 6
    ensures g.brd == b.brd && g.lms.log == b.lms.log
  {
    var d := DataOf(p);
    assert d[0] == p[8] && d[1] == p[9];
    assert b.lms.log + [] == b.lms.log;
    hide PacketWrites, NeverProgrammed, Fifo;
  }

  /** What a portion that is not a boot request does to the control register, after resetting it. */
  lemma ModeIsSet(p: Packet)
    requires p[0] == CMD_LMS_MCU_FW_WR && p[9] == 0
    ensures var ws := PacketWrites(DataOf(p));
      && |ws| > 0 && ws[0] == (2, (0, 0))
      && (1 <= p[8] <= 3 ==> |ws| > 1 && ws[1] == (2, (0, p[8])))
      && forall i :: 2 <= i < |ws| ==> ws[i].0 == 4
  {
    var d := DataOf(p);
    assert d[0] == p[8] && d[1] == p[9];
    assert (CONTROL_REG as int) == 2;
  }

  /** The portion number of an upload packet. */
  function PortionOf(p: Packet): nat {
    p[9] as int
  }

  /** Upload packets with portions 0, 1, ... */
  ghost predicate InSequence(ps: seq<Packet>) {
    forall i :: 0 <= i < |ps| ==> ps[i][0] == CMD_LMS_MCU_FW_WR && PortionOf(ps[i]) == i
  }

  lemma PortionInData(p: Packet)
    ensures Portion(DataOf(p)) == PortionOf(p) && DataOf(p)[0] == p[8] && Payload(DataOf(p)) == p[10..42]
  {
    assert DataOf(p)[1] == p[9] && DataOf(p)[2..34] == p[10..42];
  }

  /** A whole firmware in order: every packet is accepted, and the FIFO register receives all payloads in order. */
  lemma UploadInOrder(ps: seq<Packet>)
    requires ps != [] && InSequence(ps) && ps[0][8] != 3
    ensures var g := AfterAll(ps);
      && g.session.last == |ps| - 1 && g.before == [] && g.session.parts == UploadFields(ps)
      && (|g.session.parts| == |ps| && forall i :: 0 <= i < |ps| ==> g.session.parts[i] == DataOf(ps[i]))
      && |g.since| == 32 * |ps| && forall i :: 0 <= i < |ps| ==> g.since[32 * i..32 * i + 32] == ps[i][10..42]
  {
    var ds := UploadFields(ps);
    FieldsOfUploads(ps);
    PortionInData(ps[0]);
    hide Portion, PortionOf, Payload, Stream;
    InOrderAccepted(ds);
    SessionOfUploads(ps);
    UploadAmongOthers(ps);
    UploadedStream(ds);
    LatestIsFirst(ps);
    OnlyUploads(ps);
    var g := AfterAll(ps);
    assert Intact(ps);
    assert ps[..0] == [];
    forall i | 0 <= i < |ps|
      ensures g.since[32 * i..32 * i + 32] == ps[i][10..42]
    {
      PortionInData(ps[i]);
    }
  }

  lemma OnlyUploads(ps: seq<Packet>)
    requires InSequence(ps)
    ensures forall i :: 0 <= i < |ps| ==> !WritesFifo(ps[i])
  {
  }

  lemma {:induction false} FieldsOfUploads(ps: seq<Packet>)
    requires InSequence(ps)
    ensures |UploadFields(ps)| == |ps|
    ensures forall i :: 0 <= i < |ps| ==> UploadFields(ps)[i] == DataOf(ps[i]) && Portion(UploadFields(ps)[i]) == i
  {
    hide Portion, PortionOf;
    if ps != [] {
      var init, p := ps[..|ps| - 1], ps[|ps| - 1];
      FieldsOfUploads(init);
      PortionInData(p);
      assert UploadFields(ps) == UploadFields(init) + [DataOf(p)];
    }
  }

  lemma {:induction false} LatestIsFirst(ps: seq<Packet>)
    requires InSequence(ps)
    ensures Latest(ps) == 0
  {
    hide Portion, PortionOf;
    if |ps| > 1 {
      LatestIsFirst(ps[..|ps| - 1]);
      PortionInData(ps[|ps| - 1]);
    }
  }
}
