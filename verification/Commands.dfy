/** The LMS64C command loop of main.c: register packets and the MCU firmware upload. */
module Commands {
  import opened Words
  import opened SpiBus
  import opened SpiMaster
  import opened RegisterChip

  /** Offsets in a 64-byte packet: command, status, number of blocks, peripheral; then the data field. */
  const STATUS: nat := 1
  const BLOCKS: nat := 2
  const DATA: nat := 8
  const DATA_SIZE: nat := 56

  const STATUS_COMPLETED_CMD: byte := 1
  const STATUS_UNKNOWN_CMD: byte := 2
  const STATUS_BUSY_CMD: byte := 3
  const STATUS_BLOCKS_ERROR_CMD: byte := 4
  const STATUS_ERROR_CMD: byte := 5
  const STATUS_WRONG_ORDER_CMD: byte := 6

  const CONTROL_REG: byte := 2
  const MAX_MCU_RETRIES: nat := 30

  // ---------------------------------------------------------------------------------------------
  // Register packets as functions of the packet and the registers.
  // ---------------------------------------------------------------------------------------------

  /** The registers after the first n four-byte blocks of d have been written. */
  function WriteAll(b: Board, slave: nat, d: seq<byte>, n: nat): Board
    requires 4 * n <= |d|
  {
    if n == 0 then b
    else
      var g, k := WriteAll(b, slave, d, n - 1), 4 * (n - 1);
      Update(g, slave, Put(Select(g, slave), Address(d[k], d[k + 1]), (d[k + 2], d[k + 3])))
  }

  /** The registers after, and the values from, reading the first n two-byte addresses of d. */
  function ReadAll(b: Board, slave: nat, d: seq<byte>, n: nat): (r: (Board, seq<Value>))
    requires 2 * n <= |d|
    ensures |r.1| == n
  {
    if n == 0 then (b, [])
    else
      var (g, vs) := ReadAll(b, slave, d, n - 1);
      var a := Address(d[2 * (n - 1)], d[2 * (n - 1) + 1]);
      (Update(g, slave, AfterRead(Select(g, slave), slave == 0, a)), vs + [Lookup(Select(g, slave), slave == 0, a)])
  }

  /** The value that the last of the first n blocks gives register a, or the one it had. */
  function LastWritten(d: seq<byte>, n: nat, a: nat, before: Value): Value
    requires 4 * n <= |d|
  {
    if n == 0 then before
    else
      var k := 4 * (n - 1);
      if Address(d[k], d[k + 1]) == a then (d[k + 2], d[k + 3]) else LastWritten(d, n - 1, a, before)
  }

  /** Block i decides if no later block names its register. */
  lemma {:induction false} LastDecides(d: seq<byte>, n: nat, i: nat, a: nat, before: Value)
    requires 4 * n <= |d| && i < n && Address(d[4 * i], d[4 * i + 1]) == a
    requires forall j :: i < j < n ==> Address(d[4 * j], d[4 * j + 1]) != a
    ensures LastWritten(d, n, a, before) == (d[4 * i + 2], d[4 * i + 3])
  {
    if i < n - 1 {
      LastDecides(d, n - 1, i, a, before);
    }
  }

  /** A register that no block names keeps its value. */
  lemma {:induction false} OthersKept(d: seq<byte>, n: nat, a: nat, before: Value)
    requires 4 * n <= |d| && forall j :: 0 <= j < n ==> Address(d[4 * j], d[4 * j + 1]) != a
    ensures LastWritten(d, n, a, before) == before
  {
    if n > 0 {
      OthersKept(d, n - 1, a, before);
    }
  }

  lemma {:induction false} WrittenLookup(b: Board, slave: nat, d: seq<byte>, n: nat, a: nat)
    requires 4 * n <= |d| && (slave != 0 || a != STATUS_REG)
    ensures Lookup(Select(WriteAll(b, slave, d, n), slave), slave == 0, a)
            == LastWritten(d, n, a, Lookup(Select(b, slave), slave == 0, a))
  {
    hide Address;
    if n > 0 {
      WrittenLookup(b, slave, d, n - 1, a);
    }
  }

  /** Reading registers other than the MCU status register changes nothing. */
  lemma {:induction false} ReadKeeps(b: Board, slave: nat, d: seq<byte>, n: nat)
    requires 2 * n <= |d|
    requires forall i :: 0 <= i < n ==> slave != 0 || Address(d[2 * i], d[2 * i + 1]) != STATUS_REG
    ensures ReadAll(b, slave, d, n).0 == b
    ensures forall i :: 0 <= i < n
              ==> ReadAll(b, slave, d, n).1[i] == Lookup(Select(b, slave), slave == 0, Address(d[2 * i], d[2 * i + 1]))
  {
    hide Address;
    if n > 0 {
      ReadKeeps(b, slave, d, n - 1);
    }
  }

  /** The address in block i of a write packet. */
  function BlockAddress(w: seq<byte>, i: nat): nat
    requires 4 * i + 1 < |w|
  {
    Address(w[4 * i], w[4 * i + 1])
  }

  /** The first n blocks of a write and a read packet name the same registers, none of them the MCU status register. */
  ghost predicate SameAddresses(slave: nat, w: seq<byte>, r: seq<byte>, n: nat) {
    && |w| == DATA_SIZE && |r| == DATA_SIZE && n <= 14
    && forall i :: 0 <= i < n ==>
         Address(r[2 * i], r[2 * i + 1]) == BlockAddress(w, i) && (slave != 0 || BlockAddress(w, i) != STATUS_REG)
  }

  /** Reading back what a packet has just written gives, block by block, the last value written to the address. */
  lemma PacketRoundTrip(b: Board, slave: nat, w: seq<byte>, r: seq<byte>, n: nat)
    requires SameAddresses(slave, w, r, n)
    ensures forall i :: 0 <= i < n
              ==> ReadAll(WriteAll(b, slave, w, n), slave, r, n).1[i] == LastWritten(w, n, BlockAddress(w, i), (0, 0))
  {
    hide Address;
    ReadKeeps(WriteAll(b, slave, w, n), slave, r, n);
    forall i | 0 <= i < n
      ensures ReadAll(WriteAll(b, slave, w, n), slave, r, n).1[i] == LastWritten(w, n, BlockAddress(w, i), (0, 0))
    {
      WrittenLookup(b, slave, w, n, BlockAddress(w, i));
      LastIsAmong(w, n, i, Lookup(Select(b, slave), slave == 0, BlockAddress(w, i)), (0, 0));
    }
  }

  /** A register that some block writes does not depend on what it held before. */
  lemma {:induction false} LastIsAmong(d: seq<byte>, n: nat, i: nat, u: Value, v: Value)
    requires 4 * n <= |d| && i < n
    ensures LastWritten(d, n, Address(d[4 * i], d[4 * i + 1]), u)
        == LastWritten(d, n, Address(d[4 * i], d[4 * i + 1]), v)
  {
    hide Address;
    if i < n - 1 {
      LastIsAmong(d, n - 1, i, u, v);
    }
  }

  lemma WriteBit(a0: byte, a1: byte)
    ensures Address(a0 | 0x80, a1) == Address(a0, a1) && (a0 | 0x80) & 0x80 != 0
    ensures Address(a0 & 0x7F, a1) == Address(a0, a1) && (a0 & 0x7F) & 0x80 == 0
  {
    assert (a0 | 0x80) & 0x7F == a0 & 0x7F && (a0 & 0x7F) & 0x7F == a0 & 0x7F;
  }

  /** The reply data with the values read: two bytes untouched, then the value, per block. */
  function Replies(t: seq<byte>, vs: seq<Value>): (r: seq<byte>)
    requires DATA + 4 * |vs| <= |t|
    ensures |r| == |t|
  {
    if vs == [] then t
    else
      var n := |vs| - 1;
      Overwrite(Replies(t, vs[..n]), DATA + 4 * n + 2, [vs[n].0, vs[n].1])
  }

  lemma NoReplies(b: Board, slave: nat, d: seq<byte>, t: seq<byte>)
    requires DATA <= |t|
    ensures ReadAll(b, slave, d, 0) == (b, []) && Replies(t, []) == t
  {
  }

  lemma OneMoreReply(b: Board, slave: nat, d: seq<byte>, t: seq<byte>, n: nat)
    requires 2 * (n + 1) <= |d| && DATA + 4 * (n + 1) <= |t|
    ensures var (g, vs) := ReadAll(b, slave, d, n);
      var r, a := Select(g, slave), Address(d[2 * n], d[2 * n + 1]);
      var v := Lookup(r, slave == 0, a);
      && ReadAll(b, slave, d, n + 1).0 == Update(g, slave, AfterRead(r, slave == 0, a))
      && Replies(t, ReadAll(b, slave, d, n + 1).1) == Overwrite(Replies(t, vs), DATA + 4 * n + 2, [v.0, v.1])
  {
    hide Address, Lookup, AfterRead;
    assert ReadAll(b, slave, d, n + 1).1[..n] == ReadAll(b, slave, d, n).1;
  }

  /** Block i of the reply: the first two bytes are left alone, the other two are the value. */
  lemma {:induction false} ReplyBlock(t: seq<byte>, vs: seq<Value>, i: nat)
    requires DATA + 4 * |vs| <= |t| && i < |vs|
    ensures var r, j := Replies(t, vs), DATA + 4 * i;
      r[j] == t[j] && r[j + 1] == t[j + 1] && r[j + 2] == vs[i].0 && r[j + 3] == vs[i].1
    ensures Replies(t, vs)[..DATA] == t[..DATA]
  {
    var n := |vs| - 1;
    ReplyTail(t, vs[..n]);
    if i < n {
      ReplyBlock(t, vs[..n], i);
    } else if n > 0 {
      ReplyBlock(t, vs[..n], 0);
    }
  }

  /** What follows the last block is left alone. */
  lemma {:induction false} ReplyTail(t: seq<byte>, vs: seq<Value>)
    requires DATA + 4 * |vs| <= |t|
    ensures forall j :: DATA + 4 * |vs| <= j < |t| ==> Replies(t, vs)[j] == t[j]
  {
    if vs != [] {
      ReplyTail(t, vs[..|vs| - 1]);
    }
  }

  lemma FourBytes(rx: seq<byte>, d: seq<byte>, at: nat, k: nat)
    requires at <= |rx| && k <= |d| && rx[at..] == d[k..]
    ensures forall i :: at <= i < |rx| ==> k <= i - at + k < |d| && rx[i] == d[i - at + k]
  {
    forall i | at <= i < |rx|
      ensures k <= i - at + k < |d| && rx[i] == d[i - at + k]
    {
      assert rx[at..][i - at] == d[k..][i - at];
    }
  }

  class Firmware {
    const bus: Controller<Board>
    const rx: array<byte>
    const tx: array<byte>
    const brdg: array<byte>
    var cmdErrors: nat
    var lastPortion: nat

    /** At power-up, on an idle bus. */
    constructor (bus: Controller<Board>)
      requires bus.slaves == Bus() && bus.Idle() && !bus.overrun && !bus.sso
      requires bus.state.lms.frame == [] && bus.state.brd.frame == []
      ensures Valid() && this.bus == bus && lastPortion == 0 && fresh(rx) && fresh(tx) && fresh(brdg)
    {
      this.bus := bus;
      rx, tx, brdg := new byte[64], new byte[64], new byte[4];
      cmdErrors, lastPortion := 0, 0;
    }

    ghost predicate Valid()
      reads this, bus
    {
      && rx.Length == 64 && tx.Length == 64 && brdg.Length == 4
      && rx != tx && rx != brdg && tx != brdg
      && BusReady()
    }

    ghost predicate BusReady()
      reads bus
    {
      && bus.slaves == Bus() && bus.Idle() && !bus.overrun && !bus.sso
      && bus.state.lms.frame == [] && bus.state.brd.frame == []
    }

    /** The bytes of the packet, the reply cleared, and its header started. */
    method Begin(packet: seq<byte>)
      requires Valid() && |packet| == 64
      modifies this`cmdErrors, rx, tx
      ensures Valid() && cmdErrors == 0 && rx[..] == packet
      ensures tx[..] == [packet[0], STATUS_BUSY_CMD, packet[2], packet[3]] + Zeros(60)
    {
      for i := 0 to 64
        invariant rx[..i] == packet[..i]
      {
        rx[i] := packet[i];
      }
      for i := 0 to 64
        invariant forall j :: 0 <= j < i ==> tx[j] == 0
        invariant rx[..] == packet
      {
        tx[i] := 0;
      }
      cmdErrors := 0;
      tx[0], tx[STATUS], tx[2], tx[3] := rx[0], STATUS_BUSY_CMD, rx[2], rx[3];
    }

    /** Check_many_blocks */
    method CheckManyBlocks(blockSize: nat) returns (tooMany: bool)
      requires Valid() && blockSize > 0
      modifies tx
      ensures Valid() && tooMany == (rx[BLOCKS] as int > DATA_SIZE / blockSize)
      ensures tx[..] == if tooMany then old(tx[..])[STATUS := STATUS_BLOCKS_ERROR_CMD] else old(tx[..])
    {
      tooMany := rx[BLOCKS] as int > DATA_SIZE / blockSize;
      if tooMany {
        tx[STATUS] := STATUS_BLOCKS_ERROR_CMD;
      }
    }

    /** One four-byte write command from `src`. */
    method SendWrite(slave: nat, src: array<byte>, at: nat)
      requires Valid() && at + 4 <= src.Length && src[at] & 0x80 != 0
      modifies bus
      ensures Valid() && src[..] == old(src[..])
      ensures var r := Select(old(bus.state), slave);
        bus.state == Update(old(bus.state), slave, Put(r, Address(src[at], src[at + 1]), (src[at + 2], src[at + 3])))
    {
      ghost var b, out := bus.state, src[at..at + 4];
      var none := new byte[0];
      var n := bus.Command(slave, src, at, 4, none, 0, 0, false, false);
      Writes(b, slave, out);
    }

    /** One two-byte read command; the answer may overwrite the command. */
    method SendRead(slave: nat, src: array<byte>, at: nat, dst: array<byte>, to: nat)
      requires Valid() && at + 2 <= src.Length && to + 2 <= dst.Length && src[at] & 0x80 == 0
      modifies bus, dst
      ensures Valid()
      ensures var r, a := Select(old(bus.state), slave), Address(old(src[at]), old(src[at + 1]));
        var v := Lookup(r, slave == 0, a);
        && bus.state == Update(old(bus.state), slave, AfterRead(r, slave == 0, a))
        && dst[..] == Overwrite(old(dst[..]), to, [v.0, v.1])
    {
      ghost var b, out := bus.state, src[at..at + 2];
      var n := bus.Command(slave, src, at, 2, dst, to, 2, false, false);
      assert out == [out[0], out[1]];
      Reads(b, slave, out[0], out[1]);
    }

    /** Block `k` of a write packet: set the write bit, send four bytes. */
    method WriteBlock(slave: nat, k: nat, ghost d: seq<byte>)
      requires Valid() && k < 14 && |d| == DATA_SIZE && rx[DATA + 4 * k..] == d[4 * k..]
      modifies bus, rx
      ensures Valid() && rx[BLOCKS] == old(rx[BLOCKS]) && tx[..] == old(tx[..])
          && rx[DATA + 4 * (k + 1)..] == d[4 * (k + 1)..]
      ensures bus.state == Update(old(bus.state), slave,
                Put(Select(old(bus.state), slave), Address(d[4 * k], d[4 * k + 1]), (d[4 * k + 2], d[4 * k + 3])))
    {
      hide Put;
      var at := DATA + 4 * k;
      FourBytes(rx[..], d, at, 4 * k);
      WriteBit(rx[at], rx[at + 1]);
      rx[at] := rx[at] | 0x80;
      hide Address;
      SendWrite(slave, rx, at);
    }

    /** Block `k` of a read packet: clear the write bit, send two bytes, store the two answers in the reply. */
    method ReadBlock(slave: nat, k: nat, ghost d: seq<byte>)
      requires Valid() && k < 14 && |d| == DATA_SIZE && rx[DATA + 2 * k..] == d[2 * k..]
      modifies bus, rx, tx
      ensures Valid() && rx[BLOCKS] == old(rx[BLOCKS]) && rx[DATA + 2 * (k + 1)..] == d[2 * (k + 1)..]
      ensures var r, a := Select(old(bus.state), slave), Address(d[2 * k], d[2 * k + 1]);
        var v := Lookup(r, slave == 0, a);
        && bus.state == Update(old(bus.state), slave, AfterRead(r, slave == 0, a))
        && tx[..] == Overwrite(old(tx[..]), DATA + 4 * k + 2, [v.0, v.1])
    {
      hide AfterRead, Lookup;
      var at := DATA + 2 * k;
      FourBytes(rx[..], d, at, 2 * k);
      WriteBit(rx[at], rx[at + 1]);
      rx[at] := rx[at] & 0x7F;
      hide Address;
      SendRead(slave, rx, at, tx, DATA + 4 * k + 2);
    }

    /** CMD_LMS7002_WR (slave 0) and CMD_BRDSPI16_WR (slave 1). */
    method RegisterWrite(slave: nat)
      requires Valid()
      modifies bus, rx, tx
      ensures Valid()
      ensures var d, n := old(rx[DATA..]), old(rx[BLOCKS]) as int;
        if n > 14 then bus.state == old(bus.state) && tx[..] == old(tx[..])[STATUS := STATUS_BLOCKS_ERROR_CMD]
        else bus.state == WriteAll(old(bus.state), slave, d, n) && tx[..] == old(tx[..])[STATUS := STATUS_COMPLETED_CMD]
    {
      hide Address, Put, WriteAll, BusReady;
      ghost var d := rx[DATA..];
      var tooMany := CheckManyBlocks(4);
      if tooMany {
        return;
      }
      WriteBlocks(slave, rx[BLOCKS] as int, d);
      tx[STATUS] := STATUS_COMPLETED_CMD;
    }

    method WriteBlocks(slave: nat, blocks: nat, ghost d: seq<byte>)
      requires Valid() && blocks <= 14 && d == rx[DATA..]
      modifies bus, rx
      ensures Valid() && tx[..] == old(tx[..])
      ensures bus.state == WriteAll(old(bus.state), slave, d, blocks)
    {
      hide Address, Put, BusReady, Update, Select;
      ghost var b := bus.state;
      for block := 0 to blocks
        invariant Valid() && tx[..] == old(tx[..])
        invariant rx[DATA + 4 * block..] == d[4 * block..]
        invariant bus.state == WriteAll(b, slave, d, block)
      {
        WriteBlock(slave, block, d);
      }
    }

    /** CMD_LMS7002_RD (slave 0) and CMD_BRDSPI16_RD (slave 1). */
    method RegisterRead(slave: nat)
      requires Valid()
      modifies bus, rx, tx
      ensures Valid()
      ensures var d, n := old(rx[DATA..]), old(rx[BLOCKS]) as int;
        if n > 14 then bus.state == old(bus.state) && tx[..] == old(tx[..])[STATUS := STATUS_BLOCKS_ERROR_CMD]
        else
          var (g, vs) := ReadAll(old(bus.state), slave, d, n);
          bus.state == g && tx[..] == Replies(old(tx[..]), vs)[STATUS := STATUS_COMPLETED_CMD]
    {
      ghost var d := rx[DATA..];
      var tooMany := CheckManyBlocks(4);
      if tooMany {
        return;
      }
      ReadBlocks(slave, rx[BLOCKS] as int, d);
      tx[STATUS] := STATUS_COMPLETED_CMD;
    }

    method ReadBlocks(slave: nat, blocks: nat, ghost d: seq<byte>)
      requires Valid() && blocks <= 14 && d == rx[DATA..]
      modifies bus, rx, tx
      ensures Valid()
      ensures bus.state == ReadAll(old(bus.state), slave, d, blocks).0
      ensures tx[..] == Replies(old(tx[..]), ReadAll(old(bus.state), slave, d, blocks).1)
    {
      ghost var b, t := bus.state, tx[..];
      hide Address, AfterRead, Lookup, BusReady;
      NoReplies(b, slave, d, t);
      hide ReadAll, Replies, Overwrite, Update, Select;
      for block := 0 to blocks
        invariant Valid()
        invariant rx[DATA + 2 * block..] == d[2 * block..]
        invariant bus.state == ReadAll(b, slave, d, block).0
        invariant tx[..] == Replies(t, ReadAll(b, slave, d, block).1)
      {
        ReadNext(slave, block, d, b, t);
      }
    }

    /** One more block of a read packet that began with the registers b and the reply t. */
    method ReadNext(slave: nat, k: nat, ghost d: seq<byte>, ghost b: Board, ghost t: seq<byte>)
      requires Valid() && k < 14 && |d| == DATA_SIZE && rx[DATA + 2 * k..] == d[2 * k..] && |t| == 64
      requires bus.state == ReadAll(b, slave, d, k).0 && tx[..] == Replies(t, ReadAll(b, slave, d, k).1)
      modifies bus, rx, tx
      ensures Valid() && rx[BLOCKS] == old(rx[BLOCKS]) && rx[DATA + 2 * (k + 1)..] == d[2 * (k + 1)..]
      ensures bus.state == ReadAll(b, slave, d, k + 1).0 && tx[..] == Replies(t, ReadAll(b, slave, d, k + 1).1)
    {
      hide Address, AfterRead, Lookup, BusReady, ReadAll, Replies, Overwrite, Update, Select;
      ReadBlock(slave, k, d);
      OneMoreReply(b, slave, d, t, k);
    }

    /** A whole write packet, from its arrival on. */
    method WritePacket(slave: nat, w: seq<byte>)
      requires Valid() && |w| == 64
      modifies this`cmdErrors, bus, rx, tx
      ensures Valid()
      ensures var n := w[BLOCKS] as int;
        if n > 14 then bus.state == old(bus.state) && tx[STATUS] == STATUS_BLOCKS_ERROR_CMD
        else bus.state == WriteAll(old(bus.state), slave, w[DATA..], n) && tx[STATUS] == STATUS_COMPLETED_CMD
    {
      hide WriteAll, BusReady;
      Begin(w);
      RegisterWrite(slave);
    }

    /** A whole read packet. */
    method ReadPacket(slave: nat, r: seq<byte>)
      requires Valid() && |r| == 64
      modifies this`cmdErrors, bus, rx, tx
      ensures Valid()
      ensures var n := r[BLOCKS] as int;
        if n > 14 then bus.state == old(bus.state) && tx[STATUS] == STATUS_BLOCKS_ERROR_CMD
        else
          var (g, vs) := ReadAll(old(bus.state), slave, r[DATA..], n);
          bus.state == g
          && tx[..] == Replies([r[0], STATUS_BUSY_CMD, r[2], r[3]] + Zeros(60), vs)[STATUS := STATUS_COMPLETED_CMD]
    {
      hide ReadAll, Replies, BusReady;
      Begin(r);
      RegisterRead(slave);
    }

    /**
     A write packet and then a read packet for the same addresses: each block of the reply is two zero bytes
     and the last value written to its address. At most 14 blocks fit; more are refused untouched.
     */
    method WriteThenRead(slave: nat, w: seq<byte>, r: seq<byte>) returns (ghost n: nat)
      requires Valid() && |w| == 64 && |r| == 64 && w[BLOCKS] == r[BLOCKS]
      requires w[BLOCKS] as int <= 14 ==> SameAddresses(slave, w[DATA..], r[DATA..], w[BLOCKS] as int)
      modifies this`cmdErrors, bus, rx, tx
      ensures Valid() && n == w[BLOCKS] as int
      ensures n > 14 ==> bus.state == old(bus.state) && tx[STATUS] == STATUS_BLOCKS_ERROR_CMD
      ensures n <= 14 ==> tx[STATUS] == STATUS_COMPLETED_CMD && forall i :: 0 <= i < n ==>
                HasReply(tx[..], i, LastWritten(w[DATA..], n, BlockAddress(w[DATA..], i), (0, 0)))
    {
      hide Address, ReadAll, WriteAll, LastWritten, Replies, BusReady, SameAddresses, HasReply;
      n := w[BLOCKS] as int;
      ghost var b := bus.state;
      WritePacket(slave, w);
      ReadPacket(slave, r);
      if n <= 14 {
        ReadBack(b, slave, w[DATA..], r[DATA..], n, [r[0], STATUS_BUSY_CMD, r[2], r[3]] + Zeros(60));
      }
    }
  }

  /** Block i of the reply holds two zero bytes and the value v. */
  ghost predicate HasReply(t: seq<byte>, i: nat, v: Value)
    requires DATA + 4 * i + 4 <= |t|
  {
    t[DATA + 4 * i] == 0 && t[DATA + 4 * i + 1] == 0 && t[DATA + 4 * i + 2] == v.0 && t[DATA + 4 * i + 3] == v.1
  }

  lemma HasReplies(t0: seq<byte>, vs: seq<Value>)
    requires |t0| == 64 && |vs| <= 14 && t0[4..] == Zeros(60)
    ensures forall i :: 0 <= i < |vs| ==> HasReply(Replies(t0, vs)[STATUS := STATUS_COMPLETED_CMD], i, vs[i])
  {
    forall i | 0 <= i < |vs|
      ensures HasReply(Replies(t0, vs)[STATUS := STATUS_COMPLETED_CMD], i, vs[i])
    {
      ReplyBlock(t0, vs, i);
      hide Replies;
      var j := DATA + 4 * i;
      assert t0[j] == t0[4..][j - 4] == 0 && t0[j + 1] == t0[4..][j - 3] == 0;
    }
  }

  lemma ReadBack(b: Board, slave: nat, w: seq<byte>, r: seq<byte>, n: nat, t0: seq<byte>)
    requires SameAddresses(slave, w, r, n) && |t0| == 64 && t0[4..] == Zeros(60)
    ensures var vs := ReadAll(WriteAll(b, slave, w, n), slave, r, n).1;
      forall i :: 0 <= i < n ==>
        HasReply(Replies(t0, vs)[STATUS := STATUS_COMPLETED_CMD], i, LastWritten(w, n, BlockAddress(w, i), (0, 0)))
  {
    HasReplies(t0, ReadAll(WriteAll(b, slave, w, n), slave, r, n).1);
    PacketRoundTrip(b, slave, w, r, n);
  }
}
