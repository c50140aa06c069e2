/** What the commands do, by their numbers, as the host on the other side of the packets sees it. */
module PacketLaws {
  import opened Words
  import opened SpiBus
  import opened RegisterChip
  import opened Commands
  import opened Upload
  import opened McuUpload
  import opened CommandLoop

  /** What a GPIO write does to the board is what a one-block register write with the two bytes swapped does. */
  lemma GpioIsRegisterWrite(p: Packet, last: nat, b: Board, g: Board)
    requires p[0] == 0x4F || p[0] == 0x51
    requires Executed(p, last, b, g)
    ensures g == WriteAll(b, 1, [0, if p[0] == 0x4F then 0xC4 else 0xC6, p[9], p[8]], 1)
  {
    var reg: byte := if p[0] == 0x4F then 0xC4 else 0xC6;
    var d := [0, reg, p[9], p[8]];
    assert DataOf(p)[0] == p[8] && DataOf(p)[1] == p[9];
    BoardAddress(reg);
    hide Address, Put;
    assert WriteAll(b, 1, d, 0) == b;
    assert WriteAll(b, 1, d, 1) == Update(b, 1, Put(b.brd, Address(d[0], d[1]), (d[2], d[3])));
  }

  /** A GPIO read answers with the value a one-block register read gives, the two bytes swapped. */
  lemma GpioIsRegisterRead(p: Packet, last: nat, b: Board, g: Board, t: seq<byte>)
    requires p[0] == 0x50 || p[0] == 0x52
    requires Executed(p, last, b, g) && Replied(p, last, b, t)
    ensures var v := ReadAll(b, 1, [0, if p[0] == 0x50 then 0xC4 else 0xC2], 1).1[0];
      g == b && |t| == 64 && t[1] == 1 && t[8] == v.1 && t[9] == v.0
  {
    var reg: byte := if p[0] == 0x50 then 0xC4 else 0xC2;
    var d := [0, reg];
    BoardAddress(reg);
    hide Address, Lookup, AfterRead;
    assert ReadAll(b, 1, d, 0) == (b, []);
    assert ReadAll(b, 1, d, 1).1 == [Lookup(b.brd, false, Address(d[0], d[1]))];
  }

  /** The two halves of the board that the register commands leave alone. */
  lemma {:induction false} OtherSlaveKept(b: Board, slave: nat, d: seq<byte>, n: nat)
    requires 4 * n <= |d|
    ensures var g := WriteAll(b, slave, d, n);
      if slave == 0 then g.brd == b.brd else g.lms == b.lms
  {
    hide Address, Put;
    if n > 0 {
      OtherSlaveKept(b, slave, d, n - 1);
    }
  }

  /**
   A write packet and a read packet for the same registers, of the LMS7002 (commands 0x21 and 0x22) or of the
   board (0x55 and 0x56): the reply carries, block by block, the last value written, and the other chip has
   not been touched.
   */
  lemma RegistersComeBack(w: Packet, r: Packet, last: nat, b: Board, g: Board, t: seq<byte>)
    requires (w[0] == 0x21 && r[0] == 0x22) || (w[0] == 0x55 && r[0] == 0x56)
    requires w[2] == r[2] && w[2] <= 14
    requires SameAddresses(if w[0] == 0x21 then 0 else 1, w[8..], r[8..], w[2] as int)
    requires Executed(w, last, b, g) && Replied(r, LastAfter(w, last), g, t)
    ensures |t| == 64 && t[0] == r[0] && t[1] == 1
    ensures if w[0] == 0x21 then g.brd == b.brd else g.lms == b.lms
    ensures forall i :: 0 <= i < w[2] as int ==>
      (t[8 + 4 * i + 2], t[8 + 4 * i + 3]) == LastWritten(w[8..], w[2] as int, BlockAddress(w[8..], i), (0, 0))
  {
    hide Executed, Replied, SameAddresses, BlockAddress, LastWritten, Address, LastAfter, Put, Lookup;
    hide ReadAll, WriteAll, Replies;
    var n, slave := BlocksOf(w), if w[0] == 0x21 then 0 else 1;
    WriteExecuted(w, last, b, g);
    ReadReplied(r, LastAfter(w, last), g, t);
    OtherSlaveKept(b, slave, DataOf(w), n);
    PacketRoundTrip(b, slave, DataOf(w), DataOf(r), n);
    ReadValues([r[0], STATUS_BUSY_CMD, r[2], r[3]] + Zeros(60), ReadAll(g, slave, DataOf(r), n).1, t);
  }

  lemma WriteExecuted(w: Packet, last: nat, b: Board, g: Board)
    requires (w[0] == 0x21 || w[0] == 0x55) && w[2] <= 14 && Executed(w, last, b, g)
    ensures g == WriteAll(b, if w[0] == 0x21 then 0 else 1, DataOf(w), BlocksOf(w))
  {
    hide WriteAll;
  }

  lemma ReadReplied(r: Packet, last: nat, b: Board, t: seq<byte>)
    requires (r[0] == 0x22 || r[0] == 0x56) && r[2] <= 14 && Replied(r, last, b, t)
    ensures var t0, vs := [r[0], STATUS_BUSY_CMD, r[2], r[3]] + Zeros(60),
                          ReadAll(b, if r[0] == 0x22 then 0 else 1, DataOf(r), BlocksOf(r)).1;
      t == Replies(t0, vs)[STATUS := STATUS_COMPLETED_CMD]
  {
    hide ReadAll, Replies;
  }

  /** The reply to a read, taken apart. */
  lemma ReadValues(t0: seq<byte>, vs: seq<Value>, t: seq<byte>)
    requires |t0| == 64 && |vs| <= 14 && t == Replies(t0, vs)[STATUS := STATUS_COMPLETED_CMD]
    ensures |t| == 64 && t[0] == t0[0] && t[1] == 1 && t[2] == t0[2] && t[3] == t0[3]
    ensures forall i :: 0 <= i < |vs| ==> (t[8 + 4 * i + 2], t[8 + 4 * i + 3]) == vs[i]
  {
    HeaderKept(t0, vs);
    var r := Replies(t0, vs);
    assert forall i :: 0 <= i < DATA ==> r[..DATA][i] == r[i] && t0[..DATA][i] == t0[i];
    forall i | 0 <= i < |vs|
      ensures (t[8 + 4 * i + 2], t[8 + 4 * i + 3]) == vs[i]
    {
      ReplyBlock(t0, vs, i);
      hide Replies;
    }
  }

  lemma HeaderKept(t: seq<byte>, vs: seq<Value>)
    requires DATA + 4 * |vs| <= |t|
    ensures Replies(t, vs)[..DATA] == t[..DATA]
  {
    if vs != [] {
      ReplyBlock(t, vs, 0);
    }
  }

  /** How many data bytes a block takes in the packet or in the reply, for the commands that have blocks. */
  function BlockSize(command: byte): nat {
    if command in {0x21, 0x22, 0x55, 0x56, 0x61} then 4 else if command == 0x31 then 3 else 0
  }

  /** Every command is answered under its own number, with the two bytes that follow the status as they came. */
  lemma AnsweredByNumber(p: Packet, last: nat, b: Board, t: seq<byte>)
    requires Replied(p, last, b, t)
    ensures |t| == 64 && t[0] == p[0] && t[2] == p[2] && t[3] == p[3]
  {
    hide NeverProgrammed, BadBlocks, ReadAll, Replies, GpioRead, InOrder, Portion;
    var c, t0 := p[0], [p[0], STATUS_BUSY_CMD, p[2], p[3]] + Zeros(60);
    if c == CMD_ANALOG_VAL_RD {
      assert t[..DATA] == [p[0], STATUS_COMPLETED_CMD] + t0[2..DATA];
      assert t[0] == t[..DATA][0] && t[2] == t[..DATA][2] && t[3] == t[..DATA][3];
    } else if (c == CMD_LMS7002_RD || c == CMD_BRDSPI16_RD) && BlocksOf(p) <= 14 {
      ReadValues(t0, ReadAll(b, SlaveOf(c), DataOf(p), BlocksOf(p)).1, t);
    } else if c == CMD_GPIO_DIR_RD || c == CMD_GPIO_RD {
      GpioReply(t0, b, if c == CMD_GPIO_DIR_RD then GPIO_DIR_REG else GPIO_RD_REG);
    }
  }

  lemma GpioReply(t: seq<byte>, b: Board, reg: byte)
    requires |t| == 64
    ensures var r := GpioRead(t, b, reg); |r| == 64 && r[0] == t[0] && r[2] == t[2] && r[3] == t[3]
  {
  }

  /** A command is unknown exactly if its number is not one of these. */
  lemma UnknownCommands(p: Packet, last: nat, b: Board, t: seq<byte>)
    requires Replied(p, last, b, t)
    ensures |t| == 64
    ensures t[1] == 2 <==> p[0] !in {0x00, 0x20, 0x21, 0x22, 0x2C, 0x31, 0x4F, 0x50, 0x51, 0x52, 0x55, 0x56, 0x61, 0x62}
  {
    hide NeverProgrammed, BadBlocks, ReadAll, Replies, GpioRead, InOrder, Portion;
    AnsweredByNumber(p, last, b, t);
    ReadsComplete(p, last, b, t);
  }

  lemma ReadsComplete(p: Packet, last: nat, b: Board, t: seq<byte>)
    requires Replied(p, last, b, t)
    ensures p[0] in {0x62, 0x50, 0x52} ==> |t| == 64 && t[1] == 1
  {
    if p[0] == 0x62 {
      assert t[1] == t[..DATA][1] == 1;
    }
  }

  /** The reply complains about the number of blocks exactly if they would not fit into the data field. */
  lemma BlocksThatDoNotFit(p: Packet, last: nat, b: Board, t: seq<byte>)
    requires Replied(p, last, b, t)
    ensures |t| == 64 && (t[1] == 4 <==> BlockSize(p[0]) * (p[2] as int) > 56)
  {
    hide NeverProgrammed, BadBlocks, ReadAll, Replies, GpioRead, InOrder, Portion;
    AnsweredByNumber(p, last, b, t);
    ReadsComplete(p, last, b, t);
  }

  lemma {:induction false} NoBadBlocks(d: seq<byte>, n: nat)
    requires 4 * n <= |d|
    ensures BadBlocks(d, n) == 0 <==> forall k :: 0 <= k < n ==> d[4 * k] == 0 && d[4 * k + 1] == 0 && d[4 * k + 2] == 0
  {
    if n > 0 {
      NoBadBlocks(d, n - 1);
    }
  }

  /** Setting an analog value is reported as an error exactly if a block is not for the TCXO DAC, raw, in eight bits. */
  lemma AnalogWriteChecked(p: Packet, last: nat, b: Board, t: seq<byte>)
    requires Replied(p, last, b, t) && p[0] == 0x61 && p[2] <= 14
    ensures |t| == 64
    ensures t[1] == if forall k :: 0 <= k < p[2] as int ==> p[8 + 4 * k] == 0 && p[9 + 4 * k] == 0 && p[10 + 4 * k] == 0
                    then 1 else 5
  {
    var d, n := DataOf(p), BlocksOf(p);
    NoBadBlocks(d, n);
    hide BadBlocks;
    assert forall k :: 0 <= k < n ==>
      d[4 * k] == p[8 + 4 * k] && d[4 * k + 1] == p[9 + 4 * k] && d[4 * k + 2] == p[10 + 4 * k];
  }

  /** The first wait takes i answers: up to the first that says ready, but at most 30. */
  predicate FirstWait(s: seq<byte>, i: nat) {
    && i <= 30 && (forall k :: 0 <= k < i - 1 ==> StatusAt(s, k) & 0x01 == 0)
    && if i < 30 then i > 0 && StatusAt(s, i - 1) & 0x01 != 0 else true
  }

  /** The second wait takes the answers from i to j, the last of which is the first that says ready. */
  predicate SecondWait(s: seq<byte>, i: nat, j: nat) {
    && i < j && StatusAt(s, j - 1) & 0x01 != 0 && forall k :: i <= k < j - 1 ==> StatusAt(s, k) & 0x01 == 0
  }

  lemma StatusFrom(s: seq<byte>, i: nat, k: nat)
    ensures StatusAt(From(s, i), k) == StatusAt(s, i + k)
  {
  }

  lemma FromFrom(s: seq<byte>, i: nat, k: nat)
    ensures From(From(s, i), k) == From(s, i + k)
  {
  }

  lemma FirstWaitTakes(s: seq<byte>, i: nat)
    requires FirstWait(s, i)
    ensures AfterWait(s, 0x01, 30) == From(s, i)
  {
    hide StatusAt, From, Misses, AfterWait;
    MissesIs(s, 0x01, 30, if i == 30 && StatusAt(s, 29) & 0x01 == 0 then 30 else i - 1);
  }

  lemma SecondWaitTakes(s: seq<byte>, i: nat, j: nat)
    requires SecondWait(s, i, j)
    ensures AfterWait(From(s, i), 0x01, |From(s, i)| + 1) == From(s, j)
  {
    var r, n := From(s, i), j - 1 - i;
    ShiftedWait(s, i, j);
    ReadyAtLast(r);
    FromFrom(s, i, n + 1);
    hide StatusAt, From, Misses, AfterWait, SecondWait;
    if |r| < n {
      assert false;
    }
    MissesIs(r, 0x01, |r| + 1, n);
  }

  /** The second wait, as the answers that are left then show it. */
  lemma ShiftedWait(s: seq<byte>, i: nat, j: nat)
    requires SecondWait(s, i, j)
    ensures var r, n := From(s, i), j - 1 - i;
      StatusAt(r, n) & 0x01 != 0 && forall k :: 0 <= k < n ==> StatusAt(r, k) & 0x01 == 0
  {
    hide StatusAt, From;
    var r, n := From(s, i), j - 1 - i;
    StatusFrom(s, i, n);
    forall k | 0 <= k < n
      ensures StatusAt(r, k) & 0x01 == 0
    {
      StatusFrom(s, i, k);
    }
  }

  /**
   After portion 255 the MCU must report that it is programmed: the reply is an error exactly if none of the 30
   answers that follow the two waits has that bit. No other portion is answered with an error.
   */
  lemma LastPortionChecked(p: Packet, last: nat, b: Board, t: seq<byte>, i: nat, j: nat)
    requires Replied(p, last, b, t) && p[0] == 0x2C && (p[9] as int == last + 1 || p[9] == 0)
    requires FirstWait(b.lms.status, i) && SecondWait(b.lms.status, i, j)
    ensures |t| == 64
    ensures t[1] == if p[9] == 255 && forall k :: j <= k < j + 30 ==> StatusAt(b.lms.status, k) & 0x40 == 0
                    then 5 else 1
  {
    assert DataOf(p)[1] == p[9];
    NeverReported(b.lms.status, i, j);
    hide NeverProgrammed, FirstWait, SecondWait, StatusAt, BadBlocks, ReadAll, Replies, GpioRead;
  }

  lemma NeverReported(s: seq<byte>, i: nat, j: nat)
    requires FirstWait(s, i) && SecondWait(s, i, j)
    ensures NeverProgrammed(s) <==> forall k :: j <= k < j + 30 ==> StatusAt(s, k) & 0x40 == 0
  {
    FirstWaitTakes(s, i);
    SecondWaitTakes(s, i, j);
    ProgrammedBits(s, j);
    hide FirstWait, SecondWait, AfterWait, Misses, From, StatusAt;
  }

  lemma ProgrammedBits(s: seq<byte>, j: nat)
    ensures Misses(From(s, j), 0x40, 30) == 30 <==> forall k :: j <= k < j + 30 ==> StatusAt(s, k) & 0x40 == 0
  {
    var r := From(s, j);
    forall k: nat
      ensures StatusAt(r, k) == StatusAt(s, j + k)
    {
      StatusFrom(s, j, k);
    }
    hide StatusAt, From;
    var n := Misses(r, 0x40, 30);
    if n == 30 {
      assert forall k :: j <= k < j + 30 ==> StatusAt(s, k) == StatusAt(r, k - j);
    } else {
      assert StatusAt(r, n) == StatusAt(s, j + n);
    }
  }
}
