/**
 Two register files with 15-bit addresses and 16-bit values on one bus: the LMS7002M (slave 0) and the board
 (slave 1).
 */
module RegisterChip {
  import opened Words
  import opened SpiBus

  type Value = (byte, byte)

  /**
   A register file: its contents, every write made to it, the answers the MCU status register will still give
   before it reports ready for good, and the bytes received since the file was selected.
   */
  datatype Regs = Regs(mem: map<nat, Value>, log: seq<(nat, Value)>, status: seq<byte>, frame: seq<byte>)

  datatype Board = Board(lms: Regs, brd: Regs)

  const STATUS_REG: nat := 3
  const FIFO_REG: nat := 4
  const READY: byte := 0x41

  /** The register that two address bytes select; the top bit is the write bit. */
  function Address(a0: byte, a1: byte): nat {
    High(a0) * 256 + Low(a1)
  }

  function High(a: byte): (h: nat)
    ensures h < 128
  {
    (a & 0x7F) as int
  }

  function Low(a: byte): (l: nat)
    ensures l < 256
  {
    a as int
  }

  /** Two byte pairs select the same register if and only if they differ at most in that bit. */
  lemma SameRegister(a0: byte, a1: byte, b0: byte, b1: byte)
    ensures Address(a0, a1) == Address(b0, b1) <==> a0 & 0x7F == b0 & 0x7F && a1 == b1
    ensures Address(a0, a1) < 0x8000
  {
    hide High, Low;
    SameHalves(a0, a1, b0, b1);
    var p, q, r, s := High(a0), Low(a1), High(b0), Low(b1);
    assert p * 256 + q == r * 256 + s <==> p == r && q == s;
  }

  lemma SameHalves(a0: byte, a1: byte, b0: byte, b1: byte)
    ensures (High(a0) == High(b0) <==> a0 & 0x7F == b0 & 0x7F) && (Low(a1) == Low(b1) <==> a1 == b1)
  {
  }

  function Lookup(r: Regs, hasMcu: bool, a: nat): Value {
    if hasMcu && a == STATUS_REG then (0, if r.status == [] then READY else r.status[0])
    else if a in r.mem then r.mem[a] else (0, 0)
  }

  function Put(r: Regs, a: nat, v: Value): Regs {
    r.(mem := r.mem[a := v], log := r.log + [(a, v)])
  }

  /** The answer while the byte at position |r.frame| of a frame comes in. */
  function Answer(r: Regs, hasMcu: bool): byte {
    if |r.frame| == 2 then Lookup(r, hasMcu, Address(r.frame[0], r.frame[1])).0
    else if |r.frame| == 3 then Lookup(r, hasMcu, Address(r.frame[0], r.frame[1])).1
    else 0
  }

  /** What deselection does: a complete write frame stores, a complete status read uses up one answer. */
  function Finish(r: Regs, hasMcu: bool): Regs {
    var g := r.(frame := []);
    if |r.frame| != 4 then g
    else
      var a := Address(r.frame[0], r.frame[1]);
      if r.frame[0] & 0x80 != 0 then Put(g, a, (r.frame[2], r.frame[3]))
      else if hasMcu && a == STATUS_REG && r.status != [] then g.(status := r.status[1..])
      else g
  }

  function Select(b: Board, slave: nat): Regs {
    if slave == 0 then b.lms else b.brd
  }

  function Update(b: Board, slave: nat, r: Regs): Board {
    if slave == 0 then b.(lms := r) else b.(brd := r)
  }

  function Exchanged(b: Board, slave: nat, out: byte): (Board, byte) {
    var r := Select(b, slave);
    (Update(b, slave, r.(frame := r.frame + [out])), Answer(r, slave == 0))
  }

  function Bus(): Slaves<Board> {
    Slaves((b: Board, slave: nat, out: byte) => Exchanged(b, slave, out),
           (b: Board, slave: nat) => Update(b, slave, Finish(Select(b, slave), slave == 0)))
  }

  lemma {:induction false} Collects(b: Board, slave: nat, out: seq<byte>)
    ensures var (g, answers) := Shift(Bus(), b, slave, true, out);
      && g == Update(b, slave, Select(b, slave).(frame := Select(b, slave).frame + out))
      && forall i :: 0 <= i < |out| ==>
           answers[i] == Answer(Select(b, slave).(frame := Select(b, slave).frame + out[..i]), slave == 0)
    decreases |out|
  {
    hide Answer;
    var r := Select(b, slave);
    if out == [] {
      assert r.frame + out == r.frame;
    } else {
      var init, last := out[..|out| - 1], out[|out| - 1];
      Collects(b, slave, init);
      CollectsOne(Update(b, slave, r.(frame := r.frame + init)), slave, last);
      assert r.frame + out == (r.frame + init) + [last];
      assert forall i :: 0 <= i < |init| ==> out[..i] == init[..i];
    }
  }

  lemma CollectsOne(b: Board, slave: nat, out: byte)
    ensures Exchange(Bus(), b, slave, true, out)
            == (Update(b, slave, Select(b, slave).(frame := Select(b, slave).frame + [out])),
                Answer(Select(b, slave), slave == 0))
  {
  }

  /** A four-byte write command. */
  lemma Writes(b: Board, slave: nat, out: seq<byte>)
    requires Select(b, slave).frame == [] && |out| == 4 && out[0] & 0x80 != 0
    ensures Transfer(Bus(), b, slave, true, false, out, 0)
            == (Update(b, slave, Put(Select(b, slave), Address(out[0], out[1]), (out[2], out[3]))), [])
  {
    assert out + Zeros(0) == out && Select(b, slave).frame + out == out;
    Collects(b, slave, out);
  }

  /** A two-byte read command and its two answers. */
  lemma Reads(b: Board, slave: nat, a0: byte, a1: byte)
    requires Select(b, slave).frame == [] && a0 & 0x80 == 0
    ensures var (g, answer) := Transfer(Bus(), b, slave, true, false, [a0, a1], 2);
      var v := Lookup(Select(b, slave), slave == 0, Address(a0, a1));
      answer == [v.0, v.1] && g == Update(b, slave, AfterRead(Select(b, slave), slave == 0, Address(a0, a1)))
  {
    hide High, Low;
    var out, r := [a0, a1, 0, 0], Select(b, slave);
    assert [a0, a1] + Zeros(2) == out;
    var answers := ReadsFrame(b, slave, a0, a1);
    AnswersRead(r, slave == 0, a0, a1);
    hide Address, Lookup, Answer, AfterRead, Finish, Shift;
    assert answers[|[a0, a1]|..] == [answers[2], answers[3]];
  }

  lemma ReadsFrame(b: Board, slave: nat, a0: byte, a1: byte) returns (answers: seq<byte>)
    requires Select(b, slave).frame == []
    ensures Shift(Bus(), b, slave, true, [a0, a1, 0, 0])
        == (Update(b, slave, Select(b, slave).(frame := [a0, a1, 0, 0])), answers)
    ensures |answers| == 4
    ensures answers[2] == Answer(Select(b, slave).(frame := [a0, a1]), slave == 0)
    ensures answers[3] == Answer(Select(b, slave).(frame := [a0, a1, 0]), slave == 0)
  {
    hide Answer;
    var out, r := [a0, a1, 0, 0], Select(b, slave);
    Collects(b, slave, out);
    answers := Shift(Bus(), b, slave, true, out).1;
    assert r.frame + out == out && r.frame + out[..2] == [a0, a1] && r.frame + out[..3] == [a0, a1, 0];
  }

  lemma AnswersRead(r: Regs, hasMcu: bool, a0: byte, a1: byte)
    requires r.frame == [] && a0 & 0x80 == 0
    ensures Answer(r.(frame := [a0, a1]), hasMcu) == Lookup(r, hasMcu, Address(a0, a1)).0
    ensures Answer(r.(frame := [a0, a1, 0]), hasMcu) == Lookup(r, hasMcu, Address(a0, a1)).1
    ensures Finish(r.(frame := [a0, a1, 0, 0]), hasMcu) == AfterRead(r, hasMcu, Address(a0, a1))
  {
    hide High, Low;
  }

  function AfterRead(r: Regs, hasMcu: bool, a: nat): Regs {
    if hasMcu && a == STATUS_REG && r.status != [] then r.(status := r.status[1..]) else r
  }

  /** The bytes written to the MCU FIFO register. */
  function Fifo(log: seq<(nat, Value)>): seq<byte> {
    if log == [] then []
    else Fifo(log[..|log| - 1]) + if log[|log| - 1].0 == FIFO_REG then [log[|log| - 1].1.1] else []
  }
}
