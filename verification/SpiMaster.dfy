/** The SPI master driver: altera_avalon_spi.c, on a controller whose timing is arbitrary but fair. */
module SpiMaster {
  import opened Words
  import opened SpiBus

  datatype Status = Status(trdy: bool, rrdy: bool, tmt: bool)

  /** The variables of the main loop of alt_avalon_spi_command. */
  datatype Cursor = Cursor(wp: nat, rp: nat, writeZeros: nat, readIgnore: nat, credits: int)

  /** One call: the state and the buffers at entry, and the bytes that must go out. */
  datatype Job<S> = Job(s0: S, out: seq<byte>, src0: seq<byte>, d0: seq<byte>, w: nat, writeLength: nat, r: nat,
      readLength: nat) {
    predicate Valid() {
      && w + writeLength <= |src0| && r + readLength <= |d0|
      && out == src0[w..w + writeLength] + Zeros(readLength)
    }

    function Sent(c: Cursor): int {
      c.wp - w + readLength - c.writeZeros
    }

    function Received(c: Cursor): int {
      writeLength - c.readIgnore + c.rp - r
    }

    /** Zeros follow the data, stored answers follow the ignored ones, and one credit bounds what is outstanding. */
    predicate At(c: Cursor) {
      && w <= c.wp <= w + writeLength && c.writeZeros <= readLength
          && (c.wp < w + writeLength ==> c.writeZeros == readLength)
      && c.readIgnore <= writeLength && r <= c.rp && (c.readIgnore > 0 ==> c.rp == r)
      && 0 <= Received(c) <= Sent(c) <= |out| && c.credits == 1 - (Sent(c) - Received(c))
    }
  }

  class Controller<S> {
    const slaves: Slaves<S>
    var state: S
    /** The registers of the controller, and the byte being shifted. */
    var selected: nat
    var sso: bool
    var txData: Option<byte>
    var shifting: Option<byte>
    var rxData: Option<byte>
    /** A byte was received before the previous one was read, or written before the previous one left. */
    var overrun: bool

    constructor (slaves: Slaves<S>, state: S)
      ensures this.slaves == slaves && this.state == state && Idle() && !sso && !overrun
    {
      this.slaves, this.state := slaves, state;
      selected, sso, txData, shifting, rxData, overrun := 0, false, None, None, None, false;
    }

    /** Nothing in transit; a stale byte may be left in RXDATA. */
    predicate Idle()
      reads this`txData, this`shifting
    {
      txData.None? && shifting.None?
    }

    function ReadStatus(): Status
      reads this`txData, this`shifting, this`rxData
    {
      Status(txData.None?, rxData.Some?, txData.None? && shifting.None?)
    }

    method WriteTxData(b: byte)
      modifies this`txData, this`overrun
      ensures txData == Some(b) && overrun == (old(overrun) || old(txData).Some?)
    {
      overrun := overrun || txData.Some?;
      txData := Some(b);
    }

    /** One step of the shift register. */
    method Beat()
      modifies this`state, this`txData, this`shifting, this`rxData, this`overrun
      ensures match old(shifting)
              case Some(b) =>
                var (s, r) := Exchange(slaves, old(state), selected, sso, b);
                && state == s && rxData == Some(r) && shifting == None && txData == old(txData)
                && overrun == (old(overrun) || old(rxData).Some?)
              case None =>
                && state == old(state) && rxData == old(rxData) && overrun == old(overrun)
                && shifting == old(txData) && txData == None
    {
      match shifting {
        case Some(b) =>
          var (s, r) := Exchange(slaves, state, selected, sso, b);
          overrun := overrun || rxData.Some?;
          state, rxData, shifting := s, Some(r), None;
        case None =>
          shifting, txData := txData, None;
      }
    }

    /**
     The main loop of alt_avalon_spi_command with both lengths zero, for any number of polls: the first one finds
     nothing to send and sets credits to -1024, nothing is ever written to TXDATA, and the end of the loop,
     which is under RRDY, is never reached.
     */
    method EmptyCall(polls: nat) returns (done: bool, credits: int)
      requires Idle() && rxData.None?
      modifies this`state, this`txData, this`shifting, this`rxData, this`overrun
      ensures !done && Idle() && rxData.None? && state == old(state)
      ensures credits == if polls == 0 then 1 else -1024
    {
      done, credits := false, 1;
      for i := 0 to polls
        invariant Idle() && rxData.None? && state == old(state)
        invariant !done && credits == if i == 0 then 1 else -1024
      {
        Beat();
        var status := ReadStatus();
        if status.trdy && credits > 0 {
          credits := -1024;
        }
        if status.rrdy {
          credits := credits + 1;
          done := true;
        }
      }
    }

    /** SLAVE_SEL := 1 << slave. A select line that was being forced is released. */
    method Select(slave: nat)
      modifies this`selected, this`state
      ensures selected == slave
      ensures state == if sso && old(selected) != slave then slaves.release(old(state), old(selected)) else old(state)
    {
      if sso && selected != slave {
        state := slaves.release(state, selected);
      }
      selected := slave;
    }

    /**
     In the middle of a call: of the bytes `out`, `sent` have been written to TXDATA and `received` answers
     have been read. At most one byte is in transit, in exactly one of the three registers.
     */
    ghost predicate InTransit(s0: S, out: seq<byte>, sent: nat, received: nat)
      reads this`state, this`selected, this`sso, this`txData, this`shifting, this`rxData, this`overrun
    {
      && !overrun && sent <= |out| && received <= sent <= received + 1
      && if sent == received then
           txData.None? && shifting.None? && rxData.None? && state == Shift(slaves, s0, selected, sso, out[..sent]).0
         else if rxData.None? then
           && state == Shift(slaves, s0, selected, sso, out[..received]).0
           && ((txData == Some(out[received]) && shifting.None?) || (shifting == Some(out[received]) && txData.None?))
         else
           && txData.None? && shifting.None? && state == Shift(slaves, s0, selected, sso, out[..sent]).0
           && rxData.value == Shift(slaves, s0, selected, sso, out[..sent]).1[received]
    }

    /** How many beats the byte in transit is from being received. */
    function Distance(): nat
      reads this`txData, this`shifting
    {
      if txData.Some? then 2 else if shifting.Some? then 1 else 0
    }

    method BeatInTransit(ghost s0: S, ghost out: seq<byte>, ghost sent: nat, ghost received: nat)
      requires InTransit(s0, out, sent, received)
      modifies this`state, this`txData, this`shifting, this`rxData, this`overrun
      ensures InTransit(s0, out, sent, received)
      ensures Distance() == if old(Distance()) == 0 then 0 else old(Distance()) - 1
    {
      assert sent == received + 1 ==> out[..sent][..|out[..sent]| - 1] == out[..received];
      Beat();
    }

    /**
     The polling loop. Between two polls the hardware may do anything, but it does not rest for ever:
     `rest` bounds, afresh after every beat, how many polls pass before the next one.
     */
    method AwaitWork(credits: int, ghost s0: S, ghost out: seq<byte>, ghost sent: nat, ghost received: nat)
      returns (status: Status)
      requires InTransit(s0, out, sent, received) && credits == 1 - (sent - received)
      modifies this`state, this`txData, this`shifting, this`rxData, this`overrun
      ensures InTransit(s0, out, sent, received) && status == ReadStatus()
      ensures (status.trdy && credits != 0) || status.rrdy
    {
      var rest: int := *;
      status := ReadStatus();
      while (!status.trdy || credits == 0) && !status.rrdy
        invariant InTransit(s0, out, sent, received) && status == ReadStatus()
        decreases Distance(), rest
      {
        if rest <= 0 {
          BeatInTransit(s0, out, sent, received);
          rest := *;
        } else {
          rest := rest - 1;
        }
        status := ReadStatus();
      }
    }

    /**
     alt_avalon_spi_command. The bytes to send start at src[w] and the bytes read go to dst[r]; the two
     arrays may be the same one, with overlapping ranges, as they are for some callers.
     */
    method Command(slave: nat, src: array<byte>, w: nat, writeLength: nat, dst: array<byte>, r: nat, readLength: nat,
        toggle: bool, merge: bool) returns (n: nat)
      requires Idle() && !overrun
      requires writeLength + readLength > 0
      requires w + writeLength <= src.Length && r + readLength <= dst.Length
      modifies this, dst
      ensures Idle() && rxData.None? && !overrun && selected == slave && n == readLength
      ensures var held := !toggle || old(sso);
        var (s, answer) := Transfer(slaves, Enter(slaves, old(state), old(sso), old(selected), slave), slave,
            held, merge,
                                    old(src[w..w + writeLength]), readLength);
        && sso == (held && merge) && state == s
        && dst[..] == Overwrite(old(dst[..]), r, answer)
    {
      hide Shift;
      Select(slave);
      if !toggle {
        sso := true;
      }
      rxData := None;
      ghost var s0 := state;
      Exchanges(s0, src, w, writeLength, dst, r, readLength);
      var status := ReadStatus();
      assert status.tmt;
      if !merge {
        if sso {
          state := slaves.release(state, slave);
        }
        sso := false;
      }
      n := readLength;
    }

    method Send(b: byte, ghost s0: S, ghost out: seq<byte>, ghost sent: nat)
      requires InTransit(s0, out, sent, sent) && sent < |out| && b == out[sent]
      modifies this`txData, this`overrun
      ensures InTransit(s0, out, sent + 1, sent)
    {
      WriteTxData(b);
    }

    method Receive(ghost s0: S, ghost out: seq<byte>, ghost sent: nat, ghost received: nat) returns (b: byte)
      requires InTransit(s0, out, sent, received) && rxData.Some?
      modifies this`rxData
      ensures sent == received + 1 && InTransit(s0, out, sent, sent)
      ensures b == Shift(slaves, s0, selected, sso, out[..sent]).1[received]
    {
      b := rxData.value;
      rxData := None;
    }

    /** The next byte of the data, else a zero. The third branch of the source, credits = -1024, is unreachable. */
    method SendNext(src: array<byte>, wp: nat, end: nat, writeZeros: nat, ghost s0: S, ghost out: seq<byte>,
        ghost sent: nat)
      returns (wp': nat, zeros: nat)
      requires InTransit(s0, out, sent, sent) && sent < |out| && end <= src.Length
      requires if wp < end then out[sent] == src[wp] else writeZeros > 0 && out[sent] == 0
      modifies this`txData, this`overrun
      ensures InTransit(s0, out, sent + 1, sent)
      ensures (wp', zeros) == if wp < end then (wp + 1, writeZeros) else (wp, writeZeros - 1)
    {
      wp', zeros := wp, writeZeros;
      if wp < end {
        Send(src[wp], s0, out, sent);
        wp' := wp + 1;
      } else if writeZeros > 0 {
        zeros := writeZeros - 1;
        Send(0, s0, out, sent);
      } else {
        assert false;
      }
    }

    method Keep(b: byte, dst: array<byte>, rp: nat, readIgnore: nat) returns (rp': nat, ignore: nat)
      requires readIgnore == 0 ==> rp < dst.Length
      modifies dst
      ensures dst[..] == if readIgnore > 0 then old(dst[..]) else old(dst[..])[rp := b]
      ensures (rp', ignore) == if readIgnore > 0 then (rp, readIgnore - 1) else (rp + 1, 0)
    {
      rp', ignore := rp, readIgnore;
      if readIgnore > 0 {
        ignore := readIgnore - 1;
      } else {
        dst[rp] := b;
        rp' := rp + 1;
      }
    }

    /** The state of the main loop at `c`: what is in transit, and what the buffers hold. */
    ghost predicate Working(job: Job<S>, c: Cursor, src: array<byte>, dst: array<byte>)
      reads this`state, this`selected, this`sso, this`txData, this`shifting, this`rxData, this`overrun, src, dst
    {
      && job.Valid() && job.At(c) && |job.src0| == src.Length && |job.d0| == dst.Length
      && InTransit(job.s0, job.out, job.Sent(c), job.Received(c))
      && (job.Received(c) <= job.writeLength ==> src[..] == job.src0)
      && dst[..] == Overwrite(job.d0, job.r,
          Answers(slaves, job.s0, selected, sso, job.out[..job.Received(c)], job.writeLength))
    }

    /** The transmit half of one pass of the loop. */
    method SendHalf(ghost job: Job<S>, c: Cursor, end: nat, src: array<byte>, dst: array<byte>) returns (c': Cursor)
      requires Working(job, c, src, dst) && end == job.w + job.writeLength && c.credits > 0
          && job.Received(c) < |job.out|
      modifies this`txData, this`overrun
      ensures Working(job, c', src, dst) && c'.credits == 0 && job.Received(c') == job.Received(c)
    {
      hide InTransit, Overwrite, Answers;
      ghost var sent := job.Sent(c);
      assert c.wp < end ==> src[..][c.wp] == job.out[sent];
      var wp, zeros := SendNext(src, c.wp, end, c.writeZeros, job.s0, job.out, sent);
      c' := Cursor(wp, c.rp, zeros, c.readIgnore, c.credits - 1);
    }

    /** The receive half. */
    method ReceiveHalf(ghost job: Job<S>, c: Cursor, src: array<byte>, dst: array<byte>) returns (c': Cursor)
      requires Working(job, c, src, dst) && rxData.Some?
      modifies this`rxData, dst
      ensures Working(job, c', src, dst) && job.Received(c') == job.Received(c) + 1
    {
      hide InTransit, Overwrite, Answers;
      ghost var n := job.Received(c);
      Registers(job.s0, job.out, job.Sent(c), n);
      var b := Receive(job.s0, job.out, job.Sent(c), n);
      StoreAnswer(job.d0, job.r, slaves, job.s0, selected, sso, job.out, job.writeLength, n);
      var rp, ignore := Keep(b, dst, c.rp, c.readIgnore);
      c' := Cursor(c.wp, rp, c.writeZeros, ignore, c.credits + 1);
    }

    /** One pass of the main loop. */
    method Turn(ghost job: Job<S>, c: Cursor, end: nat, last: nat, src: array<byte>, dst: array<byte>)
        returns (c': Cursor, done: bool)
      requires Working(job, c, src, dst) && job.Received(c) < |job.out|
      requires end == job.w + job.writeLength && last == job.r + job.readLength
      modifies this`state, this`txData, this`shifting, this`rxData, this`overrun, dst
      ensures Working(job, c', src, dst)
      ensures done <==> job.Received(c') == |job.out|
      ensures job.Received(c') > job.Received(c) || (job.Received(c') == job.Received(c) && c'.credits < c.credits)
    {
      hide InTransit, Overwrite, Answers;
      done := false;
      var status := AwaitWork(c.credits, job.s0, job.out, job.Sent(c), job.Received(c));
      Registers(job.s0, job.out, job.Sent(c), job.Received(c));
      c' := c;
      if status.trdy && c.credits > 0 {
        c' := SendHalf(job, c, end, src, dst);
      }
      if status.rrdy {
        c' := ReceiveHalf(job, c', src, dst);
        done := c'.readIgnore == 0 && c'.rp == last;
      }
    }

    /** The main loop: one credit, so a byte goes out only when the answer to the last one is in. */
    method Exchanges(ghost s0: S, src: array<byte>, w: nat, writeLength: nat, dst: array<byte>, r: nat, readLength: nat)
      requires Idle() && rxData.None? && !overrun && state == s0
      requires writeLength + readLength > 0
      requires w + writeLength <= src.Length && r + readLength <= dst.Length
      modifies this`state, this`txData, this`shifting, this`rxData, this`overrun, dst
      ensures Idle() && rxData.None? && !overrun
      ensures var out := old(src[w..w + writeLength]) + Zeros(readLength);
        && state == Shift(slaves, s0, selected, sso, out).0
        && dst[..] == Overwrite(old(dst[..]), r, Answers(slaves, s0, selected, sso, out, writeLength))
    {
      ghost var out := src[w..w + writeLength] + Zeros(readLength);
      ghost var job := Job(s0, out, src[..], dst[..], w, writeLength, r, readLength);
      var c := Cursor(w, r, readLength, writeLength, 1);
      var done := false;
      StartWorking(job, c, src, dst);
      hide Shift, Working;
      while !done
        invariant Working(job, c, src, dst)
        invariant done <==> job.Received(c) == |out|
        decreases |out| - job.Received(c), c.credits
      {
        WorkingAt(job, c, src, dst);
        c, done := Turn(job, c, w + writeLength, r + readLength, src, dst);
        WorkingAt(job, c, src, dst);
      }
      FinishWorking(job, c, src, dst);
    }

    lemma StartWorking(job: Job<S>, c: Cursor, src: array<byte>, dst: array<byte>)
      requires Idle() && rxData.None? && !overrun && state == job.s0
      requires job.Valid() && src[..] == job.src0 && dst[..] == job.d0
      requires c == Cursor(job.w, job.r, job.readLength, job.writeLength, 1)
      ensures Working(job, c, src, dst)
    {
      assert Overwrite(job.d0, job.r, []) == job.d0;
    }

    lemma WorkingAt(job: Job<S>, c: Cursor, src: array<byte>, dst: array<byte>)
      requires Working(job, c, src, dst)
      ensures job.At(c)
    {
    }

    lemma FinishWorking(job: Job<S>, c: Cursor, src: array<byte>, dst: array<byte>)
      requires Working(job, c, src, dst) && job.Received(c) == |job.out|
      ensures Idle() && rxData.None? && !overrun && state == Shift(slaves, job.s0, selected, sso, job.out).0
      ensures dst[..] == Overwrite(job.d0, job.r, Answers(slaves, job.s0, selected, sso, job.out, job.writeLength))
    {
      assert job.out[..|job.out|] == job.out;
    }

    /** What the credit count says about the registers. */
    lemma Registers(s0: S, out: seq<byte>, sent: nat, received: nat)
      requires InTransit(s0, out, sent, received)
      ensures received <= sent <= received + 1 && sent <= |out|
      ensures rxData.Some? ==> sent == received + 1
      ensures sent == received ==> txData.None? && rxData.None?
    {
    }
  }

  /** The state of the slaves once the select register has been written. */
  function Enter<S>(c: Slaves<S>, s: S, sso: bool, selected: nat, slave: nat): S {
    if sso && selected != slave then c.release(s, selected) else s
  }

  function Overwrite(d: seq<byte>, r: nat, bs: seq<byte>): seq<byte>
    requires r + |bs| <= |d|
  {
    d[..r] + bs + d[r + |bs|..]
  }

  /** The answers that are kept: those after the first `skip`. */
  function Answers<S>(c: Slaves<S>, s: S, slave: nat, held: bool, out: seq<byte>, skip: nat): (a: seq<byte>)
    ensures |a| == if |out| <= skip then 0 else |out| - skip
  {
    if |out| <= skip then [] else Shift(c, s, slave, held, out).1[skip..]
  }

  /** Receiving one more answer stores it at the next place, or drops it. */
  lemma StoreAnswer<S>(d: seq<byte>, r: nat, c: Slaves<S>, s: S, slave: nat, held: bool, out: seq<byte>,
      skip: nat, n: nat)
    requires n < |out| && skip <= |out| && r + (|out| - skip) <= |d|
    ensures var b := Shift(c, s, slave, held, out[..n + 1]).1[n];
      Overwrite(d, r, Answers(c, s, slave, held, out[..n + 1], skip))
      == if n < skip then Overwrite(d, r, Answers(c, s, slave, held, out[..n], skip))
         else Overwrite(d, r, Answers(c, s, slave, held, out[..n], skip))[r + (n - skip) := b]
  {
    if skip <= n {
      assert out[..n + 1][..n] == out[..n];
      ShiftPrefix(c, s, slave, held, out[..n + 1], n);
    }
  }
}
