/** A full-duplex serial bus as its slaves see it. */
module SpiBus {
  import opened Words

  /**
   The slaves of one bus, with joint state S: how the selected one answers a byte, and what it does when its
   select line is released.
   */
  datatype Slaves<!S> = Slaves(exchange: (S, nat, byte) -> (S, byte), release: (S, nat) -> S)

  /** One byte each way. Without the forced chip select the select line is released after every byte. */
  function Exchange<S>(c: Slaves<S>, s: S, slave: nat, held: bool, out: byte): (S, byte) {
    var (s1, b) := c.exchange(s, slave, out);
    (if held then s1 else c.release(s1, slave), b)
  }

  /** The state after a run of bytes, and the answers to them. */
  function Shift<S>(c: Slaves<S>, s: S, slave: nat, held: bool, out: seq<byte>): (r: (S, seq<byte>))
    ensures |r.1| == |out|
  {
    if out == [] then (s, [])
    else
      var (s1, bs) := Shift(c, s, slave, held, out[..|out| - 1]);
      var (s2, b) := Exchange(c, s1, slave, held, out[|out| - 1]);
      (s2, bs + [b])
  }

  function Zeros(n: nat): (z: seq<byte>)
    ensures |z| == n
  {
    seq(n, _ => 0)
  }

  /**
   What one call of alt_avalon_spi_command does to the slaves, and the bytes it reads: `data` goes out,
   then one zero for every byte to be read, and the answers to `data` are dropped.
   */
  function Transfer<S>(c: Slaves<S>, s: S, slave: nat, held: bool, merge: bool, data: seq<byte>,
      readLength: nat)
    : (r: (S, seq<byte>))
    ensures |r.1| == readLength
  {
    var (s1, bs) := Shift(c, s, slave, held, data + Zeros(readLength));
    (if held && !merge then c.release(s1, slave) else s1, bs[|data|..])
  }

  /** One more byte. */
  lemma ShiftLast<S>(c: Slaves<S>, s: S, slave: nat, held: bool, xs: seq<byte>, b: byte)
    ensures var (s1, bs) := Shift(c, s, slave, held, xs);
      var (s2, r) := Exchange(c, s1, slave, held, b);
      Shift(c, s, slave, held, xs + [b]) == (s2, bs + [r])
  {
    assert (xs + [b])[..|xs|] == xs && (xs + [b])[|xs|] == b;
  }

  lemma {:induction false} ShiftPrefix<S>(c: Slaves<S>, s: S, slave: nat, held: bool, out: seq<byte>, n: nat)
    requires n <= |out|
    ensures Shift(c, s, slave, held, out[..n]).1 == Shift(c, s, slave, held, out).1[..n]
    decreases |out|
  {
    if n == |out| {
      assert out[..n] == out;
    } else {
      assert out[..|out| - 1][..n] == out[..n];
      ShiftPrefix(c, s, slave, held, out[..|out| - 1], n);
    }
  }

  lemma {:induction false} ShiftAppend<S>(c: Slaves<S>, s: S, slave: nat, held: bool, xs: seq<byte>, ys: seq<byte>)
    ensures var (s1, bs1) := Shift(c, s, slave, held, xs);
      var (s2, bs2) := Shift(c, s1, slave, held, ys);
      Shift(c, s, slave, held, xs + ys) == (s2, bs1 + bs2)
  {
    if ys == [] {
      var r := Shift(c, s, slave, held, xs);
      assert xs + ys == xs && Shift(c, r.0, slave, held, ys) == (r.0, []) && r.1 + [] == r.1;
    } else {
      var init := ys[..|ys| - 1];
      ShiftAppend(c, s, slave, held, xs, init);
      assert (xs + ys)[..|xs + ys| - 1] == xs + init && (xs + ys)[|xs + ys| - 1] == ys[|ys| - 1];
      var (s1, bs1) := Shift(c, s, slave, held, xs);
      var (s2, bs2) := Shift(c, s1, slave, held, init);
      var (s3, b) := Exchange(c, s2, slave, held, ys[|ys| - 1]);
      assert bs1 + (bs2 + [b]) == bs1 + bs2 + [b];
    }
  }

  /** A call that keeps the slave selected, followed by another one, exchanges what a single call would. */
  lemma MergedTransfers<S>(c: Slaves<S>, s: S, slave: nat, xs: seq<byte>, ys: seq<byte>, n: nat)
    ensures Transfer(c, Transfer(c, s, slave, true, true, xs, 0).0, slave, true, false, ys, n)
            == Transfer(c, s, slave, true, false, xs + ys, n)
  {
    var tail := ys + Zeros(n);
    ShiftAppend(c, s, slave, true, xs, tail);
    assert xs + Zeros(0) == xs && xs + ys + Zeros(n) == xs + tail;
    var (s1, bs1) := Shift(c, s, slave, true, xs);
    var (s2, bs2) := Shift(c, s1, slave, true, tail);
    assert (bs1 + bs2)[|xs + ys|..] == bs2[|ys|..];
  }

  // ---------------------------------------------------------------------------------------------
  // A transfer as a recorder on the bus sees it.
  // ---------------------------------------------------------------------------------------------

  datatype Event = Sent(slave: nat, out: byte) | Deselected(slave: nat)

  /** Slaves that keep all that ever happened, and answer whatever they like to it. */
  function Recorder(answer: seq<Event> -> byte): Slaves<seq<Event>> {
    Slaves((h: seq<Event>, slave, out) => (h + [Sent(slave, out)], answer(h + [Sent(slave, out)])),
           (h: seq<Event>, slave) => h + [Deselected(slave)])
  }

  /** Every byte of `out` is sent in its turn, and each answer is the one to what has happened up to then. */
  lemma {:induction false} HeldRecorded(answer: seq<Event> -> byte, h: seq<Event>, slave: nat, out: seq<byte>)
    ensures var (g, bs) := Shift(Recorder(answer), h, slave, true, out);
      && |g| == |h| + |out| && h <= g
      && forall i :: 0 <= i < |out| ==> g[|h| + i] == Sent(slave, out[i]) && bs[i] == answer(g[..|h| + i + 1])
  {
    if out != [] {
      var n := |out| - 1;
      HeldRecorded(answer, h, slave, out[..n]);
      var (g0, bs0) := Shift(Recorder(answer), h, slave, true, out[..n]);
      var (g, bs) := Shift(Recorder(answer), h, slave, true, out);
      assert g == g0 + [Sent(slave, out[n])] == g[..|h| + n + 1];
      forall i | 0 <= i < n
        ensures g[|h| + i] == Sent(slave, out[i]) && bs[i] == answer(g[..|h| + i + 1])
      {
        assert g[..|h| + i + 1] == g0[..|h| + i + 1] && bs[i] == bs0[i] && g[|h| + i] == g0[|h| + i];
      }
    }
  }

  lemma {:induction false} LooseRecorded(answer: seq<Event> -> byte, h: seq<Event>, slave: nat, out: seq<byte>)
    ensures var (g, bs) := Shift(Recorder(answer), h, slave, false, out);
      && |g| == |h| + 2 * |out| && h <= g
      && forall i :: 0 <= i < |out| ==>
           && g[|h| + 2 * i] == Sent(slave, out[i]) && g[|h| + 2 * i + 1] == Deselected(slave)
           && bs[i] == answer(g[..|h| + 2 * i + 1])
  {
    if out != [] {
      var n := |out| - 1;
      LooseRecorded(answer, h, slave, out[..n]);
      var (g0, bs0) := Shift(Recorder(answer), h, slave, false, out[..n]);
      var (g, bs) := Shift(Recorder(answer), h, slave, false, out);
      assert g == g0 + [Sent(slave, out[n])] + [Deselected(slave)];
      assert g[..|h| + 2 * n + 1] == g0 + [Sent(slave, out[n])];
      forall i | 0 <= i < n
        ensures g[|h| + 2 * i] == Sent(slave, out[i]) && g[|h| + 2 * i + 1] == Deselected(slave)
        ensures bs[i] == answer(g[..|h| + 2 * i + 1])
      {
        assert g[..|h| + 2 * i + 1] == g0[..|h| + 2 * i + 1] && bs[i] == bs0[i];
        assert g[|h| + 2 * i] == g0[|h| + 2 * i] && g[|h| + 2 * i + 1] == g0[|h| + 2 * i + 1];
      }
    }
  }

  /**
   With the chip select held, a call is one frame: the data, a zero for each byte to be read, and at its end a
   single release unless the next call is to be merged. The bytes read are the answers to the zeros.
   */
  lemma HeldTransfer(answer: seq<Event> -> byte, h: seq<Event>, slave: nat, merge: bool, data: seq<byte>, n: nat)
    ensures var (g, read) := Transfer(Recorder(answer), h, slave, true, merge, data, n);
      && |g| == |h| + |data| + n + (if merge then 0 else 1) && h <= g
      && (forall i :: 0 <= i < |data| + n ==> g[|h| + i] == Sent(slave, if i < |data| then data[i] else 0))
      && (forall i :: 0 <= i < n ==> read[i] == answer(g[..|h| + |data| + i + 1]))
      && (!merge ==> g[|g| - 1] == Deselected(slave))
  {
    var out := data + Zeros(n);
    HeldRecorded(answer, h, slave, out);
    var (g, bs) := Shift(Recorder(answer), h, slave, true, out);
    var (t, read) := Transfer(Recorder(answer), h, slave, true, merge, data, n);
    assert t[..|g|] == g && read == bs[|data|..];
    forall i | 0 <= i < |data| + n
      ensures t[|h| + i] == Sent(slave, if i < |data| then data[i] else 0)
    {
      assert t[|h| + i] == g[|h| + i] == Sent(slave, out[i]);
    }
    forall i | 0 <= i < n
      ensures read[i] == answer(t[..|h| + |data| + i + 1])
    {
      var k := |data| + i;
      assert t[..|h| + k + 1] == g[..|h| + k + 1] && read[i] == bs[k];
    }
  }

  /** Without it, every byte is a frame of its own, whatever the merge flag says. */
  lemma LooseTransfer(answer: seq<Event> -> byte, h: seq<Event>, slave: nat, merge: bool, data: seq<byte>, n: nat)
    ensures var (g, read) := Transfer(Recorder(answer), h, slave, false, merge, data, n);
      && |g| == |h| + 2 * (|data| + n) && h <= g
      && (forall i :: 0 <= i < |data| + n ==>
            && g[|h| + 2 * i] == Sent(slave, if i < |data| then data[i] else 0)
            && g[|h| + 2 * i + 1] == Deselected(slave))
      && (forall i :: 0 <= i < n ==> read[i] == answer(g[..|h| + 2 * (|data| + i) + 1]))
  {
    var out := data + Zeros(n);
    LooseRecorded(answer, h, slave, out);
    var (g, bs) := Shift(Recorder(answer), h, slave, false, out);
    forall i | 0 <= i < |data| + n
      ensures g[|h| + 2 * i] == Sent(slave, if i < |data| then data[i] else 0)
      ensures g[|h| + 2 * i + 1] == Deselected(slave)
    {
      assert g[|h| + 2 * i] == Sent(slave, out[i]);
    }
    forall i | 0 <= i < n
      ensures bs[|data|..][i] == answer(g[..|h| + 2 * (|data| + i) + 1])
    {
      assert bs[|data|..][i] == bs[|data| + i];
    }
  }
}
