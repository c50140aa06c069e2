/** The 64-slot circular buffers of the UART driver (altera_avalon_uart.h). */
module Ring {
  import opened Words

  /** n & ALT_AVALON_UART_BUF_MSK: the index of a counter that never wraps. */
  function Masked(n: nat): nat {
    n % 64
  }

  /** The index after `i`. One slot stays free, so that equal indices mean an empty ring. */
  function After(i: nat): nat {
    if i < 63 then i + 1 else 0
  }

  /** The slot `i` places after `start`. */
  function Slot(start: nat, i: nat): int {
    if start + i < 64 then start + i else start + i - 64
  }

  /** How many slots lie between two indices. */
  function Distance(start: nat, end: nat): int {
    if start <= end then end - start else end - start + 64
  }

  /** The driver computes the index after i as (i + 1) & ALT_AVALON_UART_BUF_MSK. */
  lemma AfterIsMasked(i: nat)
    requires i < 64
    ensures After(i) == Masked(i + 1)
  {
  }

  /** Counting on, and masking, comes to the same as stepping on. */
  lemma MaskedStep(n: nat, i: nat)
    requires i < 64
    ensures 0 <= Masked(n) < 64 && Masked(n + i) == Slot(Masked(n), i)
    ensures After(Masked(n)) == Masked(n + 1)
  {
    var q, r := n / 64, n % 64;
    assert n == 64 * q + r;
    Reduce(q, r);
    Reduce(q, r + i);
    Reduce(q, r + 1);
  }

  lemma Reduce(q: nat, x: nat)
    requires x < 128
    ensures (64 * q + x) % 64 == if x < 64 then x else x - 64
  {
  }

  /** What a reader of the ring sees between the two indices. */
  function Contents(buf: seq<byte>, start: nat, end: nat): seq<byte>
    requires |buf| == 64 && start < 64 && end < 64
    decreases Distance(start, end)
  {
    if start == end then [] else [buf[start]] + Contents(buf, After(start), end)
  }

  /** The ring holds the queue `q`. */
  ghost predicate Holds(buf: seq<byte>, start: nat, end: nat, q: seq<byte>) {
    && |buf| == 64 && start < 64 && |q| < 64
    && end == Slot(start, |q|)
    && forall i :: 0 <= i < |q| ==> buf[Slot(start, i)] == q[i]
  }

  lemma {:induction false} HoldsContents(buf: seq<byte>, start: nat, end: nat, q: seq<byte>)
    requires Holds(buf, start, end, q)
    ensures Contents(buf, start, end) == q
    decreases |q|
  {
    if q != [] {
      Dequeue(buf, start, end, q);
      HoldsContents(buf, After(start), end, q[1..]);
    }
  }

  /** The queue is determined by the buffer and the two indices. */
  lemma {:induction false} ContentsHold(buf: seq<byte>, start: nat, end: nat)
    requires |buf| == 64 && start < 64 && end < 64
    ensures Holds(buf, start, end, Contents(buf, start, end))
    ensures |Contents(buf, start, end)| == Distance(start, end)
    decreases Distance(start, end)
  {
    if start != end {
      ContentsHold(buf, After(start), end);
      Prepend(buf, start, end, Contents(buf, After(start), end));
    }
  }

  lemma Prepend(buf: seq<byte>, start: nat, end: nat, q: seq<byte>)
    requires Holds(buf, After(start), end, q) && start < 64 && |q| < 63
    ensures Holds(buf, start, end, [buf[start]] + q)
  {
    forall i | 0 < i <= |q|
      ensures Slot(start, i) == Slot(After(start), i - 1)
    {
    }
  }

  lemma Dequeue(buf: seq<byte>, start: nat, end: nat, q: seq<byte>)
    requires Holds(buf, start, end, q) && q != []
    ensures start != end && buf[start] == q[0] && Holds(buf, After(start), end, q[1..])
  {
    assert Slot(start, 0) == start;
    forall i | 0 <= i < |q|
      ensures Slot(After(start), i) == Slot(start, i + 1)
    {
    }
  }

  lemma Enqueue(buf: seq<byte>, start: nat, end: nat, q: seq<byte>, b: byte)
    requires Holds(buf, start, end, q) && |q| < 63
    ensures After(end) != start && Holds(buf[end := b], start, After(end), q + [b])
  {
    assert forall i :: 0 <= i < |q| ==> Slot(start, i) != end;
  }

  /** The slot at the end index belongs to no queued byte. */
  lemma StoreFree(buf: seq<byte>, start: nat, end: nat, q: seq<byte>, b: byte)
    requires Holds(buf, start, end, q)
    ensures Holds(buf[end := b], start, end, q)
  {
    assert forall i :: 0 <= i < |q| ==> Slot(start, i) != end;
  }

  /** Storing into a full ring makes it look empty. */
  lemma EnqueueFull(buf: seq<byte>, start: nat, end: nat, q: seq<byte>, b: byte)
    requires Holds(buf, start, end, q) && |q| == 63
    ensures After(end) == start && Holds(buf[end := b], start, After(end), [])
  {
  }

  lemma Empty(buf: seq<byte>, start: nat, end: nat, q: seq<byte>)
    requires Holds(buf, start, end, q)
    ensures (start == end <==> q == []) && (After(end) == start <==> |q| == 63)
  {
  }

  /** The masked indices agree with counters that never wrap. */
  lemma Counters(buf: seq<byte>, start: nat, end: nat, q: seq<byte>, removed: nat, added: nat)
    requires Holds(buf, start, end, q) && start == Masked(removed) && added == removed + |q|
    ensures end == Masked(added)
  {
    MaskedStep(removed, |q|);
  }
}
