/** The order in which MCU firmware portions are accepted: CMD_LMS_MCU_FW_WR as a function of its packets. */
module Upload {
  import opened Words

  const PROG_EEPROM: byte := 1
  const PROG_SRAM: byte := 2
  const BOOT_MCU: byte := 3

  /**
   last_portion, and the data fields of the packets whose payload has been sent since the latest portion 0
   that was not a boot request; `started` tells whether there has been one.
   */
  datatype Session = Session(last: nat, parts: seq<seq<byte>>, started: bool)

  function Portion(d: seq<byte>): nat
    requires |d| == 56
  {
    d[1] as int
  }

  predicate InOrder(last: nat, d: seq<byte>)
    requires |d| == 56
  {
    Portion(d) == 0 || last == Portion(d) - 1
  }

  predicate IsBoot(d: seq<byte>)
    requires |d| == 56
  {
    Portion(d) == 0 && d[0] == BOOT_MCU
  }

  function Payload(d: seq<byte>): (p: seq<byte>)
    requires |d| == 56
    ensures |p| == 32
  {
    d[2..34]
  }

  function Handle(s: Session, d: seq<byte>): Session
    requires |d| == 56
  {
    if !InOrder(s.last, d) || IsBoot(d) then s
    else Session(Portion(d), if Portion(d) == 0 then [d] else s.parts + [d], s.started || Portion(d) == 0)
  }

  function HandleAll(s: Session, ds: seq<seq<byte>>): Session
    requires forall i :: 0 <= i < |ds| ==> |ds[i]| == 56
  {
    if ds == [] then s else Handle(HandleAll(s, ds[..|ds| - 1]), ds[|ds| - 1])
  }

  /** The bytes these packets put into the MCU. */
  function Stream(parts: seq<seq<byte>>): seq<byte>
    requires forall i :: 0 <= i < |parts| ==> |parts[i]| == 56
  {
    if parts == [] then [] else Stream(parts[..|parts| - 1]) + Payload(parts[|parts| - 1])
  }

  const POWER_UP: Session := Session(0, [], false)

  /** The parts are packets of the run, numbered 0 to last without gap, once there has been a portion 0. */
  ghost predicate Consecutive(s: Session, ds: seq<seq<byte>>) {
    && (forall i :: 0 <= i < |s.parts| ==> |s.parts[i]| == 56 && s.parts[i] in ds)
    && (s.started ==> |s.parts| == s.last + 1 && forall i :: 0 <= i < |s.parts| ==> Portion(s.parts[i]) == i)
  }

  /** After any run of packets from power-up, the portions sent since the latest portion 0 are 0, 1, ..., last. */
  lemma {:induction false} RunIsConsecutive(ds: seq<seq<byte>>)
    requires forall i :: 0 <= i < |ds| ==> |ds[i]| == 56
    ensures Consecutive(HandleAll(POWER_UP, ds), ds)
  {
    if ds != [] {
      var init, d := ds[..|ds| - 1], ds[|ds| - 1];
      RunIsConsecutive(init);
      assert d in ds && forall x :: x in init ==> x in ds;
      StaysConsecutive(HandleAll(POWER_UP, init), d, init, ds);
    }
  }

  lemma StaysConsecutive(s: Session, d: seq<byte>, before: seq<seq<byte>>, ds: seq<seq<byte>>)
    requires Consecutive(s, before) && |d| == 56 && d in ds && forall x :: x in before ==> x in ds
    ensures Consecutive(Handle(s, d), ds)
  {
    hide Portion, IsBoot;
    var r := Handle(s, d);
    forall i | 0 <= i < |r.parts|
      ensures |r.parts[i]| == 56 && r.parts[i] in ds
      ensures r.started ==> |r.parts| == r.last + 1 && Portion(r.parts[i]) == i
    {
      assert r.parts[i] == d || (i < |s.parts| && r.parts[i] == s.parts[i]);
    }
  }

  lemma {:induction false} StreamLength(parts: seq<seq<byte>>)
    requires forall i :: 0 <= i < |parts| ==> |parts[i]| == 56
    ensures |Stream(parts)| == 32 * |parts|
  {
    if parts != [] {
      StreamLength(parts[..|parts| - 1]);
    }
  }

  /** Portion i occupies bytes 32 i to 32 i + 31 of the stream. */
  lemma {:induction false} StreamAt(parts: seq<seq<byte>>, i: nat)
    requires (forall i :: 0 <= i < |parts| ==> |parts[i]| == 56) && i < |parts|
    ensures |Stream(parts)| == 32 * |parts| && Stream(parts)[32 * i..32 * i + 32] == Payload(parts[i])
  {
    var n := |parts| - 1;
    StreamLength(parts);
    StreamLength(parts[..n]);
    var front, back := Stream(parts[..n]), Payload(parts[n]);
    assert Stream(parts) == front + back;
    if i < n {
      StreamAt(parts[..n], i);
      assert (front + back)[32 * i..32 * i + 32] == front[32 * i..32 * i + 32];
    } else {
      assert (front + back)[32 * n..32 * n + 32] == back;
    }
  }

  /** The firmware stream of a run: the payloads of portions 0 to last, in order, 32 (last + 1) bytes. */
  lemma UploadedStream(ds: seq<seq<byte>>)
    requires forall i :: 0 <= i < |ds| ==> |ds[i]| == 56
    ensures var s := HandleAll(POWER_UP, ds);
      && Consecutive(s, ds)
      && (s.started ==> |Stream(s.parts)| == 32 * (s.last + 1)
                        && forall i :: 0 <= i <= s.last ==> Stream(s.parts)[32 * i..32 * i + 32] == Payload(s.parts[i]))
  {
    RunIsConsecutive(ds);
    hide HandleAll, Stream;
    PartsInStream(HandleAll(POWER_UP, ds).parts);
  }

  lemma PartsInStream(parts: seq<seq<byte>>)
    requires forall i :: 0 <= i < |parts| ==> |parts[i]| == 56
    ensures |Stream(parts)| == 32 * |parts|
    ensures forall i :: 0 <= i < |parts| ==> Stream(parts)[32 * i..32 * i + 32] == Payload(parts[i])
  {
    StreamLength(parts);
    forall i | 0 <= i < |parts|
      ensures Stream(parts)[32 * i..32 * i + 32] == Payload(parts[i])
    {
      StreamAt(parts, i);
    }
  }

  /** Portion 0 that asks for no boot begins a session; the portion after the last one joins it. */
  lemma NextHandled(s: Session, d: seq<byte>)
    requires |d| == 56
    ensures Portion(d) == 0 && d[0] != 3 ==> Handle(s, d) == Session(0, [d], true)
    ensures Portion(d) == s.last + 1 ==> Handle(s, d) == Session(s.last + 1, s.parts + [d], s.started)
  {
  }

  /** A run of portions 0, 1, ..., n, the first no boot request, is accepted whole. */
  lemma {:induction false} InOrderAccepted(ds: seq<seq<byte>>)
    requires 0 < |ds| && (forall i :: 0 <= i < |ds| ==> |ds[i]| == 56 && Portion(ds[i]) == i)
    requires ds[0][0] != 3
    ensures HandleAll(POWER_UP, ds) == Session(|ds| - 1, ds, true)
  {
    hide Handle, Portion;
    var init, d := ds[..|ds| - 1], ds[|ds| - 1];
    NextHandled(HandleAll(POWER_UP, init), d);
    if init == [] {
      assert ds == [d];
    } else {
      InOrderAccepted(init);
      assert ds == init + [d];
    }
  }

  /** At power-up last_portion is 0, so a run may begin with portion 1; it then has no portion 0. */
  lemma PortionOneAtPowerUp(d: seq<byte>)
    requires |d| == 56 && Portion(d) == 1
    ensures Handle(POWER_UP, d) == Session(1, [d], false)
  {
  }
}
