/** A serial NOR flash as seen through the FPGA's configuration port, which shifts every byte in reversed bit order. */
module FlashChip {
  import opened Words
  import opened SpiBus

  const PAGE: nat := 256
  const PAGES: nat := 0x1_0000

  const SECTOR_ERASE: byte := 0x1B
  const PAGE_WRITE: byte := 0x40
  const PAGE_WRITEEN: byte := 0x60
  const PAGE_READ: byte := 0xC0
  const PAGE_READST: byte := 0xA0

  /** ReverseBitOrder of spi_flash_lib.c. */
  function ReverseBitOrder(data: byte): byte {
    var r1 := ((data >> 1) & 0x55) | ((data << 1) & 0xaa);
    var r2 := ((r1 >> 2) & 0x33) | ((r1 << 2) & 0xcc);
    ((r2 >> 4) & 0x0f) | ((r2 << 4) & 0xf0)
  }

  /** Bit i of a byte. */
  function Bit(b: byte, i: nat): int
    requires i < 8
  {
    ((b >> i) & 1) as int
  }

  /** Bit i goes to place 7 - i. */
  lemma ReversesBits(data: byte, i: nat)
    requires i < 8
    ensures (ReverseBitOrder(data) >> (7 - i)) & 1 == (data >> i) & 1
    ensures Bit(ReverseBitOrder(data), 7 - i) == Bit(data, i)
  {
    var r := ReverseBitOrder(data);
    match i
    case 0 => assert (r >> 7) & 1 == (data >> 0) & 1;
    case 1 => assert (r >> 6) & 1 == (data >> 1) & 1;
    case 2 => assert (r >> 5) & 1 == (data >> 2) & 1;
    case 3 => assert (r >> 4) & 1 == (data >> 3) & 1;
    case 4 => assert (r >> 3) & 1 == (data >> 4) & 1;
    case 5 => assert (r >> 2) & 1 == (data >> 5) & 1;
    case 6 => assert (r >> 1) & 1 == (data >> 6) & 1;
    case _ => assert (r >> 0) & 1 == (data >> 7) & 1;
  }

  /** The commands are those of the flash, with their bits reversed. */
  lemma CommandsReversed()
    ensures ReverseBitOrder(SECTOR_ERASE) == 0xD8 && ReverseBitOrder(PAGE_WRITE) == 0x02
    ensures ReverseBitOrder(PAGE_WRITEEN) == 0x06 && ReverseBitOrder(PAGE_READ) == 0x03
    ensures ReverseBitOrder(PAGE_READST) == 0x05
  {
  }

  lemma ReverseTwice(data: byte)
    ensures ReverseBitOrder(ReverseBitOrder(data)) == data
  {
  }

  /**
   The chip: its pages, the write-enable latch, how many status bytes will still report it busy, how long
   the coming operations will take, and the bytes received since it was selected.
   */
  datatype Flash = Flash(pages: seq<seq<byte>>, enabled: bool, busy: nat, durations: seq<nat>, frame: seq<byte>) {
    predicate Valid() {
      |pages| == PAGES && forall p :: 0 <= p < |pages| ==> |pages[p]| == PAGE
    }

    function Starting(): Flash {
      this.(enabled := false, busy := if durations == [] then 0 else durations[0],
            durations := if durations == [] then [] else durations[1..])
    }
  }

  /** The page and the offset that four command bytes address. */
  function PageOf(frame: seq<byte>): nat
    requires |frame| >= 4
  {
    (ReverseBitOrder(frame[1]) as int) * 256 + ReverseBitOrder(frame[2]) as int
  }

  function OffsetOf(frame: seq<byte>): nat
    requires |frame| >= 4
  {
    ReverseBitOrder(frame[3]) as int
  }

  /** Bits 0 and 1 of the status register, busy and write enabled, in reversed order. */
  function StatusByte(f: Flash): byte {
    (if f.busy > 0 then 0x80 else 0) | (if f.enabled then 0x40 else 0)
  }

  function ByteAt(pages: seq<seq<byte>>, a: nat): byte
    requires |pages| == PAGES && forall p :: 0 <= p < |pages| ==> |pages[p]| == PAGE
  {
    pages[a / PAGE % PAGES][a % PAGE]
  }

  /** The answer while the byte at position |f.frame| of a frame comes in. */
  function Answer(f: Flash): byte {
    if f.frame == [] then 0xFF
    else if f.frame[0] == PAGE_READST then StatusByte(f)
    else if f.frame[0] == PAGE_READ && |f.frame| >= 4 && f.busy == 0 && f.Valid() then
      ByteAt(f.pages, PageOf(f.frame[..4]) * PAGE + OffsetOf(f.frame[..4]) + |f.frame| - 4)
    else 0xFF
  }

  function Exchanged(f: Flash, out: byte): (Flash, byte) {
    var f' := f.(frame := f.frame + [out]);
    (if f.frame != [] && f.frame[0] == PAGE_READST && f.busy > 0 then f'.(busy := f.busy - 1) else f', Answer(f))
  }

  /** Programming clears bits, within one page. */
  function Programmed(page: seq<byte>, offset: nat, data: seq<byte>): (p: seq<byte>)
    requires |page| == PAGE
    ensures |p| == PAGE
  {
    seq(PAGE, j requires 0 <= j < PAGE =>
      var i := (j - offset) % PAGE; if i < |data| then page[j] & data[i] else page[j])
  }

  function Blank(): (p: seq<byte>)
    ensures |p| == PAGE
  {
    seq(PAGE, _ => 0xFF)
  }

  function Erased(pages: seq<seq<byte>>, sector: nat): (ps: seq<seq<byte>>)
    ensures |ps| == |pages|
  {
    seq(|pages|, p requires 0 <= p < |pages| => if p / 256 == sector then Blank() else pages[p])
  }

  /** What the chip does when it is deselected: complete write commands take effect if it is enabled and idle. */
  function Released(f: Flash): Flash {
    var g := f.(frame := []);
    if f.frame == [] || f.busy > 0 || !f.Valid() then g
    else if f.frame == [PAGE_WRITEEN] then g.(enabled := true)
    else if !f.enabled then g
    else if f.frame[0] == PAGE_WRITE && 4 < |f.frame| <= 4 + PAGE then
      var p := PageOf(f.frame[..4]) % PAGES;
      g.Starting().(pages := f.pages[p := Programmed(f.pages[p], OffsetOf(f.frame[..4]), f.frame[4..])])
    else if f.frame[0] == SECTOR_ERASE && |f.frame| == 4 then
      g.Starting().(pages := Erased(f.pages, PageOf(f.frame[..4]) / 256))
    else g
  }

  /** The chip as the only slave of its bus. */
  function Bus(): Slaves<Flash> {
    Slaves((f: Flash, slave: nat, out: byte) => Exchanged(f, out), (f: Flash, slave: nat) => Released(f))
  }

  /** In any frame but a status read the chip just collects the bytes. */
  lemma {:induction false} Collects(f: Flash, slave: nat, out: seq<byte>)
    requires f.frame + out != [] && (f.frame + out)[0] != PAGE_READST
    ensures var (g, answers) := Shift(Bus(), f, slave, true, out);
      && g == f.(frame := f.frame + out)
      && forall i :: 0 <= i < |out| ==> answers[i] == Answer(f.(frame := f.frame + out[..i]))
    decreases |out|
  {
    hide Answer;
    if out == [] {
      assert f.frame + out == f.frame;
    } else {
      var init, last := out[..|out| - 1], out[|out| - 1];
      if f.frame + init == [] {
        assert init == [] && Shift(Bus(), f, slave, true, init) == (f, []);
        assert f.frame + out == f.frame + [last] && f.frame + out[..0] == f.frame;
      } else {
        Collects(f, slave, init);
        CollectsOne(f.(frame := f.frame + init), slave, last);
        assert f.frame + out == (f.frame + init) + [last];
        assert forall i :: 0 <= i < |init| ==> out[..i] == init[..i];
      }
    }
  }

  lemma CollectsOne(f: Flash, slave: nat, b: byte)
    requires f.frame != [] && f.frame[0] != PAGE_READST
    ensures Exchange(Bus(), f, slave, true, b) == (f.(frame := f.frame + [b]), Answer(f))
  {
  }

  /** A status read of n bytes: the first one read is the status at the start. */
  lemma {:induction false} ReadsStatus(f: Flash, slave: nat, n: nat)
    requires f.frame == []
    ensures var (g, answers) := Shift(Bus(), f, slave, true, [PAGE_READST] + Zeros(n));
      && g == f.(frame := [PAGE_READST] + Zeros(n), busy := if f.busy > n then f.busy - n else 0)
      && (n > 0 ==> answers[1] == StatusByte(f))
  {
    var out := [PAGE_READST] + Zeros(n);
    if n == 0 {
      StatusCommand(f, slave);
      assert out == [PAGE_READST];
    } else {
      hide Answer, StatusByte, Shift, Exchange;
      ReadsStatus(f, slave, n - 1);
      ZerosFront(n);
      ShiftLast(Bus(), f, slave, true, out[..n], 0);
      StatusOne(f.(frame := out[..n], busy := if f.busy > n - 1 then f.busy - (n - 1) else 0), slave);
      StatusIgnoresFrame(f, out[..n]);
      if n == 1 {
        assert f.(frame := out[..n], busy := if f.busy > 0 then f.busy - 0 else 0) == f.(frame := out[..n]);
      }
    }
  }

  lemma ZerosFront(n: nat)
    requires n > 0
    ensures var out := [PAGE_READST] + Zeros(n);
      out[..n] == [PAGE_READST] + Zeros(n - 1) && out[n] == 0 && out[..n] + [0] == out
  {
  }

  lemma StatusCommand(f: Flash, slave: nat)
    requires f.frame == []
    ensures Shift(Bus(), f, slave, true, [PAGE_READST]).0 == f.(frame := [PAGE_READST])
  {
    assert [PAGE_READST][..0] == [] && f.frame + [PAGE_READST] == [PAGE_READST];
  }

  lemma StatusIgnoresFrame(f: Flash, frame: seq<byte>)
    ensures StatusByte(f.(frame := frame)) == StatusByte(f)
  {
  }

  lemma StatusOne(f: Flash, slave: nat)
    requires f.frame != [] && f.frame[0] == PAGE_READST
    ensures Exchange(Bus(), f, slave, true, 0)
            == (f.(frame := f.frame + [0], busy := if f.busy > 0 then f.busy - 1 else 0), StatusByte(f))
  {
  }

  // ---------------------------------------------------------------------------------------------
  // Whole commands.
  // ---------------------------------------------------------------------------------------------

  /** A command without answer, or the rest of one whose start was sent with the chip kept selected. */
  lemma SendsFrame(f: Flash, slave: nat, merge: bool, out: seq<byte>)
    requires f.frame + out != [] && (f.frame + out)[0] != PAGE_READST
    ensures var g := f.(frame := f.frame + out);
      Transfer(Bus(), f, slave, true, merge, out, 0) == (if merge then g else Released(g), [])
  {
    assert out + Zeros(0) == out;
    Collects(f, slave, out);
  }

  lemma SendsStatusRead(f: Flash, slave: nat, n: nat)
    requires f.frame == [] && n > 0
    ensures var (g, answer) := Transfer(Bus(), f, slave, true, false, [PAGE_READST], n);
      g == f.(busy := if f.busy > n then f.busy - n else 0) && answer[0] == StatusByte(f)
  {
    ReadsStatus(f, slave, n);
    assert [PAGE_READST] + Zeros(n) != [PAGE_WRITEEN];
  }

  /** A page read, starting at the beginning of a page, of an idle chip. */
  lemma SendsPageRead(f: Flash, slave: nat, header: seq<byte>)
    requires f.Valid() && f.busy == 0 && f.frame == []
    requires |header| == 4 && header[0] == PAGE_READ && OffsetOf(header) == 0
    ensures PageOf(header) < PAGES
    ensures Transfer(Bus(), f, slave, true, false, header, PAGE) == (f, f.pages[PageOf(header)])
  {
    hide Answer;
    PageInRange(header);
    var out := header + Zeros(PAGE);
    assert f.frame + out == out;
    Collects(f, slave, out);
    var (g, answers) := Shift(Bus(), f, slave, true, out);
    forall i | 0 <= i < PAGE
      ensures answers[4 + i] == f.pages[PageOf(header)][i]
    {
      assert out[..4] == header;
      AnswersFromPage(f, out, 4 + i);
    }
    assert answers[4..] == f.pages[PageOf(header)];
  }

  /** The same of a busy chip, which ignores the command. */
  lemma SendsIgnoredRead(f: Flash, slave: nat, header: seq<byte>)
    requires f.busy > 0 && f.frame == [] && |header| == 4 && header[0] == PAGE_READ
    ensures Transfer(Bus(), f, slave, true, false, header, PAGE) == (f, Blank())
  {
    hide Answer;
    var out := header + Zeros(PAGE);
    assert f.frame + out == out;
    Collects(f, slave, out);
    var (g, answers) := Shift(Bus(), f, slave, true, out);
    forall i | 4 <= i < 4 + PAGE
      ensures answers[i] == 0xFF
    {
      AnswersBusy(f, out, i);
    }
    assert answers[4..] == Blank();
  }

  lemma AnswersBusy(f: Flash, out: seq<byte>, i: nat)
    requires f.busy > 0 && f.frame == [] && 0 < i < |out| && out[0] == PAGE_READ
    ensures Answer(f.(frame := f.frame + out[..i])) == 0xFF
  {
    assert f.frame + out[..i] == out[..i];
  }

  lemma PageInRange(header: seq<byte>)
    requires |header| >= 4
    ensures PageOf(header) < PAGES
  {
    ByteValue(ReverseBitOrder(header[1]));
    ByteValue(ReverseBitOrder(header[2]));
  }

  lemma ByteValue(b: byte)
    ensures 0 <= b as int < 256
  {
  }

  lemma AnswersFromPage(f: Flash, out: seq<byte>, i: nat)
    requires f.Valid() && f.busy == 0 && f.frame == []
    requires 4 <= i < 4 + PAGE && i < |out| && out[0] == PAGE_READ && OffsetOf(out[..4]) == 0
        && PageOf(out[..4]) < PAGES
    ensures Answer(f.(frame := f.frame + out[..i])) == f.pages[PageOf(out[..4])][i - 4]
  {
    hide ReverseBitOrder, Octet, PageOf;
    var g := f.(frame := f.frame + out[..i]);
    assert g.frame == out[..i] && g.frame[..4] == out[..4];
    WithinPage(f.pages, PageOf(out[..4]), i - 4);
  }

  lemma WithinPage(pages: seq<seq<byte>>, p: nat, j: nat)
    requires |pages| == PAGES && forall p :: 0 <= p < |pages| ==> |pages[p]| == PAGE
    requires p < PAGES && j < PAGE
    ensures ByteAt(pages, p * PAGE + j) == pages[p][j]
  {
    assert (p * 256 + j) / 256 == p && (p * 256 + j) % 256 == j;
  }

  // ---------------------------------------------------------------------------------------------
  // Addresses.
  // ---------------------------------------------------------------------------------------------

  /** (uint8_t) n */
  function Octet(n: nat): byte {
    (n % 256) as bv8
  }

  lemma Doubled(x: bv8)
    requires x < 128
    ensures (x << 1) as int == 2 * (x as int) && ((x << 1) | 1) as int == 2 * (x as int) + 1
  {
  }

  function FromBits(n: nat): (b: bv8)
    requires n < 256
    ensures b as int == n
  {
    if n == 0 then 0
    else
      Doubled(FromBits(n / 2));
      if n % 2 == 0 then FromBits(n / 2) << 1 else (FromBits(n / 2) << 1) | 1
  }

  lemma OctetValue(n: nat)
    ensures Octet(n) as int == n % 256
  {
    var b := FromBits(n % 256);
    assert (b as int) as bv8 == b;
  }

  /** The four bytes the driver sends in front of a page command, for a 32-bit byte address. */
  function Header(command: byte, byteAddress: nat): (h: seq<byte>)
    ensures |h| == 4 && h[0] == command
  {
    [command, ReverseBitOrder(Octet(byteAddress / 0x1_0000)), ReverseBitOrder(Octet(byteAddress / 0x100)),
     ReverseBitOrder(Octet(byteAddress))]
  }

  /** The bit reversal in the driver and the reversed shifting of the port cancel out. */
  lemma HeaderAddresses(command: byte, byteAddress: nat)
    ensures PageOf(Header(command, byteAddress)) == byteAddress / PAGE % PAGES
    ensures OffsetOf(Header(command, byteAddress)) == byteAddress % PAGE
  {
    ReverseTwice(Octet(byteAddress / 0x1_0000));
    ReverseTwice(Octet(byteAddress / 0x100));
    ReverseTwice(Octet(byteAddress));
    OctetValue(byteAddress / 0x1_0000);
    OctetValue(byteAddress / 0x100);
    OctetValue(byteAddress);
    hide ReverseBitOrder, Octet;
    Digits(byteAddress);
  }

  function Pow2(i: nat): nat {
    if i == 0 then 1 else 2 * Pow2(i - 1)
  }

  lemma Halved(b: byte)
    ensures (b >> 1) as int == b as int / 2 && (b & 1) as int == b as int % 2
  {
  }

  lemma ShiftedOnce(b: byte, i: nat)
    requires 0 < i < 8
    ensures (b >> 1) >> (i - 1) == b >> i
  {
  }

  /** The bits of a byte are the binary digits of its value. */
  lemma {:induction false} BitValue(b: byte, i: nat)
    requires i < 8
    ensures Pow2(i) > 0 && Bit(b, i) == b as int / Pow2(i) % 2
  {
    Halved(b);
    if i == 0 {
      assert b >> 0 == b && b as int / 1 == b as int;
    } else {
      BitValue(b >> 1, i - 1);
      ShiftedOnce(b, i);
      DivideTwice(b as int, Pow2(i - 1));
    }
  }

  lemma DivideTwice(n: nat, d: nat)
    requires d > 0
    ensures n / 2 / d == n / (2 * d)
  {
    var q, r := n / 2, n % 2;
    var q1, r1 := q / d, q % d;
    assert n == 2 * q + r && q == d * q1 + r1;
    assert n == (2 * d) * q1 + (2 * r1 + r);
    assert 0 <= 2 * r1 + r < 2 * d;
    QuotientIs(n, 2 * d, q1, 2 * r1 + r);
  }

  lemma QuotientIs(n: nat, d: nat, q: nat, r: nat)
    requires d > 0 && n == d * q + r && r < d
    ensures n / d == q
  {
    var p, s := n / d, n % d;
    assert n == d * p + s && 0 <= s < d;
    assert d * (p - q) == r - s;
    if p > q {
      assert d * (p - q) == d + d * (p - q - 1);
      NotNegative(d, p - q - 1);
    } else if p < q {
      assert d * (q - p) == d + d * (q - p - 1);
      NotNegative(d, q - p - 1);
    }
  }

  lemma NotNegative(a: nat, b: nat)
    ensures a * b >= 0
  {
  }

  lemma HalfOfRemainder(n: nat, d: nat)
    requires d > 0
    ensures n % (2 * d) / 2 == n / 2 % d && n % (2 * d) % 2 == n % 2
  {
    var q, r := n / (2 * d), n % (2 * d);
    assert n == (2 * d) * q + r && 0 <= r < 2 * d;
    assert (2 * d) * q == 2 * (d * q);
    assert n / 2 == d * q + r / 2 && n % 2 == r % 2;
    RemainderIs(n / 2, d, q, r / 2);
  }

  lemma RemainderIs(n: nat, d: nat, q: nat, r: nat)
    requires d > 0 && n == d * q + r && r < d
    ensures n % d == r
  {
    QuotientIs(n, d, q, r);
    assert n == d * (n / d) + n % d;
  }

  lemma {:induction false} LowBits(n: nat, k: nat, i: nat)
    requires i < k
    ensures Pow2(i) > 0 && Pow2(k) > 0 && n % Pow2(k) / Pow2(i) % 2 == n / Pow2(i) % 2
  {
    if i == 0 {
      Positive(k - 1);
      HalfOfRemainder(n, Pow2(k - 1));
      assert n / 1 == n && n % Pow2(k) / 1 == n % Pow2(k);
    } else {
      LowBits(n / 2, k - 1, i - 1);
      HalfOfRemainder(n, Pow2(k - 1));
      DivideTwice(n, Pow2(i - 1));
      DivideTwice(n % Pow2(k), Pow2(i - 1));
    }
  }

  lemma {:induction false} Positive(k: nat)
    ensures Pow2(k) > 0
  {
    if k > 0 {
      Positive(k - 1);
    }
  }

  lemma OctetBits(n: nat, i: nat)
    requires i < 8
    ensures Pow2(i) > 0 && Bit(Octet(n), i) == n / Pow2(i) % 2
  {
    OctetValue(n);
    BitValue(Octet(n), i);
    LowBits(n, 8, i);
    assert Pow2(8) == 256;
  }

  /**
   What the driver sends: after the command, the three address bytes, most significant first, each with bit i of the
   byte in place 7 - i.
   */
  lemma HeaderBits(command: byte, byteAddress: nat, i: nat)
    requires i < 8
    ensures Pow2(i) > 0
    ensures var h := Header(command, byteAddress);
      && h[0] == command
      && Bit(h[1], 7 - i) == byteAddress / 0x1_0000 / Pow2(i) % 2
      && Bit(h[2], 7 - i) == byteAddress / 0x100 / Pow2(i) % 2
      && Bit(h[3], 7 - i) == byteAddress / Pow2(i) % 2
  {
    OctetBits(byteAddress / 0x1_0000, i);
    OctetBits(byteAddress / 0x100, i);
    OctetBits(byteAddress, i);
    ReversesBits(Octet(byteAddress / 0x1_0000), i);
    ReversesBits(Octet(byteAddress / 0x100), i);
    ReversesBits(Octet(byteAddress), i);
    hide Bit, ReverseBitOrder, Octet, Pow2;
  }

  /** Page 1, as it goes out. */
  lemma HeaderOfPageOne()
    ensures Header(PAGE_READ, 0x100) == [0xC0, 0x00, 0x80, 0x00]
  {
    OctetExamples();
    ReverseExamples();
    hide Octet, ReverseBitOrder;
  }

  lemma OctetExamples()
    ensures Octet(1) == 1 && Octet(0) == 0 && Octet(0x100) == 0
  {
  }

  lemma ReverseExamples()
    ensures ReverseBitOrder(1) == 0x80 && ReverseBitOrder(0) == 0
  {
  }

  lemma Digits(n: nat)
    ensures n / 0x1_0000 % 256 * 256 + n / 0x100 % 256 == n / 256 % 0x1_0000
  {
    var m, low := n / 256, n % 256;
    var q, b, c := m / 0x1_0000, m / 256 % 256, m % 256;
    assert n == 256 * m + low && m == 256 * (m / 256) + c;
    UpperBytes(m / 256, c, low);
    assert m / 256 == 256 * (m / 256 / 256) + b;
    LowerBytes(m / 256 / 256, b, c);
  }

  lemma UpperBytes(a: nat, b: nat, c: nat)
    requires b < 256 && c < 256
    ensures (256 * (256 * a + b) + c) / 0x1_0000 == a
  {
  }

  lemma LowerBytes(a: nat, b: nat, c: nat)
    requires b < 256 && c < 256
    ensures (256 * (256 * a + b) + c) % 0x1_0000 == 256 * b + c
  {
  }
}
