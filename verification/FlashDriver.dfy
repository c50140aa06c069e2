/** The flash routines of the application: spi_flash_lib.c, over the SPI master and the chip. */
module FlashDriver {
  import opened SpiMaster
  import opened FlashChip
  import opened Words

  const STATUS_RETRIES: nat := 10000
  const STATUS_RETRIES_ERASE: nat := 3000000

  /** The bus is idle with the chip deselected. */
  ghost predicate Ready(bus: Controller<Flash>)
    reads bus
  {
    bus.slaves == Bus() && bus.Idle() && !bus.overrun && !bus.sso && bus.state.Valid() && bus.state.frame == []
  }

  /** One whole command without answer. */
  method SendFrame(bus: Controller<Flash>, slave: nat, data: array<byte>, length: nat)
    requires Ready(bus) && 0 < length <= data.Length && data[0] != PAGE_READST
    modifies bus
    ensures bus.state == Released(old(bus.state).(frame := old(data[..length])))
    ensures Ready(bus)
  {
    hide Released;
    ghost var f, out := bus.state, data[..length];
    var none := new byte[0];
    var n := bus.Command(slave, data, 0, length, none, 0, 0, false, false);
    SendsFrame(f, slave, false, out);
    ReleasedIsReady(f.(frame := f.frame + out));
    assert data[0..length] == out && f.frame + out == out;
  }

  /** Deselected, the chip waits for a new command. */
  lemma ReleasedIsReady(f: Flash)
    ensures Released(f).frame == [] && (f.Valid() ==> Released(f).Valid())
  {
  }

  /** A status read of `n` bytes into `buf`. */
  method ReadStatusBytes(bus: Controller<Flash>, slave: nat, command: array<byte>, buf: array<byte>, n: nat)
    requires Ready(bus) && command.Length >= 1 && command[0] == PAGE_READST && 0 < n <= buf.Length
    modifies bus, buf
    ensures Ready(bus) && buf[0] == StatusByte(old(bus.state))
    ensures bus.state == old(bus.state).(busy := if old(bus.state).busy > n then old(bus.state).busy - n else 0)
  {
    ghost var f := bus.state;
    var k := bus.Command(slave, command, 0, 1, buf, 0, n, false, false);
    SendsStatusRead(f, slave, n);
    assert old(command[0..1]) == [PAGE_READST];
  }

  lemma StatusBits(f: Flash)
    ensures (StatusByte(f) & 0x80 != 0) == (f.busy > 0) && (StatusByte(f) & 0x40 != 0) == f.enabled
  {
  }

  /**
   CyFxSpiWaitForStatus: success leaves the chip idle and write enabled. It is reached exactly when the chip
   stays busy for fewer than 2 * (STATUS_RETRIES - 1) + 1 further status bytes.
   */
  method WaitForStatus(bus: Controller<Flash>, slave: nat) returns (status: nat)
    requires Ready(bus)
    modifies bus
    ensures Ready(bus)
    ensures bus.state == old(bus.state).(busy := bus.state.busy, enabled := bus.state.enabled)
    ensures status == 0 ==> bus.state.busy == 0 && bus.state.enabled
    ensures status == if old(bus.state).busy <= 2 * (STATUS_RETRIES - 1) then 0 else 1
  {
    ghost var busy := bus.state.busy;
    var buf, rdBuf := new byte[2], new byte[2];
    var retries := 0;
    while true
      invariant Ready(bus) && retries <= STATUS_RETRIES
      invariant bus.state == old(bus.state).(busy := bus.state.busy, enabled := bus.state.enabled)
      invariant bus.state.busy == if busy > 2 * retries then busy - 2 * retries else 0
      invariant retries > 0 ==> busy > 2 * (retries - 1)
      decreases STATUS_RETRIES - retries
    {
      buf[0] := PAGE_WRITEEN;
      SendFrame(bus, slave, buf, 1);
      assert buf[..1] == [PAGE_WRITEEN];
      StatusBits(bus.state);
      buf[0] := PAGE_READST;
      ReadStatusBytes(bus, slave, buf, rdBuf, 2);
      if retries >= STATUS_RETRIES {
        return 1;
      }
      retries := retries + 1;
      if !((rdBuf[0] & 0x80) != 0 || (rdBuf[0] & 0x40) == 0) {
        break;
      }
    }
    status := 0;
  }

  /** Every operation of the chip is over before a wait for it gives up. */
  ghost predicate Brisk(f: Flash) {
    && f.busy <= 2 * (STATUS_RETRIES - 1)
    && forall i :: 0 <= i < |f.durations| ==> f.durations[i] <= 2 * (STATUS_RETRIES - 1)
  }

  lemma StaysBrisk(f: Flash, pages: seq<seq<byte>>)
    requires Brisk(f)
    ensures Brisk(f.Starting().(pages := pages))
  {
  }

  /** The i-th page from `first` on; page numbers wrap at the end of the chip. */
  function PageAt(first: nat, i: nat): (p: nat)
    ensures p < PAGES
  {
    (first + i) % PAGES
  }

  /** Memory after the first `k` pages of `data` have been programmed from page `first` on. */
  function Written(pages: seq<seq<byte>>, first: nat, data: seq<byte>, k: nat): (ps: seq<seq<byte>>)
    requires |pages| == PAGES && (forall p :: 0 <= p < PAGES ==> |pages[p]| == PAGE) && k * PAGE <= |data|
    ensures |ps| == PAGES && forall p :: 0 <= p < PAGES ==> |ps[p]| == PAGE
  {
    if k == 0 then pages
    else
      var before, p := Written(pages, first, data, k - 1), PageAt(first, k - 1);
      before[p := Programmed(before[p], 0, data[(k - 1) * PAGE..k * PAGE])]
  }

  /** The contents of `k` pages from page `first` on. */
  function Stored(pages: seq<seq<byte>>, first: nat, k: nat): (d: seq<byte>)
    requires |pages| == PAGES && forall p :: 0 <= p < PAGES ==> |pages[p]| == PAGE
    ensures |d| == k * PAGE
  {
    if k == 0 then [] else Stored(pages, first, k - 1) + pages[PageAt(first, k - 1)]
  }

  /** location[1..3], the bit-reversed bytes of the address, after the command byte. */
  method Locate(location: array<byte>, command: byte, byteAddress: nat)
    requires location.Length == 4
    modifies location
    ensures location[..] == Header(command, byteAddress)
  {
    location[1] := ReverseBitOrder(Octet(byteAddress / 0x1_0000));
    location[2] := ReverseBitOrder(Octet(byteAddress / 0x100));
    location[3] := ReverseBitOrder(Octet(byteAddress));
    location[0] := command;
  }

  /** What reading one page gives: a busy chip ignores the command, and the line stays high. */
  function PageRead(f: Flash, p: nat): seq<byte>
    requires f.Valid() && p < PAGES
  {
    if f.busy == 0 then f.pages[p] else Blank()
  }

  /** One page read. */
  method ReadPage(bus: Controller<Flash>, slave: nat, byteAddress: nat, buffer: array<byte>, b: nat)
    requires Ready(bus) && byteAddress % PAGE == 0 && b + PAGE <= buffer.Length
    modifies bus, buffer
    ensures Ready(bus)
    ensures bus.state == old(bus.state)
    ensures buffer[..] == Overwrite(old(buffer[..]), b, PageRead(bus.state, byteAddress / PAGE % PAGES))
  {
    ghost var f := bus.state;
    var location := new byte[4];
    Locate(location, PAGE_READ, byteAddress);
    ghost var header := location[..];
    HeaderAddresses(PAGE_READ, byteAddress);
    var n := bus.Command(slave, location, 0, 4, buffer, b, PAGE, false, false);
    assert location[0..4] == header;
    if f.busy == 0 {
      SendsPageRead(f, slave, header);
    } else {
      SendsIgnoredRead(f, slave, header);
    }
  }

  /** One page program: command and address, then the data with the chip kept selected. */
  method WritePage(bus: Controller<Flash>, slave: nat, byteAddress: nat, buffer: array<byte>, b: nat)
    requires Ready(bus) && bus.state.busy == 0 && bus.state.enabled
    requires byteAddress % PAGE == 0 && b + PAGE <= buffer.Length
    modifies bus
    ensures Ready(bus) && old(bus.state).Valid()
    ensures var f, p := old(bus.state), byteAddress / PAGE % PAGES;
      bus.state == f.Starting().(pages := f.pages[p := Programmed(f.pages[p], 0, old(buffer[b..b + PAGE]))])
  {
    ghost var f, data := bus.state, buffer[b..b + PAGE];
    SendHeader(bus, slave, byteAddress);
    SendRest(bus, slave, buffer, b, PAGE);
    ProgramsPage(f, byteAddress, data);
  }

  /** The chip has been sent the bytes of `frame` and is still selected. */
  ghost predicate Selected(bus: Controller<Flash>, slave: nat, f: Flash, frame: seq<byte>)
    reads bus
  {
    && bus.slaves == Bus() && bus.Idle() && !bus.overrun && bus.sso && bus.selected == slave
    && bus.state == f.(frame := frame)
  }

  method SendHeader(bus: Controller<Flash>, slave: nat, byteAddress: nat)
    requires Ready(bus)
    modifies bus
    ensures Selected(bus, slave, old(bus.state), Header(PAGE_WRITE, byteAddress))
  {
    ghost var f, header := bus.state, Header(PAGE_WRITE, byteAddress);
    var location, none := new byte[4], new byte[0];
    Locate(location, PAGE_WRITE, byteAddress);
    var n := bus.Command(slave, location, 0, 4, none, 0, 0, false, true);
    assert location[0..4] == header && f.frame + header == header;
    SendsFrame(f, slave, true, header);
  }

  method SendRest(bus: Controller<Flash>, slave: nat, buffer: array<byte>, b: nat, length: nat)
    requires Selected(bus, slave, bus.state, bus.state.frame)
    requires bus.state.frame != [] && bus.state.frame[0] != PAGE_READST && 0 < length && b + length <= buffer.Length
    modifies bus
    ensures bus.slaves == Bus() && bus.Idle() && !bus.overrun && !bus.sso
    ensures var f := old(bus.state);
      bus.state == Released(f.(frame := f.frame + old(buffer[b..b + length])))
  {
    ghost var f, data := bus.state, buffer[b..b + length];
    var none := new byte[0];
    var n := bus.Command(slave, buffer, b, length, none, 0, 0, false, false);
    SendsFrame(f, slave, false, data);
  }

  lemma ProgramsPage(f: Flash, byteAddress: nat, data: seq<byte>)
    requires f.Valid() && f.busy == 0 && f.enabled && f.frame == [] && byteAddress % PAGE == 0 && |data| == PAGE
    ensures var p := byteAddress / PAGE % PAGES;
      Released(f.(frame := Header(PAGE_WRITE, byteAddress) + data))
      == f.Starting().(pages := f.pages[p := Programmed(f.pages[p], 0, data)])
  {
    var header := Header(PAGE_WRITE, byteAddress);
    HeaderAddresses(PAGE_WRITE, byteAddress);
    hide Header, PageOf, OffsetOf, Programmed;
    var frame := header + data;
    assert frame[..4] == header && frame[4..] == data && frame[0] == header[0] && frame != [PAGE_WRITEEN];
  }

  /** The 32-bit byte address of the i-th page from `first` on. */
  function AddressOf(first: nat, i: nat): Word {
    Wrap((first + i) * 256)
  }

  lemma FirstAddress(first: nat)
    ensures AddressOf(first, 0) == Wrap(first * PAGE)
  {
  }

  lemma AddressSteps(first: nat, i: nat)
    ensures AddressOf(first, i) % PAGE == 0 && AddressOf(first, i) / PAGE % PAGES == PageAt(first, i)
    ensures Wrap(AddressOf(first, i) + PAGE) == AddressOf(first, i + 1)
  {
    Scaled(first + i);
    Scaled(first + i + 1);
    Remainders(first + i);
    var m := (first + i) % 0x100_0000;
    assert AddressOf(first, i) == m * 256;
    assert m * 256 / 256 == m && m * 256 % 256 == 0;
  }

  lemma Scaled(n: nat)
    ensures Wrap(n * 256) == n % 0x100_0000 * 256
  {
    var q, m := n / 0x100_0000, n % 0x100_0000;
    assert n * 256 == q * 0x1_0000_0000 + m * 256;
  }

  lemma Remainders(n: nat)
    ensures n % 0x100_0000 % 0x1_0000 == n % 0x1_0000
    ensures Wrap(n % 0x100_0000 * 256 + 256) == (n + 1) % 0x100_0000 * 256
  {
    var q := n / 0x100_0000;
    assert n == (q * 256) * 0x1_0000 + n % 0x100_0000;
    assert if n % 0x100_0000 == 0xFF_FFFF then (n + 1) % 0x100_0000 == 0
        else (n + 1) % 0x100_0000 == n % 0x100_0000 + 1;
  }

  /** The contents of `k` pages as they are read. */
  function ReadOut(f: Flash, first: nat, k: nat): (d: seq<byte>)
    requires f.Valid()
    ensures |d| == k * PAGE
  {
    if f.busy == 0 then Stored(f.pages, first, k) else seq(k * PAGE, _ => 0xFF)
  }

  /** What a call has done to the memory, or to the buffer, after `k` pages. */
  ghost predicate Moved(isRead: bool, f: Flash, g: Flash, first: nat, before: seq<byte>, now: seq<byte>, b: nat, k: nat)
    requires f.Valid() && g.Valid() && b + k * PAGE <= |before|
  {
    if isRead then g == f && now == Overwrite(before, b, ReadOut(f, first, k))
    else now == before && g.pages == Written(f.pages, first, before[b..], k)
  }

  lemma MovedNone(isRead: bool, f: Flash, first: nat, before: seq<byte>, b: nat)
    requires f.Valid() && b <= |before|
    ensures Moved(isRead, f, f, first, before, before, b, 0)
  {
  }

  lemma ReadMoves(f: Flash, first: nat, before: seq<byte>, now: seq<byte>, b: nat, k: nat)
    requires f.Valid() && b + (k + 1) * PAGE <= |before| && Moved(true, f, f, first, before, now, b, k)
    ensures Moved(true, f, f, first, before, Overwrite(now, b + k * PAGE, PageRead(f, PageAt(first, k))), b, k + 1)
  {
  }

  lemma WriteMoves(f: Flash, g: Flash, h: Flash, first: nat, before: seq<byte>, b: nat, k: nat)
    requires f.Valid() && g.Valid() && h.Valid() && b + (k + 1) * PAGE <= |before|
        && Moved(false, f, g, first, before, before, b, k)
    requires var p := PageAt(first, k);
      h.pages == g.pages[p := Programmed(g.pages[p], 0, before[b + k * PAGE..b + (k + 1) * PAGE])]
    ensures Moved(false, f, h, first, before, before, b, k + 1)
  {
    assert before[b..][k * PAGE..(k + 1) * PAGE] == before[b + k * PAGE..b + (k + 1) * PAGE];
  }

  /** The body of the page loop for page `k`. A failed wait leaves the memory as it was. */
  method TransferPage(bus: Controller<Flash>, slave: nat, byteAddress: Word, buffer: array<byte>, b: nat, k: nat,
      isRead: bool,
      ghost f: Flash, ghost first: nat, ghost before: seq<byte>) returns (status: nat)
    requires Ready(bus) && f.Valid() && byteAddress == AddressOf(first, k)
    requires b + (k + 1) * PAGE <= buffer.Length == |before|
        && Moved(isRead, f, bus.state, first, before, buffer[..], b, k)
    modifies bus, buffer
    ensures Ready(bus) && status <= 1 && (isRead ==> status == 0)
    ensures Moved(isRead, f, bus.state, first, before, buffer[..], b, if status == 0 then k + 1 else k)
    ensures !isRead && old(Brisk(bus.state)) ==> status == 0 && Brisk(bus.state)
  {
    AddressSteps(first, k);
    status := 0;
    if isRead {
      ghost var now := buffer[..];
      ReadPage(bus, slave, byteAddress, buffer, b + k * PAGE);
      ReadMoves(f, first, before, now, b, k);
    } else {
      status := WaitForStatus(bus, slave);
      if status != 0 {
        return;
      }
      ghost var g := bus.state;
      WritePage(bus, slave, byteAddress, buffer, b + k * PAGE);
      assert buffer[b + k * PAGE..b + k * PAGE + PAGE] == before[b + k * PAGE..b + (k + 1) * PAGE];
      WriteMoves(f, g, bus.state, first, before, b, k);
      if old(Brisk(bus.state)) {
        StaysBrisk(g, bus.state.pages);
      }
    }
  }

  /**
   FlashSpiTransfer. Reads fill the buffer with whole pages; writes program whole pages, and stop with an error
   only between two of them.
   */
  method FlashSpiTransfer(bus: Controller<Flash>, slave: nat, pageAddress: Word, byteCount: nat, buffer: array<byte>,
      b: nat, isRead: bool)
    returns (status: nat, ghost done: nat)
    requires Ready(bus) && byteCount < 0x1_0000 && b + byteCount <= buffer.Length
    modifies bus, buffer
    ensures Ready(bus) && old(bus.state).Valid() && done * PAGE <= byteCount
    ensures Moved(isRead, old(bus.state), bus.state, pageAddress, old(buffer[..]), buffer[..], b, done)
    ensures status == if byteCount % PAGE == 0 && done == byteCount / PAGE then 0 else 1
    ensures byteCount % PAGE == 0 && (isRead || old(Brisk(bus.state))) ==> status == 0
    ensures !isRead && old(Brisk(bus.state)) ==> Brisk(bus.state)
  {
    hide Moved, AddressOf, Brisk;
    ghost var f, before := bus.state, buffer[..];
    done := 0;
    status := 0;
    MovedNone(isRead, f, pageAddress, before, b);
    FirstAddress(pageAddress);
    if byteCount == 0 {
      return;
    }
    if byteCount % PAGE != 0 {
      return 1, 0;
    }
    var pageCount, byteAddress, k := byteCount / PAGE, Wrap(pageAddress * PAGE), 0;
    while pageCount != 0
      invariant 0 <= k && 0 <= pageCount && k * PAGE <= byteCount
      invariant Ready(bus) && k + pageCount == byteCount / PAGE && done == k && status == 0
      invariant byteAddress == AddressOf(pageAddress, k)
      invariant Moved(isRead, f, bus.state, pageAddress, before, buffer[..], b, k)
      invariant !isRead && Brisk(f) ==> Brisk(bus.state)
      decreases pageCount
    {
      status := TransferPage(bus, slave, byteAddress, buffer, b, k, isRead, f, pageAddress, before);
      if status != 0 {
        return;
      }
      AddressSteps(pageAddress, k);
      byteAddress := Wrap(byteAddress + PAGE);
      k, done := k + 1, k + 1;
      pageCount := pageCount - 1;
    }
  }

  lemma ErasesSector(f: Flash, sector: nat)
    requires f.Valid() && f.busy == 0 && f.enabled && f.frame == [] && sector < 256
    ensures Released(f.(frame := Header(SECTOR_ERASE, sector * 0x1_0000)))
        == f.Starting().(pages := Erased(f.pages, sector))
  {
    var header := Header(SECTOR_ERASE, sector * 0x1_0000);
    HeaderAddresses(SECTOR_ERASE, sector * 0x1_0000);
    SectorPage(sector);
    hide Header, PageOf, OffsetOf, Erased;
    assert header[..4] == header && header != [PAGE_WRITEEN];
  }

  lemma SectorPage(sector: nat)
    requires sector < 256
    ensures sector * 0x1_0000 / PAGE % PAGES / 256 == sector
  {
    assert sector * 0x1_0000 / PAGE == sector * 256;
  }

  /** The chip after the commands at the start of FlashSpiEraseSector, before the status polls. */
  function EraseStarted(f: Flash, isErase: bool, sector: nat): Flash {
    if f.busy > 0 || !f.Valid() then f
    else if isErase then f.Starting().(pages := Erased(f.pages, sector))
    else f.(enabled := true)
  }

  /**
   FlashSpiEraseSector: on an idle chip the sector is erased; a busy chip ignores the commands, and the
   routine reports success all the same once the chip is idle.
   */
  method FlashSpiEraseSector(bus: Controller<Flash>, slave: nat, isErase: bool, sector: nat) returns (status: nat)
    requires Ready(bus) && sector < 256
    modifies bus
    ensures Ready(bus) && status == 0 ==> bus.state.busy == 0
    ensures Ready(bus) && bus.state == EraseStarted(old(bus.state), isErase, sector).(busy := bus.state.busy)
    ensures status == if EraseStarted(old(bus.state), isErase, sector).busy < STATUS_RETRIES_ERASE then 0 else 1
    ensures old(Brisk(bus.state)) ==> status == 0 && Brisk(bus.state)
  {
    if Brisk(bus.state) {
      StaysBrisk(bus.state, Erased(bus.state.pages, sector));
    }
    var location, rdBuf := new byte[4], new byte[2];
    StartErase(bus, slave, isErase, sector, location);
    ghost var f := bus.state;
    location[0] := PAGE_READST;
    var retries := 0;
    while true
      invariant Ready(bus) && retries <= STATUS_RETRIES_ERASE && location[0] == PAGE_READST
      invariant bus.state == f.(busy := if f.busy > retries then f.busy - retries else 0)
      invariant retries > 0 ==> f.busy >= retries
      decreases STATUS_RETRIES_ERASE - retries
    {
      StatusBits(bus.state);
      ReadStatusBytes(bus, slave, location, rdBuf, 1);
      if retries >= STATUS_RETRIES_ERASE {
        return 1;
      }
      retries := retries + 1;
      if rdBuf[0] & 0x80 == 0 {
        break;
      }
    }
    status := 0;
  }

  method StartErase(bus: Controller<Flash>, slave: nat, isErase: bool, sector: nat, location: array<byte>)
    requires Ready(bus) && sector < 256 && location.Length == 4
    modifies bus, location
    ensures Ready(bus) && bus.state == EraseStarted(old(bus.state), isErase, sector)
  {
    ghost var f := bus.state;
    location[0] := PAGE_WRITEEN;
    SendFrame(bus, slave, location, 1);
    assert location[..1] == [PAGE_WRITEEN];
    if isErase {
      ghost var g := bus.state;
      Locate(location, SECTOR_ERASE, sector * 0x1_0000);
      ghost var header := location[..];
      SendFrame(bus, slave, location, 4);
      assert location[..4] == header;
      if f.busy == 0 {
        ErasesSector(g, sector);
      }
    }
  }

  // ---------------------------------------------------------------------------------------------
  // Round trip.
  // ---------------------------------------------------------------------------------------------

  lemma ProgramBlank(data: seq<byte>)
    requires |data| == PAGE
    ensures Programmed(Blank(), 0, data) == data
  {
    forall j | 0 <= j < PAGE
      ensures (0xFF as byte) & data[j] == data[j] && (j - 0) % PAGE == j
    {
    }
  }

  /** Writing blank pages stores the data, and leaves every other page alone. */
  lemma {:induction false} WrittenPages(pages: seq<seq<byte>>, first: nat, data: seq<byte>, k: nat)
    requires |pages| == PAGES && (forall p :: 0 <= p < PAGES ==> |pages[p]| == PAGE) && k * PAGE <= |data| && k <= PAGES
    requires forall i :: 0 <= i < k ==> pages[PageAt(first, i)] == Blank()
    ensures forall i :: 0 <= i < k
                        ==> Written(pages, first, data, k)[PageAt(first, i)] == data[i * PAGE..(i + 1) * PAGE]
    ensures forall p :: 0 <= p < PAGES && (forall i :: 0 <= i < k ==> PageAt(first, i) != p)
                        ==> Written(pages, first, data, k)[p] == pages[p]
  {
    hide Programmed, PageAt;
    if k > 0 {
      WrittenPages(pages, first, data, k - 1);
      var p := PageAt(first, k - 1);
      forall i | 0 <= i < k - 1
        ensures PageAt(first, i) != p
      {
        Apart(first, i, k - 1);
      }
      ProgramBlank(data[(k - 1) * PAGE..k * PAGE]);
    }
  }

  lemma Apart(first: nat, i: nat, j: nat)
    requires i < j < i + PAGES
    ensures PageAt(first, i) != PageAt(first, j)
  {
  }

  /** Pages written to erased memory read back as the data. */
  lemma {:induction false} RoundTrip(pages: seq<seq<byte>>, first: nat, data: seq<byte>, k: nat, n: nat)
    requires |pages| == PAGES && (forall p :: 0 <= p < PAGES ==> |pages[p]| == PAGE) && k * PAGE <= |data| && k <= PAGES
    requires forall i :: 0 <= i < k ==> pages[PageAt(first, i)] == Blank()
    requires n <= k
    ensures Stored(Written(pages, first, data, k), first, n) == data[..n * PAGE]
  {
    hide Written, Programmed;
    if n > 0 {
      RoundTrip(pages, first, data, k, n - 1);
      WrittenPages(pages, first, data, k);
      assert data[..n * PAGE] == data[..(n - 1) * PAGE] + data[(n - 1) * PAGE..n * PAGE];
    }
  }

  /** The j-th sector from that of page `first` on; sector numbers wrap at the end of the chip. */
  function SectorAt(first: nat, j: nat): (sector: nat)
    ensures sector < 256
  {
    (first % PAGES / 256 + j) % 256
  }

  /** How many sectors `k` pages from page `first` on touch. */
  function Sectors(first: nat, k: nat): nat {
    (first % 256 + k + 255) / 256
  }

  /** Memory after n of these sectors have been erased. */
  function ErasedAll(pages: seq<seq<byte>>, first: nat, n: nat): (ps: seq<seq<byte>>)
    ensures |ps| == |pages|
  {
    if n == 0 then pages else Erased(ErasedAll(pages, first, n - 1), SectorAt(first, n - 1))
  }

  /** Every page of an erased sector is blank, every other page is as before. */
  lemma {:induction false} CoveredBlank(pages: seq<seq<byte>>, first: nat, n: nat, p: nat)
    requires p < |pages|
    ensures ErasedAll(pages, first, n)[p]
            == if exists j :: 0 <= j < n && SectorAt(first, j) == p / 256 then Blank() else pages[p]
  {
    hide SectorAt;
    if n > 0 {
      CoveredBlank(pages, first, n - 1, p);
      if SectorAt(first, n - 1) != p / 256 && (exists j :: 0 <= j < n && SectorAt(first, j) == p / 256) {
        var j :| 0 <= j < n && SectorAt(first, j) == p / 256;
        assert j < n - 1;
      }
    }
  }

  /** Reading is linear: byte j comes from byte address first * PAGE + j, modulo the size of the chip. */
  lemma {:induction false} StoredIsLinear(pages: seq<seq<byte>>, first: nat, k: nat, j: nat)
    requires |pages| == PAGES && (forall p :: 0 <= p < PAGES ==> |pages[p]| == PAGE) && j < k * PAGE
    ensures Stored(pages, first, k)[j] == ByteAt(pages, first * PAGE + j)
  {
    if j < (k - 1) * PAGE {
      StoredIsLinear(pages, first, k - 1, j);
    } else {
      InPage(first, k - 1, j - (k - 1) * PAGE);
    }
  }

  lemma InPage(first: nat, i: nat, j: nat)
    requires j < PAGE
    ensures (first * PAGE + i * PAGE + j) / PAGE % PAGES == PageAt(first, i)
    ensures (first * PAGE + i * PAGE + j) % PAGE == j
  {
    assert first * PAGE + i * PAGE + j == (first + i) * PAGE + j;
  }

  /** Each page written is programmed once, with its part of the data, whatever it held. */
  lemma {:induction false} WrittenOnce(pages: seq<seq<byte>>, first: nat, data: seq<byte>, k: nat, i: nat)
    requires |pages| == PAGES && (forall p :: 0 <= p < PAGES ==> |pages[p]| == PAGE) && k * PAGE <= |data|
    requires i < k <= PAGES
    ensures var p := PageAt(first, i);
      Written(pages, first, data, k)[p] == Programmed(pages[p], 0, data[i * PAGE..(i + 1) * PAGE])
  {
    hide Programmed;
    if i < k - 1 {
      WrittenOnce(pages, first, data, k - 1, i);
      Apart(first, i, k - 1);
    } else {
      NotYetWritten(pages, first, data, k - 1, k - 1);
    }
  }

  lemma {:induction false} NotYetWritten(pages: seq<seq<byte>>, first: nat, data: seq<byte>, k: nat, i: nat)
    requires |pages| == PAGES && (forall p :: 0 <= p < PAGES ==> |pages[p]| == PAGE) && k * PAGE <= |data|
    requires k <= i < PAGES
    ensures Written(pages, first, data, k)[PageAt(first, i)] == pages[PageAt(first, i)]
  {
    hide Programmed;
    if k > 0 {
      NotYetWritten(pages, first, data, k - 1, i);
      Apart(first, k - 1, i);
    }
  }

  /** Writing is linear: byte j clears bits of the one at byte address first * PAGE + j, modulo the size of the chip. */
  lemma WrittenIsLinear(pages: seq<seq<byte>>, first: nat, data: seq<byte>, k: nat, j: nat)
    requires |pages| == PAGES && (forall p :: 0 <= p < PAGES ==> |pages[p]| == PAGE) && k * PAGE <= |data|
    requires k <= PAGES && j < k * PAGE
    ensures ByteAt(Written(pages, first, data, k), first * PAGE + j) == ByteAt(pages, first * PAGE + j) & data[j]
  {
    var i, r := j / PAGE, j % PAGE;
    WrittenOnce(pages, first, data, k, i);
    InPage(first, i, r);
    assert j == i * PAGE + r;
    ProgrammedAt(pages[PageAt(first, i)], data[i * PAGE..(i + 1) * PAGE], r);
    hide Written, Programmed, PageAt;
  }

  lemma ProgrammedAt(page: seq<byte>, data: seq<byte>, j: nat)
    requires |page| == PAGE && |data| == PAGE && j < PAGE
    ensures Programmed(page, 0, data)[j] == page[j] & data[j]
  {
    assert (j - 0) % PAGE == j;
  }

  /** What FlashSpiTransfer has moved, byte by byte. */
  lemma MovedIsLinear(isRead: bool, f: Flash, g: Flash, first: nat, before: seq<byte>, now: seq<byte>, b: nat, k: nat,
      j: nat)
    requires f.Valid() && g.Valid() && b + k * PAGE <= |before| && k <= PAGES && j < k * PAGE
    requires Moved(isRead, f, g, first, before, now, b, k)
    ensures |now| == |before|
    ensures isRead && f.busy == 0 ==> now[b + j] == ByteAt(f.pages, first * PAGE + j)
    ensures !isRead ==> ByteAt(g.pages, first * PAGE + j) == ByteAt(f.pages, first * PAGE + j) & before[b + j]
  {
    hide ByteAt, Stored, Written;
    if isRead {
      if f.busy == 0 {
        StoredIsLinear(f.pages, first, k, j);
      }
    } else {
      WrittenIsLinear(f.pages, first, before[b..], k, j);
    }
  }

  /** Erasing a sector is linear too: its 64 Kbyte become 0xFF, every other byte is kept. */
  lemma ErasedIsLinear(pages: seq<seq<byte>>, sector: nat, a: nat)
    requires |pages| == PAGES && (forall p :: 0 <= p < PAGES ==> |pages[p]| == PAGE)
    ensures ByteAt(Erased(pages, sector), a)
            == if a % 0x100_0000 / 0x1_0000 == sector then 0xFF else ByteAt(pages, a)
  {
    SectorOf(a);
  }

  lemma SectorOf(a: nat)
    ensures a / PAGE % PAGES / 256 == a % 0x100_0000 / 0x1_0000
  {
    var q, r := a / 0x100_0000, a % 0x100_0000;
    PageWithin(q, r);
    var m := r / 256;
    UpperBytes(m / 256, m % 256, r % 256);
    assert m == 256 * (m / 256) + m % 256 && r == 256 * m + r % 256;
  }

  lemma PageWithin(q: nat, r: nat)
    requires r < 0x100_0000
    ensures (q * 0x100_0000 + r) / 256 % 0x1_0000 == r / 256
  {
    assert (q * 0x100_0000 + r) / 256 == q * 0x1_0000 + r / 256;
    Periodic(q, r / 256);
  }

  /** The sectors erased contain all the pages to be written. */
  lemma PageInSector(first: nat, k: nat, i: nat)
    requires i < k
    ensures (first % 256 + i) / 256 < Sectors(first, k)
    ensures PageAt(first, i) / 256 == SectorAt(first, (first % 256 + i) / 256)
  {
    var sector, offset := first % PAGES / 256, first % 256;
    var q, r := (offset + i) / 256, (offset + i) % 256;
    SameOffset(first);
    assert first % PAGES == 256 * sector + offset;
    Reduced(sector + q, r);
    assert first + i == first / PAGES * PAGES + (256 * (sector + q) + r);
    Periodic(first / PAGES, 256 * (sector + q) + r);
  }

  lemma SameOffset(n: nat)
    ensures n % 0x1_0000 % 256 == n % 256
  {
    assert n == n / 0x1_0000 * 256 * 256 + n % 0x1_0000;
  }

  lemma Reduced(m: nat, r: nat)
    requires r < 256
    ensures (256 * m + r) % 0x1_0000 / 256 == m % 256
  {
    assert 256 * m + r == m / 256 * 0x1_0000 + (256 * (m % 256) + r);
    Periodic(m / 256, 256 * (m % 256) + r);
  }

  lemma Periodic(q: nat, x: nat)
    ensures (q * PAGES + x) % PAGES == x % PAGES
  {
  }

  lemma PagesBlank(pages: seq<seq<byte>>, first: nat, k: nat)
    requires |pages| == PAGES
    ensures forall i :: 0 <= i < k ==> ErasedAll(pages, first, Sectors(first, k))[PageAt(first, i)] == Blank()
  {
    forall i | 0 <= i < k
      ensures ErasedAll(pages, first, Sectors(first, k))[PageAt(first, i)] == Blank()
    {
      PageInSector(first, k, i);
      CoveredBlank(pages, first, Sectors(first, k), PageAt(first, i));
    }
  }

  /** Erase every sector that the pages touch. */
  method EraseCovered(bus: Controller<Flash>, slave: nat, first: Word, k: nat) returns (status: nat)
    requires Ready(bus) && bus.state.busy == 0
    modifies bus
    ensures Ready(bus)
    ensures status == 0 ==> bus.state.busy == 0
    ensures status == 0 ==> bus.state.pages == ErasedAll(old(bus.state.pages), first, Sectors(first, k))
    ensures old(Brisk(bus.state)) ==> status == 0 && Brisk(bus.state)
  {
    hide Brisk, SectorAt, Erased;
    ghost var pages := bus.state.pages;
    status := 0;
    for j := 0 to Sectors(first, k)
      invariant Ready(bus) && bus.state.busy == 0 && bus.state.pages == ErasedAll(pages, first, j) && status == 0
      invariant old(Brisk(bus.state)) ==> Brisk(bus.state)
    {
      status := FlashSpiEraseSector(bus, slave, true, SectorAt(first, j));
      if status != 0 {
        return;
      }
    }
  }

  /** A page that lies in none of the sectors touched. */
  ghost predicate Outside(p: nat, first: nat, k: nat) {
    forall j :: 0 <= j < Sectors(first, k) ==> SectorAt(first, j) != p / 256
  }

  /**
   The routines composed: wait until the chip is idle, erase the sectors that the range touches, write its pages,
   wait again, read the pages back. Whenever no step reports an error, what is read is what was to be written, and
   memory outside these sectors is as before; on a chip that is quick enough no step reports one.
   */
  method ProgramAndReadBack(bus: Controller<Flash>, slave: nat, first: Word, data: array<byte>, back: array<byte>)
    returns (ok: bool)
    requires Ready(bus)
    requires data != back && data.Length == back.Length < 0x1_0000 && data.Length % PAGE == 0
    modifies bus, data, back
    ensures Ready(bus)
    ensures ok ==> back[..] == old(data[..])
    ensures ok ==> forall p :: 0 <= p < PAGES && Outside(p, first, data.Length / PAGE)
                               ==> bus.state.pages[p] == old(bus.state).pages[p]
    ensures old(Brisk(bus.state)) ==> ok
  {
    hide Moved, Stored, Written, Erased, ErasedAll, Sectors, Overwrite, Released, Brisk, Outside, PageAt;
    ghost var f, d, k := bus.state, data[..], data.Length / PAGE;
    PagesBlank(f.pages, first, k);
    var status := FlashSpiEraseSector(bus, slave, false, 0);
    if status != 0 {
      return false;
    }
    status := EraseCovered(bus, slave, first, data.Length / PAGE);
    if status != 0 {
      return false;
    }
    ghost var g := bus.state;
    ghost var done;
    status, done := FlashSpiTransfer(bus, slave, first, data.Length, data, 0, false);
    if status != 0 {
      return false;
    }
    WriteWhole(g, bus.state, first, d, data[..], k);
    status := FlashSpiEraseSector(bus, slave, false, 0);
    if status != 0 {
      return false;
    }
    ghost var h, was := bus.state, back[..];
    status, done := FlashSpiTransfer(bus, slave, first, back.Length, back, 0, true);
    ReadWhole(h, bus.state, first, was, back[..], k);
    RoundTrip(g.pages, first, d, k, k);
    OthersKept(f.pages, first, d, k);
    ok := true;
  }

  lemma OthersKept(pages: seq<seq<byte>>, first: nat, data: seq<byte>, k: nat)
    requires |pages| == PAGES
    requires forall p :: 0 <= p < PAGES ==> |ErasedAll(pages, first, Sectors(first, k))[p]| == PAGE
    requires k * PAGE <= |data| && k <= PAGES
    requires forall i :: 0 <= i < k ==> ErasedAll(pages, first, Sectors(first, k))[PageAt(first, i)] == Blank()
    ensures forall p :: 0 <= p < PAGES && Outside(p, first, k)
                        ==> Written(ErasedAll(pages, first, Sectors(first, k)), first, data, k)[p] == pages[p]
  {
    var erased := ErasedAll(pages, first, Sectors(first, k));
    WrittenPages(erased, first, data, k);
    forall p | 0 <= p < PAGES && Outside(p, first, k)
      ensures Written(erased, first, data, k)[p] == pages[p]
    {
      CoveredBlank(pages, first, Sectors(first, k), p);
      forall i | 0 <= i < k
        ensures PageAt(first, i) != p
      {
        PageInSector(first, k, i);
      }
    }
  }

  /** Transfers of a whole buffer. */
  lemma WriteWhole(f: Flash, g: Flash, first: nat, before: seq<byte>, now: seq<byte>, k: nat)
    requires f.Valid() && g.Valid() && k * PAGE == |before| && Moved(false, f, g, first, before, now, 0, k)
    ensures now == before && g.pages == Written(f.pages, first, before, k)
  {
    assert before[0..] == before;
  }

  lemma ReadWhole(f: Flash, g: Flash, first: nat, before: seq<byte>, now: seq<byte>, k: nat)
    requires f.Valid() && g.Valid() && f.busy == 0 && k * PAGE == |before|
        && Moved(true, f, g, first, before, now, 0, k)
    ensures g == f && now == Stored(f.pages, first, k)
  {
  }
}
