/** The file-descriptor pool as a value, and what open, close, ioctl and fcntl do to it. */
module FdSpec {
  /**
   A pointer to an alt_dev, which has one list node and so is registered either as a device or as a file system.
   */
  datatype Dev = Null | CharDev(id: nat) | FileSystem(id: nat)

  /** alt_dev_null */
  const NULL_DEVICE: Dev := CharDev(0)

  const MAX_FD: nat := 32
  const FD_EXCL: bv32 := 0x8000_0000
  const FD_DEV: bv32 := 0x4000_0000
  const FD_FLAGS_MASK: bv32 := 0xC000_0000
  const O_APPEND: bv32 := 0x0008
  const O_NONBLOCK: bv32 := 0x4000
  const FCNTL_FLAGS_MASK: bv32 := O_APPEND | O_NONBLOCK
  const TIOCEXCL: int := 0x740d
  const TIOCNXCL: int := 0x740e

  datatype Slot = Slot(dev: Dev, flags: bv32)

  const FREE: Slot := Slot(Null, 0)

  /** The descriptor list and alt_max_fd. */
  datatype Table = Table(slots: seq<Slot>, high: int)

  datatype Error = ENODEV | EMFILE | EACCES | EBADFD | EINVAL | ENOTTY | FromDriver(n: nat)

  datatype Outcome = Success(value: int) | Failure(error: Error)

  /** What the name given to open refers to. */
  datatype Target = NotFound | Found(dev: Dev)

  /** A system call. `driver` is what the driver's own routine returns, if there is one and it is reached. */
  datatype Call =
    | Open(target: Target, mode: bv32, driver: int)
    | Close(fd: int, driver: int)
    | Ioctl(fd: int, req: int, driver: int)
    | GetFlags(fd: int)
    | SetFlags(fd: int, arg: bv32)
    | OtherControl(fd: int)

  predicate Has(s: Slot, bit: bv32) {
    s.flags & bit != 0
  }

  /** The flag words that open, the two lock requests and F_SETFL store. */
  function OpenFlags(mode: bv32, isDevice: bool): bv32 {
    (mode & !FD_FLAGS_MASK) | (if isDevice then FD_DEV else 0)
  }

  function LockFlags(f: bv32): bv32 {
    f | FD_EXCL
  }

  function UnlockFlags(f: bv32): bv32 {
    f & !FD_EXCL
  }

  function StatusFlags(f: bv32, arg: bv32): bv32 {
    (f & !FCNTL_FLAGS_MASK) | (arg & FCNTL_FLAGS_MASK)
  }

  /** The lowest free slot, or MAX_FD. */
  function FirstFree(slots: seq<Slot>): (i: nat)
    ensures i <= |slots|
    ensures forall j :: 0 <= j < i ==> slots[j].dev != Null
    ensures i < |slots| ==> slots[i].dev == Null
  {
    if slots == [] then 0
    else if slots[0].dev == Null then 0
    else
      var k := FirstFree(slots[1..]);
      assert forall j :: 0 < j < k + 1 ==> slots[j] == slots[1..][j - 1];
      k + 1
  }

  /** Some descriptor other than `fd`, up to the high-water mark, holds the device exclusively. */
  ghost predicate LockedElsewhere(t: Table, dev: Dev, fd: nat) {
    exists j :: 0 <= j < |t.slots| && j <= t.high && j != fd && t.slots[j].dev == dev && Has(t.slots[j], FD_EXCL)
  }

  /** Some other descriptor below the high-water mark refers to the device; the mark itself is not looked at. */
  ghost predicate SharedBelow(t: Table, dev: Dev, fd: nat) {
    exists j :: 0 <= j < |t.slots| && j < t.high && j != fd && t.slots[j].dev == dev
  }

  function Release(t: Table, i: int): Table
    requires i < |t.slots|
  {
    if i > 2 then t.(slots := t.slots[i := FREE]) else t
  }

  function Claim(t: Table, i: nat, s: Slot): Table
    requires i < |t.slots|
  {
    Table(t.slots[i := s], if i > t.high then i else t.high)
  }

  ghost function OpenStep(t: Table, target: Target, mode: bv32, driver: int): (Table, Outcome) {
    if target.NotFound? then (t, Failure(ENODEV))
    else
      var i := FirstFree(t.slots);
      if i == |t.slots| then (t, Failure(EMFILE))
      else
        var u := Claim(t, i, Slot(target.dev, OpenFlags(mode, target.dev.CharDev?)));
        if target.dev.CharDev? && LockedElsewhere(u, target.dev, i) then (Release(u, i), Failure(EACCES))
        else if driver < 0 then (Release(u, i), Failure(FromDriver(-driver)))
        else (u, Success(i))
  }

  ghost function Step(t: Table, call: Call): (Table, Outcome)
    requires Callable(t, call)
  {
    match call
    case Open(target, mode, driver) => OpenStep(t, target, mode, driver)
    case Close(fd, driver) =>
      if fd < 0 then (t, Failure(EBADFD))
      else (Release(t, fd), if driver < 0 then Failure(FromDriver(-driver)) else Success(0))
    case Ioctl(fd, req, driver) =>
      if fd < 0 then (t, Failure(EBADFD))
      else
        var s := t.slots[fd];
        if Has(s, FD_DEV) && req == TIOCEXCL then
          if SharedBelow(t, s.dev, fd) then (t, Failure(EACCES))
          else (t.(slots := t.slots[fd := s.(flags := LockFlags(s.flags))]), Success(0))
        else if Has(s, FD_DEV) && req == TIOCNXCL then
          (t.(slots := t.slots[fd := s.(flags := UnlockFlags(s.flags))]), Success(0))
        else (t, if driver < 0 then Failure(FromDriver(-driver)) else Success(driver))
    case GetFlags(fd) =>
      if fd < 0 then (t, Failure(EBADFD)) else (t, Success((t.slots[fd].flags & !FD_FLAGS_MASK) as int))
    case SetFlags(fd, arg) =>
      if fd < 0 then (t, Failure(EBADFD))
      else
        var s := t.slots[fd];
        (t.(slots := t.slots[fd := s.(flags := StatusFlags(s.flags, arg))]), Success(0))
    case OtherControl(fd) => (t, Failure(if fd < 0 then EBADFD else EINVAL))
  }

  /** What the code relies on: descriptors in range, and open ones where it follows the device pointer. */
  predicate Callable(t: Table, call: Call) {
    match call
    case Open(target, _, _) => !target.NotFound? ==> target.dev != Null
    case Close(fd, _) => fd < |t.slots| && (0 <= fd ==> t.slots[fd].dev != Null)
    case Ioctl(fd, _, _) => fd < |t.slots| && (0 <= fd ==> t.slots[fd].dev != Null)
    case GetFlags(fd) => fd < |t.slots|
    case SetFlags(fd, _) => fd < |t.slots|
    case OtherControl(fd) => fd < |t.slots|
  }

  /** The pool at start-up: three descriptors on the null device, and a mark below them. */
  function Initial(): Table {
    Table([Slot(NULL_DEVICE, 0), Slot(NULL_DEVICE, 0), Slot(NULL_DEVICE, 0)] + seq(29, _ => FREE), -1)
  }

  // ---------------------------------------------------------------------------------------------
  // Runs.
  // ---------------------------------------------------------------------------------------------

  ghost predicate Legal(t: Table, calls: seq<Call>)
    decreases |calls|
  {
    calls == [] || (Callable(t, calls[0]) && Legal(Step(t, calls[0]).0, calls[1..]))
  }

  ghost function Run(t: Table, calls: seq<Call>): Table
    requires Legal(t, calls)
    decreases |calls|
  {
    if calls == [] then t else Run(Step(t, calls[0]).0, calls[1..])
  }

  /** What holds of the pool after any run. */
  ghost predicate Inv(t: Table) {
    && |t.slots| == MAX_FD && -1 <= t.high < MAX_FD
    && (forall i :: 0 <= i <= 2 ==> t.slots[i].dev != Null)
    && (forall i :: 2 < i < MAX_FD && t.slots[i].dev != Null ==> i <= t.high)
    && (forall i :: 0 <= i < MAX_FD && Has(t.slots[i], FD_DEV) ==> t.slots[i].dev.CharDev? && i <= t.high)
    && (forall i :: 0 <= i < MAX_FD && Has(t.slots[i], FD_EXCL) ==> Has(t.slots[i], FD_DEV))
  }

  /** The effect of each on the two bits that are not the caller's. */
  lemma OpenBits(mode: bv32, isDevice: bool)
    ensures OpenFlags(mode, isDevice) & FD_EXCL == 0
    ensures (OpenFlags(mode, isDevice) & FD_DEV != 0) == isDevice
  {
  }

  lemma LockBits(f: bv32)
    ensures LockFlags(f) & FD_EXCL != 0 && LockFlags(f) & FD_DEV == f & FD_DEV
  {
  }

  lemma UnlockBits(f: bv32)
    ensures UnlockFlags(f) & FD_EXCL == 0 && UnlockFlags(f) & FD_DEV == f & FD_DEV
  {
  }

  lemma StatusBits(f: bv32, arg: bv32)
    ensures StatusFlags(f, arg) & FD_EXCL == f & FD_EXCL && StatusFlags(f, arg) & FD_DEV == f & FD_DEV
  {
  }

  lemma FlagBits(f: bv32, arg: bv32, dev: Dev)
    ensures Has(Slot(dev, LockFlags(f)), FD_EXCL) && Has(Slot(dev, LockFlags(f)), FD_DEV) == Has(Slot(dev, f), FD_DEV)
    ensures !Has(Slot(dev, UnlockFlags(f)), FD_EXCL)
        && Has(Slot(dev, UnlockFlags(f)), FD_DEV) == Has(Slot(dev, f), FD_DEV)
    ensures Has(Slot(dev, StatusFlags(f, arg)), FD_EXCL) == Has(Slot(dev, f), FD_EXCL)
    ensures Has(Slot(dev, StatusFlags(f, arg)), FD_DEV) == Has(Slot(dev, f), FD_DEV)
    ensures !Has(FREE, FD_EXCL) && !Has(FREE, FD_DEV)
  {
    LockBits(f);
    UnlockBits(f);
    StatusBits(f, arg);
    hide LockFlags, UnlockFlags, StatusFlags;
  }

  lemma InitialInv()
    ensures Inv(Initial())
  {
  }

  /** Changing one slot to a state the invariant allows. */
  lemma SlotInv(t: Table, i: nat, s: Slot)
    requires Inv(t) && i < MAX_FD
    requires (Has(s, FD_EXCL) ==> Has(s, FD_DEV)) && (Has(s, FD_DEV) ==> Has(t.slots[i], FD_DEV))
    requires s.dev == t.slots[i].dev || (i > 2 && s.dev == Null && !Has(s, FD_DEV))
    ensures Inv(t.(slots := t.slots[i := s]))
  {
    hide Has;
  }

  lemma ClaimInv(t: Table, s: Slot)
    requires Inv(t) && FirstFree(t.slots) < MAX_FD && s.dev != Null && !Has(s, FD_EXCL)
        && (Has(s, FD_DEV) ==> s.dev.CharDev?)
    ensures Inv(Claim(t, FirstFree(t.slots), s))
  {
    hide Has;
  }

  lemma OpenInv(t: Table, target: Target, mode: bv32, driver: int)
    requires Inv(t) && (!target.NotFound? ==> target.dev != Null)
    ensures Inv(OpenStep(t, target, mode, driver).0)
  {
    Facts(t);
    hide Inv, OpenFlags;
    var i := FirstFree(t.slots);
    if !target.NotFound? && i < |t.slots| {
      OpenBits(mode, target.dev.CharDev?);
      var u := Claim(t, i, Slot(target.dev, OpenFlags(mode, target.dev.CharDev?)));
      ClaimInv(t, Slot(target.dev, OpenFlags(mode, target.dev.CharDev?)));
      if i > 2 {
        SlotInv(u, i, FREE);
      }
    }
  }

  lemma Facts(t: Table)
    requires Inv(t)
    ensures |t.slots| == MAX_FD
    ensures forall i :: 0 <= i < MAX_FD && Has(t.slots[i], FD_EXCL) ==> Has(t.slots[i], FD_DEV)
  {
  }

  lemma StepInv(t: Table, call: Call)
    requires Inv(t) && Callable(t, call)
    ensures Inv(Step(t, call).0)
  {
    Facts(t);
    var fd := if call.Open? || call.fd < 0 then 0 else call.fd;
    var s := t.slots[fd];
    FlagBits(s.flags, if call.SetFlags? then call.arg else 0, s.dev);
    hide Inv, Has, OpenStep, SharedBelow, LockFlags, UnlockFlags, StatusFlags;
    match call {
      case Open(target, mode, driver) => OpenInv(t, target, mode, driver);
      case Close(_, driver) =>
        if fd > 2 {
          SlotInv(t, fd, FREE);
        }
      case Ioctl(_, req, driver) =>
        if Has(s, FD_DEV) {
          SlotInv(t, fd, s.(flags := LockFlags(s.flags)));
          SlotInv(t, fd, s.(flags := UnlockFlags(s.flags)));
        }
      case GetFlags(_) =>
      case OtherControl(_) =>
      case SetFlags(_, arg) => SlotInv(t, fd, s.(flags := StatusFlags(s.flags, arg)));
    }
  }

  /** Descriptor `e` holds its device, an open one, exclusively. */
  predicate Holds(t: Table, e: nat) {
    e < |t.slots| && Has(t.slots[e], FD_EXCL)
  }

  /** The other descriptors on the device of `e`. */
  ghost function Others(t: Table, e: nat): set<nat>
    requires e < |t.slots|
  {
    set j: nat | j < |t.slots| && j != e && t.slots[j].dev == t.slots[e].dev
  }

  /** The call neither closes the holder nor gives up its lock. */
  predicate KeepsLock(call: Call, e: nat) {
    !(call.Close? && call.fd == e) && !(call.Ioctl? && call.fd == e && call.req == TIOCNXCL)
  }

  /** An exclusively held device cannot be opened. */
  lemma OpenExclusive(t: Table, target: Target, mode: bv32, driver: int, e: nat)
    requires Inv(t) && Holds(t, e) && target == Found(t.slots[e].dev)
    ensures OpenStep(t, target, mode, driver).1 == Failure(if FirstFree(t.slots) == MAX_FD then EMFILE else EACCES)
  {
    var i := FirstFree(t.slots);
    if i < MAX_FD {
      var u := Claim(t, i, Slot(target.dev, OpenFlags(mode, true)));
      assert u.slots[e] == t.slots[e] && e <= u.high && e != i;
      assert LockedElsewhere(u, target.dev, i);
    }
  }

  lemma OpenStepExclusive(t: Table, target: Target, mode: bv32, driver: int, e: nat)
    requires Inv(t) && Holds(t, e) && (!target.NotFound? ==> target.dev != Null)
    ensures var u := OpenStep(t, target, mode, driver).0;
      Holds(u, e) && u.slots[e].dev == t.slots[e].dev && Others(u, e) <= Others(t, e)
  {
    OpenStepKeepsHolder(t, target, mode, driver, e);
    var i, u := FirstFree(t.slots), OpenStep(t, target, mode, driver).0;
    if target == Found(t.slots[e].dev) {
      OpenExclusive(t, target, mode, driver, e);
    }
    hide Holds, Inv, SharedBelow;
    assert forall j :: 0 <= j < |t.slots| && j != i ==> u.slots[j] == t.slots[j];
  }

  lemma OpenStepKeepsHolder(t: Table, target: Target, mode: bv32, driver: int, e: nat)
    requires Inv(t) && Holds(t, e)
    ensures var u := OpenStep(t, target, mode, driver).0;
      Holds(u, e) && u.slots[e] == t.slots[e] && FirstFree(t.slots) != e && |u.slots| == |t.slots| == MAX_FD
  {
    assert FirstFree(t.slots) != e;
  }

  /** One call cannot put another descriptor on an exclusively held device. */
  lemma StepExclusive(t: Table, call: Call, e: nat)
    requires Inv(t) && Callable(t, call) && Holds(t, e)
    requires KeepsLock(call, e)
    ensures var u := Step(t, call).0;
      Holds(u, e) && u.slots[e].dev == t.slots[e].dev && Others(u, e) <= Others(t, e)
  {
    Facts(t);
    var fd := if call.Open? || call.fd < 0 then 0 else call.fd;
    var s := t.slots[fd];
    FlagBits(s.flags, if call.SetFlags? then call.arg else 0, s.dev);
    HolderOpen(t, e);
    hide Inv, Has, OpenStep, SharedBelow, LockFlags, UnlockFlags, StatusFlags, Others;
    match call {
      case Open(target, mode, driver) => OpenStepExclusive(t, target, mode, driver, e);
      case Close(_, driver) =>
        if fd > 2 {
          ChangedSlot(t, e, fd, FREE);
        }
      case Ioctl(_, req, driver) =>
        ChangedSlot(t, e, fd, s.(flags := LockFlags(s.flags)));
        ChangedSlot(t, e, fd, s.(flags := UnlockFlags(s.flags)));
      case GetFlags(_) =>
      case OtherControl(_) =>
      case SetFlags(_, arg) => ChangedSlot(t, e, fd, s.(flags := StatusFlags(s.flags, arg)));
    }
  }

  lemma HolderOpen(t: Table, e: nat)
    requires Inv(t) && Holds(t, e)
    ensures t.slots[e].dev != Null
  {
  }

  lemma ChangedSlot(t: Table, e: nat, i: nat, s: Slot)
    requires Holds(t, e) && i < |t.slots|
    requires s.dev == t.slots[i].dev || (i != e && s.dev == Null && t.slots[e].dev != Null)
    ensures var u := t.(slots := t.slots[i := s]);
      u.slots[e].dev == t.slots[e].dev && Others(u, e) <= Others(t, e) && (i != e ==> Holds(u, e))
  {
  }

  /**
   Over any run that neither closes nor unlocks the holder, the set of other descriptors on its device never
   grows.
   */
  lemma {:induction false} RunExclusive(t: Table, calls: seq<Call>, e: nat)
    requires Inv(t) && Legal(t, calls) && Holds(t, e)
    requires forall i :: 0 <= i < |calls| ==> KeepsLock(calls[i], e)
    ensures var u := Run(t, calls);
      Inv(u) && Holds(u, e) && u.slots[e].dev == t.slots[e].dev && Others(u, e) <= Others(t, e)
    decreases |calls|
  {
    if calls != [] {
      StepInv(t, calls[0]);
      StepExclusive(t, calls[0], e);
      RunExclusive(Step(t, calls[0]).0, calls[1..], e);
    }
  }

  /** Every run from start-up keeps the invariant. */
  lemma {:induction false} RunInv(t: Table, calls: seq<Call>)
    requires Inv(t) && Legal(t, calls)
    ensures Inv(Run(t, calls))
    decreases |calls|
  {
    if calls != [] {
      StepInv(t, calls[0]);
      RunInv(Step(t, calls[0]).0, calls[1..]);
    }
  }

  /** A failed open leaves every open descriptor as it was, and opens none. */
  lemma FailedOpenRestores(t: Table, call: Call)
    requires Inv(t) && call.Open? && Callable(t, call) && Step(t, call).1.Failure?
    ensures var u := Step(t, call).0;
      u.slots == t.slots || u.slots == t.slots[FirstFree(t.slots) := FREE]
    ensures forall i :: 0 <= i < MAX_FD && t.slots[i].dev != Null ==> Step(t, call).0.slots[i] == t.slots[i]
    ensures forall i :: 0 <= i < MAX_FD && t.slots[i].dev == Null ==> Step(t, call).0.slots[i].dev == Null
  {
  }

  /** A successful open takes the lowest free slot, and no other slot changes. */
  lemma OpenTakesLowest(t: Table, call: Call)
    requires Inv(t) && call.Open? && Callable(t, call) && Step(t, call).1.Success?
    ensures var u, i := Step(t, call).0, Step(t, call).1.value;
      && 2 < i < MAX_FD && t.slots[i].dev == Null && (forall j :: 0 <= j < i ==> t.slots[j].dev != Null)
      && u.slots == t.slots[i := u.slots[i]] && u.slots[i].dev == call.target.dev && i <= u.high
  {
  }

  /**
   The comment on alt_fd_lock promises the lock only to a descriptor that is alone on its device. The scan
   stops below the high-water mark, so a granted lock is exclusive if and only if the slot at the mark
   is the holder's own or belongs to another device.
   */
  lemma GrantedLockIsSole(t: Table, fd: nat, driver: int)
    requires Inv(t) && fd < MAX_FD && Has(t.slots[fd], FD_DEV)
    requires Step(t, Ioctl(fd, TIOCEXCL, driver)).1 == Success(0)
    ensures (forall j :: 2 < j < MAX_FD && j != fd ==> t.slots[j].dev != t.slots[fd].dev)
            <==> t.high == fd || t.high <= 2 || t.slots[t.high].dev != t.slots[fd].dev
  {
  }

  /** Two descriptors on one device; the lower one is granted the lock. */
  lemma LockMissesTheTopDescriptor()
    ensures var t := Table([Slot(NULL_DEVICE, 0), Slot(NULL_DEVICE, 0), Slot(NULL_DEVICE, 0),
        Slot(CharDev(7), FD_DEV), Slot(CharDev(7), FD_DEV)] + seq(27, _ => FREE), 4);
      Inv(t) && Step(t, Ioctl(3, TIOCEXCL, 0)).1 == Success(0)
      && Holds(Step(t, Ioctl(3, TIOCEXCL, 0)).0, 3) && 4 in Others(Step(t, Ioctl(3, TIOCEXCL, 0)).0, 3)
  {
    FlagBits(FD_DEV, 0, CharDev(7));
  }

  // ---------------------------------------------------------------------------------------------
  // What each call does, slot by slot.
  // ---------------------------------------------------------------------------------------------

  /** The flags without the two internal bits, and without the lock bit. */
  function Visible(f: bv32): bv32 {
    f & 0x3FFF_FFFF
  }

  function BesidesLock(f: bv32): bv32 {
    f & 0x7FFF_FFFF
  }

  /** O_APPEND and O_NONBLOCK, and all other bits. */
  function Asked(f: bv32): bv32 {
    f & 0x4008
  }

  function Unasked(f: bv32): bv32 {
    f & 0xFFFF_BFF7
  }

  /** A device or file system that is held exclusively through some slot other than i. */
  ghost predicate HeldBesides(t: Table, dev: Dev, i: nat) {
    exists j :: 0 <= j < |t.slots| && j != i && t.slots[j].dev == dev && Has(t.slots[j], FD_EXCL)
  }

  /**
   open succeeds if and only if the name is known, a slot is free, a device is not held through another slot, and
   the driver agrees.
   */
  lemma OpenGranted(t: Table, target: Target, mode: bv32, driver: int)
    requires Inv(t) && (!target.NotFound? ==> target.dev != Null)
    ensures Step(t, Open(target, mode, driver)).1.Success?
      <==> && !target.NotFound? && (exists j :: 0 <= j < MAX_FD && t.slots[j].dev == Null)
           && (target.dev.CharDev? ==> !HeldBesides(t, target.dev, FirstFree(t.slots)))
           && driver >= 0
  {
    var i := FirstFree(t.slots);
    Facts(t);
    if !target.NotFound? && i < MAX_FD {
      var u := Claim(t, i, Slot(target.dev, OpenFlags(mode, target.dev.CharDev?)));
      LockedIsHeld(t, u, target.dev, i);
      assert t.slots[i].dev == Null;
    }
    hide OpenFlags, Inv, HeldBesides, LockedElsewhere;
  }

  /** Which error a refused open reports: the first of these that applies. */
  lemma OpenRefused(t: Table, target: Target, mode: bv32, driver: int)
    requires Inv(t) && (!target.NotFound? ==> target.dev != Null)
    requires Step(t, Open(target, mode, driver)).1.Failure?
    ensures Step(t, Open(target, mode, driver)).1
      == Failure(if target.NotFound? then ENODEV
                 else if forall j :: 0 <= j < MAX_FD ==> t.slots[j].dev != Null then EMFILE
                 else if target.dev.CharDev? && HeldBesides(t, target.dev, FirstFree(t.slots)) then EACCES
                 else FromDriver(-driver))
  {
    var i := FirstFree(t.slots);
    Facts(t);
    if !target.NotFound? && i < MAX_FD {
      var u := Claim(t, i, Slot(target.dev, OpenFlags(mode, target.dev.CharDev?)));
      LockedIsHeld(t, u, target.dev, i);
      assert t.slots[i].dev == Null;
    }
    hide OpenFlags, Inv, HeldBesides, LockedElsewhere;
  }

  /** A descriptor that is granted has the caller's flags, and is marked as a device or not. */
  lemma OpenedFlags(t: Table, target: Target, mode: bv32, driver: int)
    requires Inv(t) && (!target.NotFound? ==> target.dev != Null)
    requires Step(t, Open(target, mode, driver)).1.Success?
    ensures var (u, r) := Step(t, Open(target, mode, driver));
      && 0 <= r.value < |u.slots| && u.slots[r.value].dev == target.dev
      && Visible(u.slots[r.value].flags) == Visible(mode)
      && !Has(u.slots[r.value], FD_EXCL) && (Has(u.slots[r.value], FD_DEV) <==> target.dev.CharDev?)
  {
    OpenBits(mode, target.dev.CharDev?);
    CallerBits(mode, target.dev.CharDev?);
    FlagMeaning(Slot(target.dev, OpenFlags(mode, target.dev.CharDev?)));
    hide OpenFlags, Inv, LockedElsewhere, Visible, Has;
  }

  lemma FlagMeaning(s: Slot)
    ensures Has(s, FD_EXCL) == (s.flags & FD_EXCL != 0) && Has(s, FD_DEV) == (s.flags & FD_DEV != 0)
  {
  }

  lemma CallerBits(mode: bv32, isDevice: bool)
    ensures Visible(OpenFlags(mode, isDevice)) == Visible(mode)
  {
  }

  /** The scan up to alt_max_fd finds every holder. */
  lemma LockedIsHeld(t: Table, u: Table, dev: Dev, i: nat)
    requires Inv(t) && i < MAX_FD == |u.slots| && u.slots == t.slots[i := u.slots[i]] && u.high >= t.high
    ensures LockedElsewhere(u, dev, i) <==> HeldBesides(t, dev, i)
  {
    hide Has;
    if HeldBesides(t, dev, i) {
      var j :| 0 <= j < |t.slots| && j != i && t.slots[j].dev == dev && Has(t.slots[j], FD_EXCL);
      assert u.slots[j] == t.slots[j] && j <= t.high;
    }
    if LockedElsewhere(u, dev, i) {
      var j :| 0 <= j < |u.slots| && j <= u.high && j != i && u.slots[j].dev == dev && Has(u.slots[j], FD_EXCL);
      assert u.slots[j] == t.slots[j];
    }
  }

  /** The descriptors that are in use. */
  ghost function InUse(t: Table): set<nat> {
    set j: nat | j < |t.slots| && t.slots[j].dev != Null
  }

  /**
   close frees a slot above 2, whatever the driver says, leaves the standard ones alone, and touches no other. Of
   the slots in use only the closed one goes.
   */
  lemma CloseFrees(t: Table, fd: nat, driver: int)
    requires Inv(t) && fd < MAX_FD && t.slots[fd].dev != Null
    ensures var u := Step(t, Close(fd, driver)).0;
      && |u.slots| == MAX_FD && u.high == t.high
      && (forall j :: 0 <= j < MAX_FD && j != fd ==> u.slots[j] == t.slots[j])
      && (if fd > 2 then u.slots[fd].dev == Null && u.slots[fd].flags == 0 else u.slots[fd] == t.slots[fd])
      && InUse(u) == InUse(t) - (if fd > 2 then {fd} else {})
    ensures Step(t, Close(fd, driver)).1 == if driver < 0 then Failure(FromDriver(-driver)) else Success(0)
  {
  }

  /** A freed slot is taken again by one of the next opens: the first that succeeds takes it, or a lower one. */
  lemma FreedIsReused(t: Table, fd: nat, driver: int, call: Call)
    requires Inv(t) && 2 < fd < MAX_FD && t.slots[fd].dev != Null
    requires call.Open? && Callable(t, call) && Step(Step(t, Close(fd, driver)).0, call).1.Success?
    ensures Step(Step(t, Close(fd, driver)).0, call).1.value <= fd
  {
    StepInv(t, Close(fd, driver));
    CloseFrees(t, fd, driver);
    OpenTakesLowest(Step(t, Close(fd, driver)).0, call);
    hide Step, Inv;
    assert Step(t, Close(fd, driver)).0.slots[fd].dev == Null;
  }

  /** open followed by close restores every slot but a free one, which loses its flags. */
  lemma OpenThenClose(t: Table, call: Call, driver: int)
    requires Inv(t) && call.Open? && Callable(t, call) && Step(t, call).1.Success?
    ensures var u, i := Step(t, call).0, Step(t, call).1.value;
      && 2 < i < |u.slots| && Callable(u, Close(i, driver))
      && InUse(Step(u, Close(i, driver)).0) == InUse(t)
      && Step(u, Close(i, driver)).0.slots == t.slots[i := FREE]
  {
    OpenTakesLowest(t, call);
    StepInv(t, call);
    var u, i := Step(t, call).0, Step(t, call).1.value;
    var v := Step(u, Close(i, driver)).0;
    CloseFrees(u, i, driver);
    hide Step, Inv;
    assert v.slots[i] == FREE;
    assert forall j :: 0 <= j < MAX_FD && j != i ==> v.slots[j] == t.slots[j];
    assert v.slots == t.slots[i := FREE];
  }

  /** TIOCEXCL on a device is granted exactly if no other slot below alt_max_fd is on it, and changes one bit. */
  lemma LockGranted(t: Table, fd: nat, driver: int)
    requires Inv(t) && fd < MAX_FD && Has(t.slots[fd], FD_DEV)
    ensures var (u, r) := Step(t, Ioctl(fd, TIOCEXCL, driver));
      && (forall j :: 0 <= j < MAX_FD && j != fd ==> u.slots[j] == t.slots[j]) && u.slots[fd].dev == t.slots[fd].dev
      && (r.Success? <==> forall j :: 0 <= j < t.high && j != fd ==> t.slots[j].dev != t.slots[fd].dev)
      && (r.Success? ==> Holds(u, fd) && BesidesLock(u.slots[fd].flags) == BesidesLock(t.slots[fd].flags))
      && (r.Failure? ==> r == Failure(EACCES) && u == t)
  {
    LockBit(t.slots[fd].flags, t.slots[fd].dev);
    LockKeeps(t.slots[fd].flags);
    hide LockFlags, BesidesLock, Has;
  }

  lemma LockBit(f: bv32, dev: Dev)
    ensures Has(Slot(dev, LockFlags(f)), FD_EXCL)
  {
  }

  lemma LockKeeps(f: bv32)
    ensures BesidesLock(LockFlags(f)) == BesidesLock(f)
  {
  }

  lemma UnlockBit(f: bv32, dev: Dev)
    ensures !Has(Slot(dev, UnlockFlags(f)), FD_EXCL)
  {
  }

  lemma UnlockKeeps(f: bv32)
    ensures BesidesLock(UnlockFlags(f)) == BesidesLock(f)
  {
  }

  /** TIOCNXCL ends the lock, and changes nothing else. */
  lemma UnlockEnds(t: Table, fd: nat, driver: int)
    requires Inv(t) && fd < MAX_FD && Has(t.slots[fd], FD_DEV)
    ensures var (u, r) := Step(t, Ioctl(fd, TIOCNXCL, driver));
      && r == Success(0) && !Holds(u, fd) && |u.slots| == MAX_FD
      && (forall j :: 0 <= j < MAX_FD && j != fd ==> u.slots[j] == t.slots[j])
      && u.slots[fd].dev == t.slots[fd].dev && BesidesLock(u.slots[fd].flags) == BesidesLock(t.slots[fd].flags)
  {
    UnlockBit(t.slots[fd].flags, t.slots[fd].dev);
    UnlockKeeps(t.slots[fd].flags);
    hide UnlockFlags, BesidesLock, Has;
  }

  /** After it, unless a further descriptor holds the device too, an open of the device is not refused. */
  lemma UnlockAdmits(t: Table, fd: nat, driver: int, mode: bv32)
    requires Inv(t) && fd < MAX_FD && Has(t.slots[fd], FD_DEV) && driver >= 0
    requires forall j :: 0 <= j < MAX_FD && j != fd && t.slots[j].dev == t.slots[fd].dev ==> !Has(t.slots[j], FD_EXCL)
    requires exists j :: 0 <= j < MAX_FD && t.slots[j].dev == Null
    ensures var u := Step(t, Ioctl(fd, TIOCNXCL, driver)).0;
      Step(u, Open(Found(t.slots[fd].dev), mode, driver)).1.Success?
  {
    StepInv(t, Ioctl(fd, TIOCNXCL, driver));
    UnlockEnds(t, fd, driver);
    var u := Step(t, Ioctl(fd, TIOCNXCL, driver)).0;
    var free :| 0 <= free < MAX_FD && t.slots[free].dev == Null;
    assert u.slots[free].dev == Null;
    OpenGranted(u, Found(t.slots[fd].dev), mode, driver);
    hide Step;
  }

  /** Closing the holder admits others likewise. */
  lemma CloseAdmits(t: Table, fd: nat, closing: int, mode: bv32, driver: int)
    requires Inv(t) && 2 < fd < MAX_FD && Has(t.slots[fd], FD_DEV) && driver >= 0
    requires forall j :: 0 <= j < MAX_FD && j != fd && t.slots[j].dev == t.slots[fd].dev ==> !Has(t.slots[j], FD_EXCL)
    ensures var u := Step(t, Close(fd, closing)).0;
      Step(u, Open(Found(t.slots[fd].dev), mode, driver)).1.Success?
  {
    StepInv(t, Close(fd, closing));
    CloseFrees(t, fd, closing);
    OpenGranted(Step(t, Close(fd, closing)).0, Found(t.slots[fd].dev), mode, driver);
    hide Step;
  }

  /**
   F_SETFL sets O_APPEND and O_NONBLOCK as asked and keeps every other bit; F_GETFL then returns them without the two
   internal bits.
   */
  lemma SetThenGetFlags(t: Table, fd: nat, arg: bv32)
    requires Inv(t) && fd < MAX_FD
    ensures var (u, r) := Step(t, SetFlags(fd, arg));
      && r == Success(0) && |u.slots| == MAX_FD && u.slots[fd].dev == t.slots[fd].dev
      && (forall j :: 0 <= j < MAX_FD && j != fd ==> u.slots[j] == t.slots[j])
      && Asked(u.slots[fd].flags) == Asked(arg)
      && Unasked(u.slots[fd].flags) == Unasked(t.slots[fd].flags)
      && Step(u, GetFlags(fd)) == (u, Success(Visible(u.slots[fd].flags) as int))
  {
    var f := t.slots[fd].flags;
    AskedBits(f, arg);
    KeptBits(f, arg);
    VisibleBits(StatusFlags(f, arg));
    hide StatusFlags, Asked, Unasked, Visible;
  }

  lemma AskedBits(f: bv32, arg: bv32)
    ensures Asked(StatusFlags(f, arg)) == Asked(arg)
  {
  }

  lemma KeptBits(f: bv32, arg: bv32)
    ensures Unasked(StatusFlags(f, arg)) == Unasked(f)
  {
  }

  lemma VisibleBits(f: bv32)
    ensures f & !FD_FLAGS_MASK == Visible(f)
  {
  }

  /** Every other request of ioctl, and every one on a file system, goes to the driver and leaves the table alone. */
  lemma DriverRequest(t: Table, fd: nat, req: int, driver: int)
    requires Inv(t) && fd < MAX_FD && t.slots[fd].dev != Null
    requires !Has(t.slots[fd], FD_DEV) || (req != 0x740d && req != 0x740e)
    ensures Step(t, Ioctl(fd, req, driver)) == (t, if driver < 0 then Failure(FromDriver(-driver)) else Success(driver))
  {
  }

  /** Negative descriptors are refused, and nothing changes. */
  lemma BadDescriptor(t: Table, call: Call)
    requires !call.Open? && call.fd < 0
    ensures Step(t, call) == (t, Failure(EBADFD))
  {
  }
}
