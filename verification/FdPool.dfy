/** The descriptor pool as the HAL keeps it: alt_get_fd.c, alt_release_fd.c, alt_open.c, alt_close.c, alt_fd_lock.c,
    alt_fd_unlock.c, alt_ioctl.c and alt_fcntl.c. */
module FdPool {
  import opened FdSpec

  class Pool {
    /** alt_fd_list and alt_max_fd */
    const list: array<Slot>
    var maxFd: int

    ghost predicate Valid()
      reads this, list
    {
      list.Length == MAX_FD && -1 <= maxFd < MAX_FD
    }

    ghost function Abstract(): Table
      reads this, list
    {
      Table(list[..], maxFd)
    }

    constructor ()
      ensures Valid() && Abstract() == Initial() && fresh(list)
    {
      list := new Slot[32](i => if i <= 2 then Slot(NULL_DEVICE, 0) else FREE);
      maxFd := -1;
      new;
      assert list[..] == Initial().slots;
    }

    /** alt_get_fd: the index of the lowest free slot, now taken, or EMFILE as a negative result. */
    method GetFd(dev: Dev) returns (fd: int)
      requires Valid() && dev != Null
      modifies this, list
      ensures Valid()
      ensures var t, i := old(Abstract()), FirstFree(old(list[..]));
        if i == MAX_FD then fd < 0 && Abstract() == t
        else fd == i && Abstract() == Claim(t, i, t.slots[i].(dev := dev))
    {
      ghost var slots := list[..];
      for i := 0 to list.Length
        invariant Abstract() == old(Abstract()) && i <= FirstFree(slots)
      {
        if list[i].dev == Null {
          list[i] := list[i].(dev := dev);
          if i > maxFd {
            maxFd := i;
          }
          return i;
        }
      }
      fd := -1;
    }

    /** alt_release_fd: the three standard descriptors stay reserved. */
    method ReleaseFd(fd: int)
      requires Valid() && fd < MAX_FD
      modifies list
      ensures Valid() && Abstract() == Release(old(Abstract()), fd)
    {
      if fd > 2 {
        list[fd] := FREE;
      }
    }

    /** alt_file_locked: mark the descriptor as a device, then look for a holder up to and including alt_max_fd. */
    method FileLocked(fd: nat) returns (locked: bool)
      requires Valid() && fd <= maxFd
      modifies list
      ensures Valid() && list[..] == old(list[..])[fd := old(list[fd]).(flags := old(list[fd]).flags | FD_DEV)]
      ensures locked <==> LockedElsewhere(Abstract(), list[fd].dev, fd)
    {
      list[fd] := list[fd].(flags := list[fd].flags | FD_DEV);
      locked := false;
      for i := 0 to maxFd + 1
        invariant forall j :: 0 <= j < i ==> !(list[j].dev == list[fd].dev && Has(list[j], FD_EXCL) && j != fd)
      {
        if list[i].dev == list[fd].dev && list[i].flags & FD_EXCL != 0 && i != fd {
          return true;
        }
      }
    }

    /** ALT_OPEN */
    method OpenFile(target: Target, mode: bv32, driver: int) returns (r: Outcome)
      requires Valid() && Callable(Abstract(), Open(target, mode, driver))
      modifies this, list
      ensures Valid() && (Abstract(), r) == Step(old(Abstract()), Open(target, mode, driver))
    {
      hide Has, LockedElsewhere, OpenFlags;
      if target.NotFound? {
        return Failure(ENODEV);
      }
      var index := GetFd(target.dev);
      if index < 0 {
        ReleaseFd(index);
        return Failure(EMFILE);
      }
      var locked := Prepare(index, target, mode);
      assert Abstract() == Claim(old(Abstract()), index, Slot(target.dev, OpenFlags(mode, target.dev.CharDev?)));
      if locked {
        ReleaseFd(index);
        return Failure(EACCES);
      }
      if driver < 0 {
        ReleaseFd(index);
        return Failure(FromDriver(-driver));
      }
      r := Success(index);
    }

    /** The part of ALT_OPEN between allocation and the driver: set the flags, and for a device check the lock. */
    method Prepare(index: nat, target: Target, mode: bv32) returns (locked: bool)
      requires Valid() && index <= maxFd && !target.NotFound? && list[index].dev == target.dev
      modifies list
      ensures Valid()
      ensures list[..] == old(list[..])[index := Slot(target.dev, OpenFlags(mode, target.dev.CharDev?))]
      ensures locked <==> target.dev.CharDev? && LockedElsewhere(Abstract(), target.dev, index)
    {
      hide Has, LockedElsewhere;
      ghost var slots := list[..];
      list[index] := list[index].(flags := mode & !FD_FLAGS_MASK);
      locked := false;
      if target.dev.CharDev? {
        locked := FileLocked(index);
      }
      NoDeviceBit(mode);
      assert list[..] == slots[index := Slot(target.dev, OpenFlags(mode, target.dev.CharDev?))];
    }

    /** ALT_CLOSE */
    method CloseFile(fd: int, driver: int) returns (r: Outcome)
      requires Valid() && Callable(Abstract(), Close(fd, driver))
      modifies list
      ensures Valid() && (Abstract(), r) == Step(old(Abstract()), Close(fd, driver))
      ensures list[..] == if fd > 2 then old(list[..])[fd := Slot(Null, 0)] else old(list[..])
    {
      if fd < 0 {
        return Failure(EBADFD);
      }
      ReleaseFd(fd);
      if driver < 0 {
        return Failure(FromDriver(-driver));
      }
      r := Success(0);
    }

    /** alt_fd_lock: the scan stops short of alt_max_fd. */
    method FdLock(fd: nat) returns (granted: bool)
      requires Valid() && fd < MAX_FD
      modifies list
      ensures Valid() && granted == !SharedBelow(old(Abstract()), old(list[fd]).dev, fd)
      ensures list[..]
              == if granted then old(list[..])[fd := old(list[fd]).(flags := LockFlags(old(list[fd]).flags))]
                 else old(list[..])
    {
      var i := 0;
      while i < maxFd
        invariant 0 <= i < MAX_FD && (maxFd >= 0 ==> i <= maxFd)
        invariant forall j :: 0 <= j < i ==> !(j != fd && list[j].dev == list[fd].dev)
      {
        if i != fd && list[i].dev == list[fd].dev {
          return false;
        }
        i := i + 1;
      }
      list[fd] := list[fd].(flags := list[fd].flags | FD_EXCL);
      granted := true;
    }

    /** alt_fd_unlock */
    method FdUnlock(fd: nat)
      requires Valid() && fd < MAX_FD
      modifies list
      ensures Valid() && list[..] == old(list[..])[fd := old(list[fd]).(flags := UnlockFlags(old(list[fd]).flags))]
    {
      list[fd] := list[fd].(flags := list[fd].flags & !FD_EXCL);
    }

    /** ALT_IOCTL; `driver` stands for the driver's own ioctl, or -ENOTTY where it has none. */
    method IoctlFile(fd: int, req: int, driver: int) returns (r: Outcome)
      requires Valid() && Callable(Abstract(), Ioctl(fd, req, driver))
      modifies list
      ensures Valid() && (Abstract(), r) == Step(old(Abstract()), Ioctl(fd, req, driver))
    {
      if fd < 0 {
        return Failure(EBADFD);
      }
      if list[fd].flags & FD_DEV != 0 {
        if req == TIOCEXCL {
          var granted := FdLock(fd);
          return if granted then Success(0) else Failure(EACCES);
        } else if req == TIOCNXCL {
          FdUnlock(fd);
          return Success(0);
        }
      }
      r := if driver < 0 then Failure(FromDriver(-driver)) else Success(driver);
    }

    /** ALT_FCNTL with F_SETFL */
    method SetFileFlags(fd: int, arg: bv32) returns (r: Outcome)
      requires Valid() && Callable(Abstract(), SetFlags(fd, arg))
      modifies list
      ensures Valid() && (Abstract(), r) == Step(old(Abstract()), SetFlags(fd, arg))
    {
      if fd < 0 {
        return Failure(EBADFD);
      }
      hide StatusFlags;
      var flags := MergeFlags(list[fd].flags, arg);
      list[fd] := list[fd].(flags := flags);
      r := Success(0);
    }

    /** ALT_FCNTL with F_GETFL */
    method GetFileFlags(fd: int) returns (r: Outcome)
      requires Valid() && Callable(Abstract(), GetFlags(fd))
      ensures (Abstract(), r) == Step(Abstract(), GetFlags(fd))
    {
      if fd < 0 {
        return Failure(EBADFD);
      }
      r := Success((list[fd].flags & !FD_FLAGS_MASK) as int);
    }

    /** ALT_FCNTL with any other command */
    method RejectControl(fd: int) returns (r: Outcome)
      requires Valid() && Callable(Abstract(), OtherControl(fd))
      ensures (Abstract(), r) == Step(Abstract(), OtherControl(fd))
    {
      r := Failure(if fd >= 0 then EINVAL else EBADFD);
    }
  }

  /** The two masked updates of F_SETFL. */
  method MergeFlags(flags: bv32, arg: bv32) returns (r: bv32)
    ensures r == StatusFlags(flags, arg)
  {
    r := flags & !FCNTL_FLAGS_MASK;
    r := r | (arg & FCNTL_FLAGS_MASK);
  }

  lemma NoDeviceBit(mode: bv32)
    ensures OpenFlags(mode, true) == (mode & !FD_FLAGS_MASK) | FD_DEV && OpenFlags(mode, false) == mode & !FD_FLAGS_MASK
  {
  }
}
