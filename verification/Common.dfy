/** Errors, faults and the constants of the file system. */
module Common {
  import opened Names
  import opened Slots

  const ROOT: nat := 1
  const FIRST_INO: nat := 5
  const LINK_MAX: nat := 65530

  // drop_nlink works on an unsigned 32-bit counter.
  const U32: nat := 0x1_0000_0000

  datatype Errno = OK | EIO | ENOENT | EEXIST | ENOTEMPTY | ENOMEM | EINVAL | ENAMETOOLONG

  datatype Option<T> = None | Some(value: T)

  // What the disk does to one directory update: the pages that cannot be read, and whether the
  // directory is DIRSYNC and writing the changed page out fails.
  datatype Fault = Fault(bad: set<nat>, torn: bool)

  // The slots a new directory starts with.
  function DotSlots(x: nat, parent: nat): seq<Slot> {
    [Slot(x, Padded(DOT)), Slot(parent, Padded(DOTDOT))]
  }
}
