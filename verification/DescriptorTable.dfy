/** install_file, get_file and uninstall_file over the array itself. The parts between spin_lock
    and spin_unlock are single methods here; DescriptorThreads takes them apart. */
module DescriptorTable {
  import opened Descriptors
  import DescriptorThreads

  const NULL: nat := 0

  class FileTable {
    const ftable: array<nat>
    var nextFree: nat
    var freeHead: nat
    ghost var table: Table  // what the cells mean

    ghost predicate Valid()
      reads this, ftable
    {
      && ftable.Length == LIMIT
      && Partition(table)
      && nextFree == table.next
      && DescriptorThreads.CellsMean(ftable[..], table)
      && DescriptorThreads.Chain(ftable[..], freeHead, table.free)
    }

    constructor ()
      ensures Valid() && fresh(ftable) && table == Initial()
    {
      ftable := new nat[LIMIT](_ => 0);
      nextFree := FIRST_FD;
      freeHead := 0;
      table := Initial();
    }

    // A cell holds a pointer exactly when its descriptor is live.
    lemma CellIsLive(fd: nat)
      requires Valid() && fd < LIMIT
      ensures ftable[fd] >= LIMIT <==> fd in table.live
      ensures fd in table.live ==> ftable[fd] == table.live[fd]
    {
      DescriptorThreads.ChainCellIsLive(ftable[..], freeHead, table, fd);
    }

    // The part of install_file under the lock: a descriptor is chosen, 0 if there is none.
    method Pick(ghost fp: File) returns (fd: nat)
      requires Valid()
      modifies this
      ensures Valid()
      ensures if Allowed(old(table), Full) then fd == 0 && table == old(table)
              else fd > 0 && Allowed(old(table), Took(fd, fp)) && table == After(old(table), Took(fd, fp))
    {
      assert table.free != [] ==> table.free[0] in table.free;
      fd := 0;
      if nextFree == LIMIT {
        if freeHead != 0 {
          fd := freeHead;
          TakeNewest(fp);
          freeHead := ftable[freeHead];
          table := After(table, Took(fd, fp));
        }
      } else {
        fd := nextFree;
        PartitionKept(table, Took(fd, fp));
        DescriptorThreads.CellsTook(ftable[..], table, fd, fp);
        nextFree := nextFree + 1;
        table := After(table, Took(fd, fp));
      }
    }

    lemma TakeNewest(fp: File)
      requires Valid() && nextFree == LIMIT && freeHead != 0
      ensures table.free != [] && freeHead == table.free[0] && freeHead < LIMIT
      ensures var b := After(table, Took(freeHead, fp));
              && Partition(b)
              && DescriptorThreads.CellsMean(ftable[..], b)
              && DescriptorThreads.Chain(ftable[..], ftable[freeHead], b.free)
    {
      assert freeHead in table.free;
      PartitionKept(table, Took(freeHead, fp));
      CellIsLive(freeHead);
      DescriptorThreads.CellsTook(ftable[..], table, freeHead, fp);
      DescriptorThreads.ChainPop(ftable[..], table.free);
    }

    // The store install_file makes after it has released the lock.
    method Publish(fd: nat, fp: File)
      requires Valid() && Allowed(table, Published(fd, fp))
      modifies this`table, ftable
      ensures Valid() && table == After(old(table), Published(fd, fp))
      ensures freeHead == old(freeHead) && nextFree == old(nextFree)
    {
      PartitionKept(table, Published(fd, fp));
      DescriptorThreads.CellsStored(ftable[..], table, fd, fp);
      DescriptorThreads.ChainApart(ftable[..], freeHead, table.free, fd, fp);
      ftable[fd] := fp;
      table := After(table, Published(fd, fp));
    }

    // Fails exactly when all descriptors are live or flying.
    method InstallFile(fp: File) returns (fd: int)
      requires Valid()
      modifies this, ftable
      ensures Valid()
      ensures fd == -1 <==> |old(table).live| + |old(table).flying| == LIMIT - FIRST_FD
      ensures fd == -1 ==> table == old(table) && ftable[..] == old(ftable[..])
      ensures fd != -1 ==>
                && fd > 0 && Allowed(old(table), Took(fd, fp))
                && table == After(After(old(table), Took(fd, fp)), Published(fd, fp))
    {
      FullExactly(table);
      fd := Pick(fp);
      if fd > 0 {
        Publish(fd, fp);
        return fd;
      }
      return -1;
    }

    method GetFile(fd: nat) returns (fp: nat)
      requires Valid() && fd < LIMIT
      ensures fp == if fd in table.live then table.live[fd] else NULL
    {
      fp := ftable[fd];
      CellIsLive(fd);
      if fp < LIMIT {
        return NULL;
      }
    }

    // Closing a descriptor that is not live changes nothing.
    method UninstallFile(fd: nat) returns (fp: nat)
      requires Valid() && fd < LIMIT
      modifies this, ftable
      ensures Valid()
      ensures if fd in old(table).live then
                fp == old(table).live[fd] && table == After(old(table), Closed(fd, fp))
              else
                fp == NULL && table == old(table) && freeHead == old(freeHead) && nextFree == old(nextFree) && ftable[..] == old(ftable[..])
    {
      fp := GetFile(fd);
      if fp != NULL {
        PartitionKept(table, Closed(fd, fp));
        DescriptorThreads.CellsClosed(ftable[..], table, fd, fp, freeHead);
        DescriptorThreads.ChainPush(ftable[..], freeHead, table.free, fd);
        ftable[fd] := freeHead;
        freeHead := fd;
        table := After(table, Closed(fd, fp));
      }
    }
  }
}
