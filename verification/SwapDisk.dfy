/** The swap area: the in-memory sector array of ide.c and the slot layer of swapfs.c. */
module SwapDisk {
  import opened Sv39

  type Byte = bv8

  const SECTSIZE: nat := 512
  const MAX_DISK_NSECS: nat := 56
  const PAGE_NSECT: nat := PGSIZE / SECTSIZE

  /** swapfs_init: how many page-sized slots the device has. */
  const MAX_SWAP_OFFSET: nat := MAX_DISK_NSECS / PAGE_NSECT

  /** The range check of swap_offset; slot 0 is never used. */
  predicate GoodSlot(slot: nat) {
    0 < slot < MAX_SWAP_OFFSET
  }

  /** The slots are those from 1 to 6. */
  lemma SlotRange(slot: nat)
    ensures GoodSlot(slot) <==> 1 <= slot <= 6
  {
  }

  /** The bytes of a slot. */
  function SlotData(ide: seq<Byte>, slot: nat): seq<Byte>
    requires |ide| == MAX_DISK_NSECS * SECTSIZE && slot < MAX_SWAP_OFFSET
  {
    ide[slot * PGSIZE..(slot + 1) * PGSIZE]
  }

  lemma SlotBytes(ide: seq<Byte>, slot: nat)
    requires |ide| == MAX_DISK_NSECS * SECTSIZE && slot < MAX_SWAP_OFFSET
    ensures slot * 4096 + 4096 <= |ide| && SlotData(ide, slot) == ide[slot * 4096..slot * 4096 + 4096]
  {
  }

  function Splice(ide: seq<Byte>, from: nat, src: seq<Byte>): (r: seq<Byte>)
    requires from + |src| <= |ide|
    ensures |r| == |ide|
  {
    ide[..from] + src + ide[from + |src|..]
  }

  /** Writing one slot stores the page there and leaves every other slot alone. */
  lemma SlotsAreApart(ide: seq<Byte>, slot: nat, page: seq<Byte>, other: nat)
    requires |ide| == MAX_DISK_NSECS * SECTSIZE && |page| == PGSIZE && slot < MAX_SWAP_OFFSET && other < MAX_SWAP_OFFSET
    ensures SlotData(Splice(ide, slot * PGSIZE, page), other) == if other == slot then page else SlotData(ide, other)
  {
    var r := Splice(ide, slot * PGSIZE, page);
    forall i | 0 <= i < PGSIZE
      ensures SlotData(r, other)[i] == if other == slot then page[i] else SlotData(ide, other)[i]
    {
      assert SlotData(r, other)[i] == r[other * PGSIZE + i];
    }
  }

  /** A slot's sectors hold the slot's bytes. */
  lemma SlotSectors(slot: nat)
    ensures slot * PAGE_NSECT * SECTSIZE == slot * PGSIZE
    ensures (slot * PAGE_NSECT + PAGE_NSECT) * SECTSIZE == (slot + 1) * PGSIZE
    ensures slot < MAX_SWAP_OFFSET ==> (slot + 1) * PGSIZE <= MAX_DISK_NSECS * SECTSIZE
  {
    assert PAGE_NSECT == 8 && MAX_SWAP_OFFSET == 7;
  }

  class Disk {
    const ide: array<Byte>

    constructor ()
      ensures fresh(ide) && ide.Length == 28672
    {
      ide := new Byte[MAX_DISK_NSECS * SECTSIZE];
    }

    /** ide_read_secs. */
    method ReadSecs(secno: nat, nsecs: nat) returns (dst: seq<Byte>)
      requires (secno + nsecs) * SECTSIZE <= ide.Length
      ensures dst == ide[secno * SECTSIZE..(secno + nsecs) * SECTSIZE]
    {
      var iobase := secno * SECTSIZE;
      dst := ide[iobase..iobase + nsecs * SECTSIZE];
    }

    /** ide_write_secs. */
    method WriteSecs(secno: nat, src: seq<Byte>, nsecs: nat)
      requires (secno + nsecs) * SECTSIZE <= ide.Length && |src| == nsecs * SECTSIZE
      modifies ide
      ensures ide[..] == Splice(old(ide[..]), secno * SECTSIZE, src)
    {
      var iobase := secno * SECTSIZE;
      forall i | 0 <= i < |src| {
        ide[iobase + i] := src[i];
      }
    }

    /** swapfs_read.  The range check of swap_offset comes first; false means it panicked. */
    method SwapfsRead(entry: nat) returns (ok: bool, page: seq<Byte>)
      requires ide.Length == MAX_DISK_NSECS * SECTSIZE
      ensures ok <==> 1 <= entry / 256 <= 6
      ensures ok ==> |page| == 4096 && page == ide[entry / 256 * 4096..entry / 256 * 4096 + 4096]
    {
      var offset := Slot(entry);
      if !(offset > 0 && offset < MAX_SWAP_OFFSET) {
        return false, [];
      }
      ok := true;
      SlotSectors(offset);
      page := ReadSecs(offset * PAGE_NSECT, PAGE_NSECT);
    }

    /** swapfs_write. */
    method SwapfsWrite(entry: nat, page: seq<Byte>) returns (ok: bool)
      requires ide.Length == MAX_DISK_NSECS * SECTSIZE && |page| == PGSIZE
      modifies ide
      ensures ok <==> 1 <= entry / 256 <= 6
      ensures ok ==> ide[..] == Splice(old(ide[..]), entry / 256 * 4096, page)
      ensures !ok ==> ide[..] == old(ide[..])
    {
      var offset := Slot(entry);
      if !(offset > 0 && offset < MAX_SWAP_OFFSET) {
        return false;
      }
      ok := true;
      SlotSectors(offset);
      WriteSecs(offset * PAGE_NSECT, page, PAGE_NSECT);
    }
  }
}
