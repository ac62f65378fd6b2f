/** The disk as the ATA driver presents it: 512-byte sectors, transferred by the sector,
    with an 8-bit count and a 28-bit address. */
module Disk {
  import opened Words

  const SECTOR: nat := 512
  const LBA_LIMIT: nat := 0x1000_0000
  const ERR_FAILED: int := -1

  /** Sectors lba, ..., lba + count - 1 of a disk image, as bytes. */
  function Extent(image: seq<byte>, lba: nat, count: nat): (r: seq<byte>)
    requires SECTOR * (lba + count) <= |image|
    ensures |r| == SECTOR * count
  {
    image[SECTOR * lba..SECTOR * (lba + count)]
  }

  /** A transfer of `count` sectors that the drive accepts and completes. */
  predicate Transfers(image: seq<byte>, lba: nat, count: nat) {
    count != 0 && SECTOR * (lba % LBA_LIMIT + count) <= |image|
  }

  /** How many of the sectors of a transfer the drive has. */
  function Present(image: seq<byte>, lba: nat, count: nat): (k: nat)
    ensures k <= count && (k > 0 ==> SECTOR * (lba % LBA_LIMIT + k) <= |image|)
    ensures k < count ==> SECTOR * (lba % LBA_LIMIT + k + 1) > |image|
    ensures Transfers(image, lba, count) <==> count != 0 && k == count
  {
    var first := lba % LBA_LIMIT;
    if SECTOR * (first + count) <= |image| then count
    else if SECTOR * first <= |image| then |image| / SECTOR - first
    else 0
  }

  /** The bytes a read delivers before it ends or fails: the sectors that are there. */
  function Delivered(image: seq<byte>, lba: nat, count: nat): (r: seq<byte>)
    ensures |r| == SECTOR * Present(image, lba, count)
    ensures Transfers(image, lba, count) ==> r == Extent(image, lba % LBA_LIMIT, count)
  {
    var k := Present(image, lba, count);
    if k == 0 then [] else Extent(image, lba % LBA_LIMIT, k)
  }

  /** A disk image after a write of `src` that ends or fails: the sectors that are there are
      written. */
  function Written(image: seq<byte>, lba: nat, count: nat, src: seq<byte>): (r: seq<byte>)
    requires SECTOR * count <= |src|
    ensures |r| == |image|
  {
    var k := Present(image, lba, count);
    if k == 0 then image else Overlay(image, SECTOR * (lba % LBA_LIMIT), src[..SECTOR * k])
  }

  class Drive {
    const data: array<byte>

    constructor (image: seq<byte>)
      ensures fresh(data) && data[..] == image
    {
      data := new byte[|image|](i requires 0 <= i < |image| => image[i]);
    }

    /** ata_read_sectors, into `buf` from offset `at` on. A sector the drive does not have
        is reported as an error, when the transfer comes to it. */
    method Read(lba: uint32, count: byte, buf: array<byte>, at: nat) returns (status: int)
      requires buf != data && at + SECTOR * count <= buf.Length
      modifies buf
      ensures status == if Transfers(data[..], lba, count) then count else ERR_FAILED
      ensures buf[..] == Overlay(old(buf[..]), at, Delivered(data[..], lba, count))
    {
      if count == 0 {
        return ERR_FAILED;
      }
      var first := lba % LBA_LIMIT;
      for i := 0 to count
        invariant i > 0 ==> SECTOR * (first + i) <= data.Length
        invariant forall k :: at <= k < at + SECTOR * i ==> buf[k] == data[SECTOR * first + (k - at)]
        invariant forall j :: 0 <= j < buf.Length && !(at <= j < at + SECTOR * i) ==> buf[j] == old(buf[j])
      {
        if SECTOR * (first + i + 1) > data.Length {
          assert Present(data[..], lba, count) == i;
          return ERR_FAILED;
        }
        forall k | at + SECTOR * i <= k < at + SECTOR * (i + 1) {
          buf[k] := data[SECTOR * first + (k - at)];
        }
      }
      return count;
    }

    /** ata_write_sectors, from the start of `src`. */
    method Write(lba: uint32, count: byte, src: seq<byte>) returns (status: int)
      requires SECTOR * count <= |src|
      modifies data
      ensures status == if Transfers(old(data[..]), lba, count) then count else ERR_FAILED
      ensures data[..] == Written(old(data[..]), lba, count, src)
    {
      if count == 0 {
        return ERR_FAILED;
      }
      var first := lba % LBA_LIMIT;
      for i := 0 to count
        invariant i > 0 ==> SECTOR * (first + i) <= data.Length
        invariant forall k :: SECTOR * first <= k < SECTOR * (first + i) ==> data[k] == src[k - SECTOR * first]
        invariant forall j :: 0 <= j < data.Length && !(SECTOR * first <= j < SECTOR * (first + i)) ==>
                    data[j] == old(data[j])
      {
        if SECTOR * (first + i + 1) > data.Length {
          assert Present(old(data[..]), lba, count) == i;
          return ERR_FAILED;
        }
        forall k | SECTOR * (first + i) <= k < SECTOR * (first + i + 1) {
          data[k] := src[k - SECTOR * first];
        }
      }
      return count;
    }
  }
}
