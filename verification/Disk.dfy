/** read_offset of bootc.c, over a disk whose sectors are copied to memory one at a time. */
module Disk {
  import opened Machine

  type Sector = s: seq<Byte> | |s| == 512 witness seq(512, _ => 0)

  /** Byte i of the disk. */
  function DiskByte(disk: seq<Sector>, i: nat): Byte
    requires i < 512 * |disk|
  {
    disk[i / 512][i % 512]
  }

  /** The sectors that hold the bytes [offset, offset + size): none for an empty range that starts on a sector
      boundary, otherwise from the sector of the first byte on. */
  function SectorsRead(offset: nat, size: nat): (n: nat) {
    (offset % 512 + size + 511) / 512
  }

  /** read_sect: copy sector lba to dst and return the address behind it. */
  method ReadSect(memory: array<Byte>, disk: seq<Sector>, dst: int, lba: int) returns (next: int)
    requires 0 <= dst && dst + 512 <= memory.Length && 0 <= lba < |disk|
    modifies memory
    ensures next == dst + 512
    ensures forall i :: 0 <= i < memory.Length ==>
      memory[i] == if dst <= i < dst + 512 then disk[lba][i - dst] else old(memory[i])
  {
    for k := 0 to 512
      invariant forall i :: 0 <= i < memory.Length ==>
        memory[i] == if dst <= i < dst + k then disk[lba][i - dst] else old(memory[i])
    {
      memory[dst + k] := disk[lba][k];
    }
    next := dst + 512;
  }

  /** read_offset puts byte offset + k of the disk at dst + k, for every k below size. It writes exactly the
      sectors that the range touches, from the beginning of the first one on: also when size is 0, if the offset
      is not on a sector boundary. */
  method ReadOffset(memory: array<Byte>, disk: seq<Sector>, dst: int, offset: nat, size: nat)
    requires offset % 512 <= dst && dst - offset % 512 + 512 * SectorsRead(offset, size) <= memory.Length
    requires offset / 512 + SectorsRead(offset, size) <= |disk|
    modifies memory
    ensures offset + size <= 512 * |disk| && dst + size <= memory.Length
    ensures forall i :: dst <= i < dst + size ==> memory[i] == DiskByte(disk, i - dst + offset)
    ensures forall i | 0 <= i < memory.Length ::
      !(dst - offset % 512 <= i < dst - offset % 512 + 512 * SectorsRead(offset, size)) ==>
        memory[i] == old(memory[i])
    ensures forall i :: dst - offset % 512 <= i < dst - offset % 512 + 512 * SectorsRead(offset, size) ==>
      memory[i] == DiskByte(disk, i - dst + offset)
  {
    var first := offset / 512;
    var start := dst - offset % 512;
    var total := SectorsRead(offset, size);
    var lba := first;
    var p := start;
    while p < dst + size
      invariant first <= lba <= first + total
      invariant p == start + 512 * (lba - first)
      invariant forall i :: 0 <= i < memory.Length && !(start <= i < p) ==> memory[i] == old(memory[i])
      invariant forall i :: start <= i < p ==> memory[i] == DiskByte(disk, i - dst + offset)
      decreases dst + size - p
    {
      ghost var before := memory[..];
      SectorInRange(offset, size, lba - first);
      p := ReadSect(memory, disk, p, lba);
      forall i | start <= i < p ensures memory[i] == DiskByte(disk, i - dst + offset) {
        if i >= p - 512 {
          InSector(disk, lba, i - (p - 512));
          assert i - dst + offset == lba * 512 + (i - (p - 512));
        } else {
          assert memory[i] == before[i];
        }
      }
      lba := lba + 1;
    }
    AllSectors(offset, size, lba - first);
  }

  lemma SectorInRange(offset: nat, size: nat, n: int)
    requires 0 <= n && 512 * n < offset % 512 + size
    ensures n < SectorsRead(offset, size)
  {}

  lemma AllSectors(offset: nat, size: nat, n: int)
    requires 0 <= n <= SectorsRead(offset, size) && 512 * n >= offset % 512 + size
    ensures n == SectorsRead(offset, size)
    ensures offset + size <= 512 * (offset / 512 + n)
  {}

  lemma InSector(disk: seq<Sector>, lba: int, k: int)
    requires 0 <= lba < |disk| && 0 <= k < 512
    ensures lba * 512 + k < 512 * |disk| && DiskByte(disk, lba * 512 + k) == disk[lba][k]
  {}

  /** The sectors read are the least number that covers the range; none is read in vain unless the range is
      empty. */
  lemma HullIsTight(offset: nat, size: nat)
    ensures offset + size <= 512 * (offset / 512 + SectorsRead(offset, size))
    ensures size > 0 ==> 512 * (offset / 512 + SectorsRead(offset, size) - 1) < offset + size
    ensures SectorsRead(offset, 0) == if offset % 512 == 0 then 0 else 1
  {}
}
