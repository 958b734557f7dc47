/** The sizing arithmetic of FsCreateRamDisk (fs/fs.c): for which disk sizes the FAT has an entry for every
    cluster that the allocation scan may hand out. */
module Fat16Layout {
  const SECTOR: nat := 512
  const SECTORS_PER_CLUSTER: nat := 4
  const RESERVED_SECTORS: nat := 1
  const ROOT_ENTRIES: nat := 512

  function RootSectors(): nat { (ROOT_ENTRIES * 32 + SECTOR - 1) / SECTOR }

  function Sectors(megabytes: nat): nat { megabytes * 0x10_0000 / SECTOR }

  /** SectorsPerFAT: two sectors, or the computed size when there are more than 4085 clusters. */
  function FatSectors(megabytes: nat): int {
    var clusters := (Sectors(megabytes) - RESERVED_SECTORS - 2 - RootSectors()) / SECTORS_PER_CLUSTER;
    if clusters > 4085 then ((clusters + 1 + 1) * 2 + SECTOR - 1) / SECTOR else 2
  }

  /** The bound of the allocation scan, truncated to 16 bits as the code does. */
  function ScanBound(megabytes: nat): int {
    (Sectors(megabytes) - RESERVED_SECTORS - FatSectors(megabytes) - RootSectors()) / SECTORS_PER_CLUSTER % 0x1_0000
  }

  /** Every scanned cluster has its two-byte FAT entry inside the FAT. */
  predicate FatCovers(megabytes: nat) { ScanBound(megabytes) * 2 <= FatSectors(megabytes) * SECTOR }

  /** The last byte of the last scanned cluster lies inside the disk. */
  predicate DataFits(megabytes: nat) {
    RESERVED_SECTORS + FatSectors(megabytes) + RootSectors() + (ScanBound(megabytes) - 2) * SECTORS_PER_CLUSTER
      <= Sectors(megabytes)
  }

  /** The FAT covers every allocatable cluster exactly for 1 MB and for 8 MB or more; from 2 to 7 MB the
      two-sector FAT is too small and FAT entries overlap the root directory. */
  lemma FatCoversExactly(megabytes: nat)
    requires 1 <= megabytes < 4096
    ensures FatCovers(megabytes) <==> megabytes == 1 || megabytes >= 8
    ensures DataFits(megabytes)
  {
    assert Sectors(megabytes) == 2048 * megabytes;
  }
}
