/**
 * The self-check of the decoder: a zeroed 512-byte sector with the fields of
 * a typical FAT32 volume written at their offsets.
 */
module BootSectorSelfCheck {
  import opened LittleEndian
  import opened BootSectorDecoder

  /** The test sector: zeros, then one byte at a time at the field offsets. */
  function TestImage(): (data: seq<uint8>)
    ensures |data| == SectorSize
  {
    seq(512, _ => 0)
      // 512 bytes per sector
      [11 := 0x00][12 := 0x02]
      // 8 sectors per cluster
      [13 := 0x08]
      // 32 reserved sectors
      [14 := 0x20][15 := 0x00]
      // 2 FATs
      [16 := 0x02]
      // 16 sectors per FAT
      [36 := 0x10][37 := 0x00][38 := 0x00][39 := 0x00]
      // root directory at cluster 2
      [44 := 0x02][45 := 0x00][46 := 0x00][47 := 0x00]
  }

  /** The descriptor the self-check expects. */
  const Expected := BootSector(
    bytesPerSector := 512,
    sectorsPerCluster := 8,
    reservedSectors := 32,
    numFats := 2,
    sectorsPerFat := 16,
    rootDirFirstCluster := 2)

  /** The test sector decodes, and to the expected geometry. */
  lemma TestBootSectorParsing()
    ensures FromBytes(TestImage()) == Some(Expected)
  {
    FieldValues(TestImage());
  }

  /** The test sector is exactly the expected descriptor written into a zeroed sector. */
  lemma TestImageIsEncoding()
    ensures TestImage() == Encode(Expected, seq(512, _ => 0))
  {
  }
}
