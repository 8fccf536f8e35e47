# FAT32 boot-sector decoder, modelled in Dafny

This project models the boot-sector decoder of a freestanding FAT32 reader.
The decoder, `BootSector::from_bytes`, takes the raw bytes of a volume's
first sector. If the buffer is shorter than 512 bytes it returns `None`.
Otherwise it returns a `BootSector` descriptor. The descriptor holds six BIOS
Parameter Block fields, each read little-endian from a fixed offset:

| descriptor field | BPB name | offset | width |
|---|---|---|---|
| bytesPerSector | BPB_BytsPerSec | 11 | 2 |
| sectorsPerCluster | BPB_SecPerClus | 13 | 1 |
| reservedSectors | BPB_RsvdSecCnt | 14 | 2 |
| numFats | BPB_NumFATs | 16 | 1 |
| sectorsPerFat | BPB_FATSz32 | 36 | 4 |
| rootDirFirstCluster | BPB_RootClus | 44 | 4 |

The offsets are those of the Microsoft FAT32 File System Specification,
section "Boot Sector and BPB Structure". The decoder validates nothing else:
it has no signature check, no power-of-two check and no nonzero check.

Files:

- `little_endian.dfy` (module `LittleEndian`): the unsigned types `uint8`,
  `uint16` and `uint32`, bounded by their ranges. It also holds a reference
  little-endian decoder `LeValue` over byte strings of any length, with its
  inverse `LeBytes`. The fixed-width `Uint16FromLeBytes` and
  `Uint32FromLeBytes` model `u16::from_le_bytes` and `u32::from_le_bytes`.
- `boot_sector.dfy` (module `BootSectorDecoder`): the `BootSector`
  descriptor and the layout table (`Field`, `Offset`, `Width`). It holds
  `FromBytes`, the decoder, and `Encode`, which writes a descriptor into a
  sector image and leaves every other byte alone. It also holds the lemmas
  that relate them.
- `boot_sector_test.dfy` (module `BootSectorSelfCheck`): the source's
  self-check as lemmas over its 512-byte fixture.

`FromBytes` is specified against the layout table, not against its own body.
Each descriptor field equals `FieldAt`, the little-endian value of the bytes
the table assigns to that field. `Encode` is the decoder's inverse partner.
Decoding an encoded descriptor gives it back. Encoding a decoded sector into
itself gives the sector back. `Encode` does not exist in the source. It
generalises what the self-check does when it fills its zeroed buffer, and
`TestImageIsEncoding` proves the fixture is exactly such an encoding.

The source returns `Option`, with `None` as the only failure. The model
follows the code: `FromBytes` returns `Option<BootSector>`.

## Model

| member | source | states |
|---|---|---|
| LittleEndian.LeValueOfFour | src/boot_sector.rs:32-34 | the value of four bytes is b0 + 256*b1 + 65536*b2 + 16777216*b3, least-significant byte first |
| LittleEndian.Uint16FromLeBytes | src/boot_sector.rs:24 | `u16::from_le_bytes` gives the little-endian value of its two bytes, which fits in 16 bits; re-encoding that value at width 2 gives the same two bytes back |
| LittleEndian.Uint32FromLeBytes | src/boot_sector.rs:32 | `u32::from_le_bytes` gives the little-endian value of its four bytes, which fits in 32 bits; re-encoding it at width 4 gives the same four bytes back |
| LittleEndian.LeValueOfLeBytes | src/boot_sector.rs:24 | encoding any value below 256^n as n little-endian bytes and decoding gives the value back |
| LittleEndian.LeBytesOfLeValue | src/boot_sector.rs:32 | decoding any byte string little-endian and re-encoding it at the same width gives the bytes back |
| LittleEndian.LeValueInjective | src/boot_sector.rs:34 | two byte strings of equal width have the same little-endian value if and only if they are equal |
| BootSectorDecoder.SameFieldsSameDescriptor | src/boot_sector.rs:4-11 | two descriptors are equal if and only if all six fields agree |
| BootSectorDecoder.FieldAt | src/boot_sector.rs:22-35 | the value the layout assigns to a field is below 256 to the power of the field's width: below 2^8, 2^16 or 2^32 |
| BootSectorDecoder.FromBytes | src/boot_sector.rs:16-36 | the result is `None` if and only if the buffer has fewer than 512 bytes. So every 511-byte buffer is rejected and every buffer of 512 bytes or more is accepted. On success every field equals the little-endian integer at its offset and width in the FAT32 layout |
| BootSectorDecoder.Encode | src/boot_sector.rs:43-70 | writing a descriptor into a sector keeps the sector's length and every byte outside the six fields |
| BootSectorDecoder.EncodeFieldBytes | src/boot_sector.rs:43-70 | in an encoded sector, each field's bytes are the little-endian encoding of the descriptor's value at that field's width |
| BootSectorDecoder.DecodeEncode | src/boot_sector.rs:16-36 | decoding a sector into which a descriptor was written gives that descriptor back, whatever the other bytes are |
| BootSectorDecoder.EncodeDecode | src/boot_sector.rs:16-36 | every buffer of 512 bytes or more decodes, and writing its descriptor back into it leaves the buffer unchanged |
| BootSectorDecoder.SameFieldBytesSameDescriptor | src/boot_sector.rs:22-35 | offset independence: two buffers of 512 bytes or more that agree on bytes 11-16, 36-39 and 44-47 decode to equal descriptors, whatever their lengths and other bytes |
| BootSectorDecoder.SameDescriptorSameFieldBytes | src/boot_sector.rs:22-35 | two buffers of 512 bytes or more that decode to equal descriptors agree on every byte of the six fields |
| BootSectorDecoder.SameDescriptorIffSameFieldBytes | src/boot_sector.rs:22-35 | two buffers of 512 bytes or more decode alike if and only if they agree on bytes 11-16, 36-39 and 44-47 |
| BootSectorDecoder.UninspectedByteIgnored | src/boot_sector.rs:22-35 | changing a byte outside the six fields never changes the result, for a buffer of any length. This covers bytes 0-10, 17-35 and 40-43, and every byte from 48 on |
| BootSectorDecoder.InspectedByteMatters | src/boot_sector.rs:22-35 | changing any byte inside the six fields always changes the descriptor |
| BootSectorDecoder.FieldValues | src/boot_sector.rs:24-34 | bytesPerSector = data[11] + 256*data[12] and reservedSectors = data[14] + 256*data[15]. sectorsPerCluster = data[13] and numFats = data[16], copied unvalidated. sectorsPerFat and rootDirFirstCluster weigh data[36..40] and data[44..48] by powers of 256, least significant first |
| BootSectorDecoder.LittleEndianOrder | src/boot_sector.rs:24 | bytes 0x34, 0x12 at offsets 11-12 give bytesPerSector 0x1234. Bytes 0x78, 0x56, 0x34, 0x12 at offsets 36-39 give sectorsPerFat 0x12345678 |
| BootSectorSelfCheck.TestImage | src/boot_sector.rs:43-70 | the fixture is a 512-byte sector: zeros, with the field bytes written at offsets 11-16, 36-39 and 44-47 |
| BootSectorSelfCheck.TestBootSectorParsing | src/boot_sector.rs:72-81 | the fixture decodes to bytes per sector 512, 8 sectors per cluster, 32 reserved sectors, 2 FATs, 16 sectors per FAT, root directory at cluster 2 |
| BootSectorSelfCheck.TestImageIsEncoding | src/boot_sector.rs:43-70 | the fixture is exactly the expected descriptor written into a zeroed 512-byte sector |

## Left out

- src/main.rs is not part of this model: its panic handler, its `_start` entry point and their endless loops are runtime plumbing for a freestanding target.
- How the sector is obtained (a disk or firmware read) is I/O that the source does not show. The buffer is a parameter.
- The self-check's halting behaviour is not modelled: `expect` and `assert!` panic, and the panic handler spins. Only its input and expected output are stated, as lemmas.
- Determinism has no lemma. `FromBytes` is a Dafny function, so equal inputs give equal results by construction.
- Rust's slice bounds checks are not modelled as a failure path. The model proves every index read is in bounds once the length check passes, so no such failure can occur.
