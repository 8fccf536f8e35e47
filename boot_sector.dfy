/**
 * The FAT32 boot-sector decoder: the descriptor type, the BIOS Parameter
 * Block layout it reads (offsets and widths as in the Microsoft FAT32 File
 * System Specification, section "Boot Sector and BPB Structure"), and the
 * decoder itself, with its properties.
 */
module BootSectorDecoder {
  import opened LittleEndian

  datatype Option<T> = None | Some(value: T)

  /** The geometry fields of a FAT32 volume that the decoder extracts. */
  datatype BootSector = BootSector(
    bytesPerSector: uint16,
    sectorsPerCluster: uint8,
    reservedSectors: uint16,
    numFats: uint8,
    sectorsPerFat: uint32,
    rootDirFirstCluster: uint32)

  /** The decoder demands one full sector. */
  const SectorSize: nat := 512

  /** The BIOS Parameter Block fields that are read, by their names in the FAT32 specification. */
  datatype Field = BytsPerSec | SecPerClus | RsvdSecCnt | NumFATs | FATSz32 | RootClus

  function Offset(f: Field): nat
  {
    match f
    case BytsPerSec => 11
    case SecPerClus => 13
    case RsvdSecCnt => 14
    case NumFATs => 16
    case FATSz32 => 36
    case RootClus => 44
  }

  function Width(f: Field): nat
  {
    match f
    case BytsPerSec => 2
    case SecPerClus => 1
    case RsvdSecCnt => 2
    case NumFATs => 1
    case FATSz32 => 4
    case RootClus => 4
  }

  /** Byte i belongs to field f. */
  predicate Covers(f: Field, i: int)
  {
    Offset(f) <= i < Offset(f) + Width(f)
  }

  /** Byte i belongs to one of the six fields, so the decoder reads it. */
  predicate Inspected(i: int)
  {
    Covers(BytsPerSec, i) || Covers(SecPerClus, i) || Covers(RsvdSecCnt, i) ||
    Covers(NumFATs, i) || Covers(FATSz32, i) || Covers(RootClus, i)
  }

  /** The field an inspected byte belongs to. */
  function FieldCovering(i: int): (f: Field)
    requires Inspected(i)
    ensures Covers(f, i)
  {
    if Covers(BytsPerSec, i) then BytsPerSec
    else if Covers(SecPerClus, i) then SecPerClus
    else if Covers(RsvdSecCnt, i) then RsvdSecCnt
    else if Covers(NumFATs, i) then NumFATs
    else if Covers(FATSz32, i) then FATSz32
    else RootClus
  }

  /** The descriptor field that holds BPB field f. */
  function FieldOf(bs: BootSector, f: Field): nat
  {
    match f
    case BytsPerSec => bs.bytesPerSector as nat
    case SecPerClus => bs.sectorsPerCluster as nat
    case RsvdSecCnt => bs.reservedSectors as nat
    case NumFATs => bs.numFats as nat
    case FATSz32 => bs.sectorsPerFat as nat
    case RootClus => bs.rootDirFirstCluster as nat
  }

  /** A descriptor is determined by its six fields: FieldOf loses nothing. */
  lemma SameFieldsSameDescriptor(x: BootSector, y: BootSector)
    ensures x == y <==> forall f :: FieldOf(x, f) == FieldOf(y, f)
  {
    if forall f :: FieldOf(x, f) == FieldOf(y, f) {
      assert FieldOf(x, BytsPerSec) == FieldOf(y, BytsPerSec);
      assert FieldOf(x, SecPerClus) == FieldOf(y, SecPerClus);
      assert FieldOf(x, RsvdSecCnt) == FieldOf(y, RsvdSecCnt);
      assert FieldOf(x, NumFATs) == FieldOf(y, NumFATs);
      assert FieldOf(x, FATSz32) == FieldOf(y, FATSz32);
      assert FieldOf(x, RootClus) == FieldOf(y, RootClus);
    }
  }

  /** What the layout says field f holds in a sector: the little-endian integer at its offset. */
  function FieldAt(data: seq<uint8>, f: Field): (v: nat)
    requires |data| >= SectorSize
    ensures v < Pow256(Width(f))
  {
    LeValue(data[Offset(f) .. Offset(f) + Width(f)])
  }

  /**
   * `BootSector::from_bytes`: None for a buffer shorter than a sector,
   * otherwise the descriptor whose every field is the little-endian integer
   * at that field's offset.
   */
  function FromBytes(data: seq<uint8>): (r: Option<BootSector>)
    ensures r.None? <==> |data| < SectorSize
    ensures r.Some? ==> forall f :: FieldOf(r.value, f) == FieldAt(data, f)
  {
    if |data| < SectorSize then None
    else
      var bs := BootSector(
        bytesPerSector := Uint16FromLeBytes([data[11], data[12]]),
        sectorsPerCluster := data[13],
        reservedSectors := Uint16FromLeBytes([data[14], data[15]]),
        numFats := data[16],
        sectorsPerFat := Uint32FromLeBytes([data[36], data[37], data[38], data[39]]),
        rootDirFirstCluster := Uint32FromLeBytes([data[44], data[45], data[46], data[47]]));
      assert data[11..13] == [data[11], data[12]];
      assert data[14..16] == [data[14], data[15]];
      assert data[36..40] == [data[36], data[37], data[38], data[39]];
      assert data[44..48] == [data[44], data[45], data[46], data[47]];
      Some(bs)
  }

  /**
   * Writes the fields of bs into base at their offsets, little-endian, and
   * leaves every other byte of base as it is: the way a sector holding a
   * given descriptor is laid out.
   */
  function Encode(bs: BootSector, base: seq<uint8>): (image: seq<uint8>)
    requires |base| >= SectorSize
    ensures |image| == |base|
    ensures forall i | 0 <= i < |base| && !Inspected(i) :: image[i] == base[i]
  {
    seq(|base|, i requires 0 <= i < |base| =>
      if Covers(BytsPerSec, i) then LeBytes(bs.bytesPerSector as nat, 2)[i - 11]
      else if Covers(SecPerClus, i) then bs.sectorsPerCluster
      else if Covers(RsvdSecCnt, i) then LeBytes(bs.reservedSectors as nat, 2)[i - 14]
      else if Covers(NumFATs, i) then bs.numFats
      else if Covers(FATSz32, i) then LeBytes(bs.sectorsPerFat as nat, 4)[i - 36]
      else if Covers(RootClus, i) then LeBytes(bs.rootDirFirstCluster as nat, 4)[i - 44]
      else base[i])
  }

  /** Every field of an encoded image holds the little-endian bytes of the descriptor's value. */
  lemma EncodeFieldBytes(bs: BootSector, base: seq<uint8>, f: Field)
    requires |base| >= SectorSize
    ensures Encode(bs, base)[Offset(f) .. Offset(f) + Width(f)] == LeBytes(FieldOf(bs, f), Width(f))
  {
    var image := Encode(bs, base);
    var want := LeBytes(FieldOf(bs, f), Width(f));
    if f == SecPerClus || f == NumFATs {
      assert want == [FieldOf(bs, f) as uint8];
    }
    assert forall k | 0 <= k < Width(f) :: image[Offset(f) + k] == want[k];
  }

  /** Decoding the image of a descriptor gives that descriptor back, whatever the other bytes are. */
  lemma DecodeEncode(bs: BootSector, base: seq<uint8>)
    requires |base| >= SectorSize
    ensures FromBytes(Encode(bs, base)) == Some(bs)
  {
    var image := Encode(bs, base);
    var r := FromBytes(image);
    forall f
      ensures FieldOf(r.value, f) == FieldOf(bs, f)
    {
      EncodeFieldBytes(bs, base, f);
      var v := FieldOf(bs, f);
      assert v < Pow256(Width(f));
      LeValueOfLeBytes(v, Width(f));
    }
    SameFieldsSameDescriptor(r.value, bs);
  }

  /** Writing back the descriptor decoded from a sector leaves the sector unchanged. */
  lemma EncodeDecode(data: seq<uint8>)
    requires |data| >= SectorSize
    ensures FromBytes(data).Some? && Encode(FromBytes(data).value, data) == data
  {
  }

  /**
   * Offset independence: two sectors that agree on the bytes of the six
   * fields (11-16, 36-39 and 44-47) decode to the same descriptor, whatever
   * their lengths and all other bytes.
   */
  lemma SameFieldBytesSameDescriptor(a: seq<uint8>, b: seq<uint8>)
    requires |a| >= SectorSize && |b| >= SectorSize
    requires forall i | 0 <= i < SectorSize && Inspected(i) :: a[i] == b[i]
    ensures FromBytes(a) == FromBytes(b)
  {
  }

  /** The converse: sectors that decode alike agree on every byte of the six fields. */
  lemma SameDescriptorSameFieldBytes(a: seq<uint8>, b: seq<uint8>, i: nat)
    requires |a| >= SectorSize && |b| >= SectorSize
    requires FromBytes(a) == FromBytes(b)
    requires Inspected(i)
    ensures a[i] == b[i]
  {
    var f := FieldCovering(i);
    var sa, sb := a[Offset(f) .. Offset(f) + Width(f)], b[Offset(f) .. Offset(f) + Width(f)];
    assert FieldAt(a, f) == FieldAt(b, f);
    LeValueInjective(sa, sb);
    assert sa[i - Offset(f)] == a[i] && sb[i - Offset(f)] == b[i];
  }

  /**
   * Together: two sectors decode to the same descriptor exactly when they
   * agree on the bytes of the six fields.
   */
  lemma SameDescriptorIffSameFieldBytes(a: seq<uint8>, b: seq<uint8>)
    requires |a| >= SectorSize && |b| >= SectorSize
    ensures FromBytes(a) == FromBytes(b) <==>
      forall i | 0 <= i < SectorSize && Inspected(i) :: a[i] == b[i]
  {
    if forall i | 0 <= i < SectorSize && Inspected(i) :: a[i] == b[i] {
      SameFieldBytesSameDescriptor(a, b);
    }
    if FromBytes(a) == FromBytes(b) {
      forall i | 0 <= i < SectorSize && Inspected(i)
        ensures a[i] == b[i]
      {
        SameDescriptorSameFieldBytes(a, b, i);
      }
    }
  }

  /**
   * Changing a byte outside the six fields, anywhere in a buffer of any
   * length, never changes the result.
   */
  lemma UninspectedByteIgnored(data: seq<uint8>, i: nat, v: uint8)
    requires i < |data| && !Inspected(i)
    ensures FromBytes(data[i := v]) == FromBytes(data)
  {
    if |data| >= SectorSize {
      SameDescriptorIffSameFieldBytes(data[i := v], data);
    }
  }

  /** Changing any byte of the six fields always changes the descriptor: every byte read matters. */
  lemma InspectedByteMatters(data: seq<uint8>, i: nat, v: uint8)
    requires |data| >= SectorSize && Inspected(i) && data[i] != v
    ensures FromBytes(data[i := v]) != FromBytes(data)
  {
    SameDescriptorIffSameFieldBytes(data[i := v], data);
    assert data[i := v][i] != data[i];
  }

  /**
   * The six fields in arithmetic terms: the two 16-bit fields are
   * byte + 256 * next byte, the two 8-bit fields are the byte copied with no
   * check, the two 32-bit fields weigh four bytes by powers of 256, least
   * significant first.
   */
  lemma FieldValues(data: seq<uint8>)
    requires |data| >= SectorSize
    ensures var bs := FromBytes(data).value;
      && bs.bytesPerSector as int == data[11] as int + 256 * data[12] as int
      && bs.sectorsPerCluster == data[13]
      && bs.reservedSectors as int == data[14] as int + 256 * data[15] as int
      && bs.numFats == data[16]
      && bs.sectorsPerFat as int ==
           data[36] as int + 256 * data[37] as int + 65536 * data[38] as int + 16777216 * data[39] as int
      && bs.rootDirFirstCluster as int ==
           data[44] as int + 256 * data[45] as int + 65536 * data[46] as int + 16777216 * data[47] as int
  {
  }

  /**
   * Byte order: the bytes 0x34, 0x12 at offsets 11-12 give the sector size
   * 0x1234, and 0x78, 0x56, 0x34, 0x12 at offsets 36-39 give
   * 0x12345678: the least-significant byte comes first.
   */
  lemma LittleEndianOrder(data: seq<uint8>)
    requires |data| >= SectorSize
    requires data[11] == 0x34 && data[12] == 0x12
    requires data[36] == 0x78 && data[37] == 0x56 && data[38] == 0x34 && data[39] == 0x12
    ensures FromBytes(data).value.bytesPerSector == 0x1234
    ensures FromBytes(data).value.sectorsPerFat == 0x1234_5678
  {
    FieldValues(data);
  }
}
