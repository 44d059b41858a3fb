/** Volume geometry: the boot sector of an NTFS volume and the quantities derived from it. */
module Geometry {
  import opened Common
  import opened Bytes
  import opened Structures

  /** The eight bytes "NTFS    " at offset 3, read as a little-endian ulong. */
  const NtfsSignature: u64 := 0x2020_2020_5346_544E

  const BootSectorSize: nat := 512

  /** The fields of BootSector.cs the reader uses. */
  datatype BootSector = BootSector(
    signature: u64,
    bytesPerSector: u16,
    sectorsPerCluster: u8,
    totalSectors: u64,
    mftStartLcn: u64,
    mft2StartLcn: u64,
    clustersPerMftRecord: u32,
    clustersPerIndexRecord: u32)

  function ParseBootSector(sector: seq<u8>): BootSector
    requires |sector| == BootSectorSize
  {
    BootSector(
      U64At(sector, 3), U16At(sector, 11), sector[13], U64At(sector, 40),
      U64At(sector, 48), U64At(sector, 56), U32At(sector, 64), U32At(sector, 68))
  }

  /** The writer's side: the fields of `b` laid over an arbitrary 512-byte sector. */
  function BootSectorBytes(b: BootSector, filler: seq<u8>): (s: seq<u8>)
    requires |filler| == BootSectorSize
    ensures |s| == BootSectorSize
  {
    Pow2Widths();
    var s1 := Overwrite(filler, 3, LeBytes(b.signature, 8));
    var s2 := Overwrite(s1, 11, LeBytes(b.bytesPerSector, 2));
    var s3 := Overwrite(s2, 13, [b.sectorsPerCluster]);
    var s4 := Overwrite(s3, 40, LeBytes(b.totalSectors, 8));
    var s5 := Overwrite(s4, 48, LeBytes(b.mftStartLcn, 8));
    var s6 := Overwrite(s5, 56, LeBytes(b.mft2StartLcn, 8));
    var s7 := Overwrite(s6, 64, LeBytes(b.clustersPerMftRecord, 4));
    Overwrite(s7, 68, LeBytes(b.clustersPerIndexRecord, 4))
  }

  /** A field is not disturbed by a write that does not overlap it. */
  lemma FieldUntouched(s: seq<u8>, off: nat, width: nat, woff: nat, bytes: seq<u8>)
    requires off + width <= |s| && woff + |bytes| <= |s|
    requires off + width <= woff || woff + |bytes| <= off
    ensures LeAt(Overwrite(s, woff, bytes), off, width) == LeAt(s, off, width)
  {
    assert Overwrite(s, woff, bytes)[off..off + width] == s[off..off + width];
  }

  /** A field written with `LeBytes` reads back as its value. */
  lemma FieldWritten(s: seq<u8>, off: nat, n: nat, width: nat)
    requires n < Pow2(8 * width) && off + width <= |s|
    ensures LeAt(Overwrite(s, off, LeBytes(n, width)), off, width) == n
  {
    FieldRoundTrip(s, off, n, width);
  }

  /** Decoding the boot sector recovers every field that was written into it. */
  lemma {:induction false} BootSectorRoundTrip(b: BootSector, filler: seq<u8>)
    requires |filler| == BootSectorSize
    ensures ParseBootSector(BootSectorBytes(b, filler)) == b
  {
    Pow2Widths();
    var s0 := filler;
    var s1 := Overwrite(s0, 3, LeBytes(b.signature, 8));
    var s2 := Overwrite(s1, 11, LeBytes(b.bytesPerSector, 2));
    var s3 := Overwrite(s2, 13, [b.sectorsPerCluster]);
    var s4 := Overwrite(s3, 40, LeBytes(b.totalSectors, 8));
    var s5 := Overwrite(s4, 48, LeBytes(b.mftStartLcn, 8));
    var s6 := Overwrite(s5, 56, LeBytes(b.mft2StartLcn, 8));
    var s7 := Overwrite(s6, 64, LeBytes(b.clustersPerMftRecord, 4));
    var s8 := Overwrite(s7, 68, LeBytes(b.clustersPerIndexRecord, 4));
    assert s8 == BootSectorBytes(b, filler);

    FieldWritten(s0, 3, b.signature, 8);
    FieldUntouched(s1, 3, 8, 11, LeBytes(b.bytesPerSector, 2));
    FieldUntouched(s2, 3, 8, 13, [b.sectorsPerCluster]);
    FieldUntouched(s3, 3, 8, 40, LeBytes(b.totalSectors, 8));
    FieldUntouched(s4, 3, 8, 48, LeBytes(b.mftStartLcn, 8));
    FieldUntouched(s5, 3, 8, 56, LeBytes(b.mft2StartLcn, 8));
    FieldUntouched(s6, 3, 8, 64, LeBytes(b.clustersPerMftRecord, 4));
    FieldUntouched(s7, 3, 8, 68, LeBytes(b.clustersPerIndexRecord, 4));

    FieldWritten(s1, 11, b.bytesPerSector, 2);
    FieldUntouched(s2, 11, 2, 13, [b.sectorsPerCluster]);
    FieldUntouched(s3, 11, 2, 40, LeBytes(b.totalSectors, 8));
    FieldUntouched(s4, 11, 2, 48, LeBytes(b.mftStartLcn, 8));
    FieldUntouched(s5, 11, 2, 56, LeBytes(b.mft2StartLcn, 8));
    FieldUntouched(s6, 11, 2, 64, LeBytes(b.clustersPerMftRecord, 4));
    FieldUntouched(s7, 11, 2, 68, LeBytes(b.clustersPerIndexRecord, 4));

    assert s3[13] == b.sectorsPerCluster;
    assert s8[13] == s3[13];

    FieldWritten(s3, 40, b.totalSectors, 8);
    FieldUntouched(s4, 40, 8, 48, LeBytes(b.mftStartLcn, 8));
    FieldUntouched(s5, 40, 8, 56, LeBytes(b.mft2StartLcn, 8));
    FieldUntouched(s6, 40, 8, 64, LeBytes(b.clustersPerMftRecord, 4));
    FieldUntouched(s7, 40, 8, 68, LeBytes(b.clustersPerIndexRecord, 4));

    FieldWritten(s4, 48, b.mftStartLcn, 8);
    FieldUntouched(s5, 48, 8, 56, LeBytes(b.mft2StartLcn, 8));
    FieldUntouched(s6, 48, 8, 64, LeBytes(b.clustersPerMftRecord, 4));
    FieldUntouched(s7, 48, 8, 68, LeBytes(b.clustersPerIndexRecord, 4));

    FieldWritten(s5, 56, b.mft2StartLcn, 8);
    FieldUntouched(s6, 56, 8, 64, LeBytes(b.clustersPerMftRecord, 4));
    FieldUntouched(s7, 56, 8, 68, LeBytes(b.clustersPerIndexRecord, 4));

    FieldWritten(s6, 64, b.clustersPerMftRecord, 4);
    FieldUntouched(s7, 64, 4, 68, LeBytes(b.clustersPerIndexRecord, 4));

    FieldWritten(s7, 68, b.clustersPerIndexRecord, 4);

    U64AtIsLe(s8, 3);
    U16AtIsLe(s8, 11);
    U64AtIsLe(s8, 40);
    U64AtIsLe(s8, 48);
    U64AtIsLe(s8, 56);
    U32AtIsLe(s8, 64);
    U32AtIsLe(s8, 68);
  }

  /** `BytesPerMftRecord`. A value of 128 or more is a negative signed byte -n, meaning a record
      of 2^n bytes; the source computes `1UL << (byte)(256 - (byte)v)`, and C# takes the shift
      count of a ulong modulo 64. Below 128 the value counts clusters. */
  function BytesPerMftRecord(clustersPerMftRecord: u32, bytesPerSector: u16, sectorsPerCluster: u8): u64
  {
    if clustersPerMftRecord >= 128 then
      Pow2Widths();
      Pow2Monotone(((256 - clustersPerMftRecord % 256) % 256) % 64, 63);
      Pow2Monotone(63, 64);
      Pow2(((256 - clustersPerMftRecord % 256) % 256) % 64)
    else
      ClusterRecordBytes(clustersPerMftRecord, bytesPerSector, sectorsPerCluster)
  }

  /** `v * BytesPerSector * SectorsPerCluster` in uint arithmetic, which cannot wrap for v < 128. */
  function ClusterRecordBytes(v: u32, bytesPerSector: u16, sectorsPerCluster: u8): (r: u64)
    requires v < 128
    ensures r == v * bytesPerSector * sectorsPerCluster
  {
    ProductBound(v, bytesPerSector, sectorsPerCluster);
    v * bytesPerSector * sectorsPerCluster
  }

  lemma ProductBound(v: nat, bps: nat, spc: nat)
    requires v < 128 && bps < 0x1_0000 && spc < 0x100
    ensures v * bps * spc < 0x8000_0000
  {
    assert v * bps <= 127 * 0xFFFF by { MulLe(v, 127, bps, 0xFFFF); }
    MulLe(v * bps, 127 * 0xFFFF, spc, 0xFF);
  }

  lemma MulLe(a: nat, b: nat, c: nat, d: nat)
    requires a <= b && c <= d
    ensures a * c <= b * d
  {
  }

  /** `(ulong)(BytesPerSector * SectorsPerCluster)`, an int product that cannot overflow. */
  function ClusterBytes(bytesPerSector: u16, sectorsPerCluster: u8): (r: u64)
    ensures r == bytesPerSector * sectorsPerCluster
  {
    MulLe(bytesPerSector, 0xFFFF, sectorsPerCluster, 0xFF);
    bytesPerSector * sectorsPerCluster
  }

  /** `TotalSectors / SectorsPerCluster`, computed only when the divisor is not zero. */
  function TotalClusters(totalSectors: u64, sectorsPerCluster: u8): (r: u64)
    ensures sectorsPerCluster == 0 ==> r == 0
    ensures sectorsPerCluster > 0 ==> r * sectorsPerCluster <= totalSectors < (r + 1) * sectorsPerCluster
  {
    if sectorsPerCluster > 0 then
      DivBounds(totalSectors, sectorsPerCluster);
      totalSectors / sectorsPerCluster
    else 0
  }

  lemma DivBounds(n: nat, d: nat)
    requires d > 0
    ensures n / d <= n
    ensures (n / d) * d <= n < (n / d + 1) * d
  {
    var q := n / d;
    assert n == q * d + n % d;
    MulLe(q, q, 1, d);
    assert (q + 1) * d == q * d + d;
  }

  /** The geometry the reader derives; `Err(InvalidFormat)` unless the NTFS signature is there. */
  function DecodeDiskInfo(sector: seq<u8>): (r: Result<DiskInfo>)
    requires |sector| == BootSectorSize
    ensures r.Ok? <==> ParseBootSector(sector).signature == NtfsSignature
  {
    var b := ParseBootSector(sector);
    if b.signature != NtfsSignature then Err(InvalidFormat)
    else
      Ok(DiskInfo(
        b.bytesPerSector, b.sectorsPerCluster, b.totalSectors, b.mftStartLcn, b.mft2StartLcn,
        b.clustersPerMftRecord, b.clustersPerIndexRecord,
        BytesPerMftRecord(b.clustersPerMftRecord, b.bytesPerSector, b.sectorsPerCluster),
        ClusterBytes(b.bytesPerSector, b.sectorsPerCluster),
        TotalClusters(b.totalSectors, b.sectorsPerCluster)))
  }

  /** A boot sector written with the NTFS signature decodes to exactly the geometry it describes;
      written with any other signature it is refused. */
  lemma DecodeEncodedBootSector(b: BootSector, filler: seq<u8>)
    requires |filler| == BootSectorSize
    ensures b.signature != NtfsSignature ==> DecodeDiskInfo(BootSectorBytes(b, filler)) == Err(InvalidFormat)
    ensures b.signature == NtfsSignature ==>
      var r := DecodeDiskInfo(BootSectorBytes(b, filler));
      r.Ok? &&
      r.value.bytesPerSector == b.bytesPerSector &&
      r.value.sectorsPerCluster == b.sectorsPerCluster &&
      r.value.totalSectors == b.totalSectors &&
      r.value.mftStartLcn == b.mftStartLcn &&
      r.value.mft2StartLcn == b.mft2StartLcn &&
      r.value.clustersPerMftRecord == b.clustersPerMftRecord &&
      r.value.clustersPerIndexRecord == b.clustersPerIndexRecord &&
      r.value.bytesPerCluster == b.bytesPerSector * b.sectorsPerCluster &&
      (b.sectorsPerCluster > 0 ==> r.value.totalClusters * b.sectorsPerCluster <= b.totalSectors
                                   < (r.value.totalClusters + 1) * b.sectorsPerCluster) &&
      (b.sectorsPerCluster == 0 ==> r.value.totalClusters == 0)
  {
    BootSectorRoundTrip(b, filler);
    var r := DecodeDiskInfo(BootSectorBytes(b, filler));
    if b.signature == NtfsSignature {
      assert r.value.totalClusters == TotalClusters(b.totalSectors, b.sectorsPerCluster);
    }
  }

  /** The usual encodings 0xE1..0xFF (-31..-1) give a record of 2^(256 - v) bytes; 0xF6 gives the
      common 1024. */
  lemma NegativeClustersPerRecord(v: u32, bytesPerSector: u16, sectorsPerCluster: u8)
    requires 193 <= v < 256
    ensures BytesPerMftRecord(v, bytesPerSector, sectorsPerCluster) == Pow2(256 - v)
    ensures v == 0xF6 ==> BytesPerMftRecord(v, bytesPerSector, sectorsPerCluster) == 1024
  {
    if v == 0xF6 {
      Pow2Add(2, 8);
      Pow2Widths();
      assert Pow2(2) == 4 by { assert Pow2(1) == 2; }
    }
  }

  /** The shift count is masked: 0x80 (-128) yields a one-byte record, not 2^128 bytes. */
  lemma ShiftCountMasked(bytesPerSector: u16, sectorsPerCluster: u8)
    ensures BytesPerMftRecord(0x80, bytesPerSector, sectorsPerCluster) == 1
    ensures BytesPerMftRecord(0xC0, bytesPerSector, sectorsPerCluster) == 1
  {
  }

  /** Below 128 the value counts clusters. */
  lemma PositiveClustersPerRecord(v: u32, bytesPerSector: u16, sectorsPerCluster: u8)
    requires v < 128
    ensures BytesPerMftRecord(v, bytesPerSector, sectorsPerCluster) == v * (bytesPerSector * sectorsPerCluster)
  {
    assert v * bytesPerSector * sectorsPerCluster == v * (bytesPerSector * sectorsPerCluster);
  }
}
