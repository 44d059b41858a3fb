/** The reader's value types and the packed on-disk layouts it decodes. Field offsets are those of
    the `Pack = 1` structs of src/NtfsReader/Structures. */
module Structures {
  import opened Common
  import opened Bytes

  /** Fragment location of a run that occupies no clusters on disk. */
  const VIRTUALFRAGMENT: u64 := 0xFFFF_FFFF_FFFF_FFFF
  /** Inode number of the volume's root directory. */
  const ROOTDIRECTORY: u32 := 5

  // Members of the AttributeType enum, with the type codes NTFS assigns them. Nothing in the
  // model depends on the particular values, only on their being distinct.
  const AttributeStandardInformation: u32 := 0x10
  const AttributeAttributeList: u32 := 0x20
  const AttributeFileName: u32 := 0x30
  const AttributeData: u32 := 0x80
  const AttributeBitmap: u32 := 0xB0
  /** The four bytes 0xFF that close the attribute list of a record. */
  const AttributeEndMarker: u32 := 0xFFFF_FFFF

  /** RecordType.File: the 'FILE' magic of an MFT record, read as a little-endian uint. */
  const RecordTypeFile: u32 := 0x454C_4946

  /** The Attributes flags enum, kept as its `uint` value; only Directory is produced by the
      reader itself. */
  const Directory: u32 := 16

  // RetrieveMode flags.
  const Minimal: bv32 := 0
  const StandardInformations: bv32 := 1
  const Streams: bv32 := 2
  const Fragments: bv32 := 4

  /** `(mode & flag) == flag`, the test the source applies to its RetrieveMode. */
  predicate HasFlag(mode: bv32, flag: bv32) {
    mode & flag == flag
  }

  /** One entry of the node table, for one inode slot. */
  datatype Node = Node(attributes: u32, parentNodeIndex: u32, size: u64, nameIndex: nat)

  /** `new Node()`: the zero-valued placeholder of an unused slot. */
  const EmptyNode: Node := Node(0, 0, 0, 0)

  /** A run of clusters: where it lies on disk, and the virtual cluster number that follows it. */
  datatype Fragment = Fragment(lcn: u64, nextVcn: u64)

  /** The three timestamps kept per node, in the order of the struct's fields. */
  datatype StandardInformation = StandardInformation(creationTime: u64, lastAccessTime: u64, lastChangeTime: u64)

  /** The value of one stream once the scan has finished with it. */
  datatype StreamInfo = StreamInfo(clusters: u64, size: u64, attributeType: u32, nameIndex: nat, fragments: seq<Fragment>)

  /** A stream of a node, which the attribute walk creates and then updates in place. */
  class Stream {
    var clusters: u64
    var size: u64
    const attributeType: u32
    const nameIndex: nat
    var fragments: seq<Fragment>

    function Value(): StreamInfo
      reads this
    {
      StreamInfo(clusters, size, attributeType, nameIndex, fragments)
    }

    constructor (nameIndex: nat, attributeType: u32, size: u64)
      ensures Value() == StreamInfo(0, size, attributeType, nameIndex, [])
    {
      this.nameIndex := nameIndex;
      this.attributeType := attributeType;
      this.size := size;
      this.clusters := 0;
      this.fragments := [];
    }
  }

  /** The abstract values of a list of streams. */
  function Values(streams: seq<Stream>): (vs: seq<StreamInfo>)
    reads set s | s in streams
    ensures |vs| == |streams|
    ensures forall j :: 0 <= j < |streams| ==> vs[j] == streams[j].Value()
  {
    if |streams| == 0 then [] else [streams[0].Value()] + Values(streams[1..])
  }

  /** No stream object occurs twice in the list. */
  predicate Distinct(streams: seq<Stream>) {
    forall i, j :: 0 <= i < j < |streams| ==> streams[i] != streams[j]
  }

  /** Geometry of the volume, decoded from its boot sector. */
  datatype DiskInfo = DiskInfo(
    bytesPerSector: u16,
    sectorsPerCluster: u8,
    totalSectors: u64,
    mftStartLcn: u64,
    mft2StartLcn: u64,
    clustersPerMftRecord: u32,
    clustersPerIndexRecord: u32,
    bytesPerMftRecord: u64,
    bytesPerCluster: u64,
    totalClusters: u64)

  /** The tables the scan leaves behind. They are never written again, so the query layer reads
      them as a value. An absent table (`None`) is a table the retrieve mode did not allocate. */
  datatype Volume = Volume(
    nodes: seq<Node>,
    names: seq<Utf16>,
    streams: Option<seq<Option<seq<StreamInfo>>>>,
    standardInformations: Option<seq<StandardInformation>>,
    retrieveMode: bv32,
    driveName: Utf16)

  // RecordHeader (RecordHeader.cs): Type at 0, UsaOffset at 4, UsaCount at 6.
  function RecordTypeOf(rec: seq<u8>): u32
    requires |rec| >= 4
  {
    U32At(rec, 0)
  }

  function UsaOffsetOf(rec: seq<u8>): u16
    requires |rec| >= 8
  {
    U16At(rec, 4)
  }

  function UsaCountOf(rec: seq<u8>): u16
    requires |rec| >= 8
  {
    U16At(rec, 6)
  }

  // FileRecordHeader (FileRecordHeader.cs): AttributeOffset at 20, Flags at 22, BytesInUse at 24,
  // BaseFileRecord at 32 (low part) and 36 (high part).
  const FileRecordHeaderReadSize: nat := 38

  function AttributeOffsetOf(rec: seq<u8>): u16
    requires |rec| >= FileRecordHeaderReadSize
  {
    U16At(rec, 20)
  }

  function RecordFlagsOf(rec: seq<u8>): u16
    requires |rec| >= FileRecordHeaderReadSize
  {
    U16At(rec, 22)
  }

  function BytesInUseOf(rec: seq<u8>): u32
    requires |rec| >= FileRecordHeaderReadSize
  {
    U32At(rec, 24)
  }

  /** `((ulong)high << 32) + low` of the record's base-record reference. */
  function BaseInodeOf(rec: seq<u8>): nat
    requires |rec| >= FileRecordHeaderReadSize
  {
    U16At(rec, 36) * TWO_32 + U32At(rec, 32)
  }

  // Attribute (Attribute.cs), 16 bytes: AttributeType at 0, Length at 4, Nonresident at 8,
  // NameLength at 9, NameOffset at 10.
  const AttributeHeaderSize: nat := 16
  // ResidentAttribute (ResidentAttribute.cs): ValueLength at 16, ValueOffset at 20.
  const ResidentHeaderSize: nat := 24
  // NonResidentAttribute (NonResidentAttribute.cs): StartingVcn at 16, RunArrayOffset at 32,
  // DataSize at 48; the fields read end at 56.
  const NonResidentHeaderReadSize: nat := 56
  // AttributeFileName (AttributeFileName.cs): ParentDirectory low part at 0 and high part at 4,
  // NameLength at 64, NameType at 65, the UTF-16 name from 66.
  const FileNameHeaderSize: nat := 66
  // AttributeStandardInformation (AttributeStandardInformation.cs): CreationTime at 0,
  // FileChangeTime at 8, LastAccessTime at 24, FileAttributes at 32.
  const StandardInformationReadSize: nat := 36

  /** `count` UTF-16 code units stored little-endian at `off`. */
  function Utf16At(s: seq<u8>, off: nat, count: nat): (r: Utf16)
    requires off + 2 * count <= |s|
    ensures |r| == count
    ensures forall k :: 0 <= k < count ==> r[k] == U16At(s, off + 2 * k)
    decreases count
  {
    if count == 0 then [] else [U16At(s, off)] + Utf16At(s, off + 2, count - 1)
  }
}
