/** The reader: the object that holds the volume's geometry, the shared name table and the tables
    the scan of the master file table fills, with the operations that fill them. The volume is
    the byte sequence `disk` that every raw read copies from. */
module Reader {
  import opened Common
  import opened Bytes
  import opened Structures
  import opened Names
  import opened Runs
  import opened Records
  import opened RecordProperties
  import opened Geometry
  import opened Fixup
  import opened Scan

  /** The standard-information table once the walk of node `nodeIndex` stored `info` into it;
      nothing is stored while `info` is None. */
  function WithSlot(table: Option<seq<StandardInformation>>, nodeIndex: nat, info: Option<StandardInformation>)
    : (r: Option<seq<StandardInformation>>)
    ensures r.Some? <==> table.Some?
    ensures r.Some? ==> |r.value| == |table.value|
  {
    if info.Some? && table.Some? && nodeIndex < |table.value| then Some(table.value[nodeIndex := info.value])
    else table
  }

  /** The stream table once the scan stored the streams `infos` of node `nodeIndex`. */
  function WithStreams(streams: Option<seq<Option<seq<StreamInfo>>>>, nodeIndex: nat, infos: seq<StreamInfo>)
    : (r: Option<seq<Option<seq<StreamInfo>>>>)
    ensures r.Some? <==> streams.Some?
    ensures r.Some? ==> |r.value| == |streams.value|
    ensures r.Some? && nodeIndex < |r.value| ==>
              r.value[nodeIndex] == Some(infos)
              && forall i :: 0 <= i < |r.value| && i != nodeIndex ==> r.value[i] == streams.value[i]
  {
    if streams.Some? && nodeIndex < |streams.value| then Some(streams.value[nodeIndex := Some(infos)])
    else streams
  }

  /** The tables as `AllocateTables` leaves them: the $MFT's node first and the empty node in
      every other slot; when asked, a timestamp table keeping the $MFT's entry first and zero
      timestamps after it, and a stream table with no stream list in any slot. */
  ghost predicate Allocated(nodes: seq<Node>, mftNode: Node, mode: bv32, table0: Option<seq<StandardInformation>>,
                            table: Option<seq<StandardInformation>>, streams: Option<seq<Option<seq<StreamInfo>>>>)
  {
    && |nodes| > 0 && nodes[0] == mftNode
    && (forall i :: 1 <= i < |nodes| ==> nodes[i] == EmptyNode)
    && (HasFlag(mode, StandardInformations) ==>
          table0.Some? && |table0.value| > 0 && table.Some? && |table.value| == |nodes|
          && table.value[0] == table0.value[0]
          && forall i :: 1 <= i < |nodes| ==> table.value[i] == StandardInformation(0, 0, 0))
    && (HasFlag(mode, Streams) ==>
          streams.Some? && |streams.value| == |nodes| && forall i :: 0 <= i < |nodes| ==> streams.value[i].None?)
  }

  /** The $MFT's own record as read into a buffer holding `data`: `BytesPerMftRecord` bytes from
      the cluster `MftStartLcn`, the read length taken as a `uint`, then fixed up. Each failure is
      the one the read, the buffer bound or the fixup reports. */
  function LoadedMftRecord(disk: seq<u8>, info: DiskInfo, data: seq<u8>): Result<seq<u8>> {
    var bpr := info.bytesPerMftRecord;
    var n := Wrap32(bpr);
    var position := InBytes(info.mftStartLcn, info.bytesPerSector, info.sectorsPerCluster);
    if n > |data| then Err(Overrun)
    else if position + n > |disk| then Err(IoError)
    else if bpr > |data| then Err(Overrun)
    else
      var fixed := FixupSpec(disk[position..position + n] + data[n..bpr], info.bytesPerSector);
      if fixed.1.Fail? then Err(fixed.1.error) else Ok(fixed.0)
  }

  /** The $MFT's own record loaded, then interpreted. */
  function ReadMftSpec(disk: seq<u8>, info: DiskInfo, data: seq<u8>, cfg: Config, names: seq<Utf16>)
    : Result<Option<Walk>>
  {
    var load := LoadedMftRecord(disk, info, data);
    if load.Err? then Err(load.error) else MftRecord(load.value, cfg, names)
  }

  /** A record of the scan as read from the buffer: fixed up, then interpreted; None for a
      record that `ProcessMftRecord` passes over. */
  function ScannedRecord(raw: seq<u8>, bytesPerSector: u16, cfg: Config, names: seq<Utf16>): Result<Option<Walk>> {
    var fixed := FixupSpec(raw, bytesPerSector);
    if fixed.1.Fail? then Err(fixed.1.error) else MftRecord(fixed.0, cfg, names)
  }

  /** The tables after the scan loop handled record `nodeIndex`, whose interpretation is `v`: as
      they were when it was passed over, else with the node, the grown name table, its
      standard information and, when the mode asks for streams, its streams stored in its slots. */
  ghost predicate Stores(v: Option<Walk>, nodeIndex: nat, withStreams: bool, nodes: seq<Node>, nodes': seq<Node>,
                         names: seq<Utf16>, names': seq<Utf16>,
                         table: Option<seq<StandardInformation>>, table': Option<seq<StandardInformation>>,
                         streams: Option<seq<Option<seq<StreamInfo>>>>, streams': Option<seq<Option<seq<StreamInfo>>>>)
    requires nodeIndex < |nodes|
  {
    if v.None? then nodes' == nodes && names' == names && table' == table && streams' == streams
    else
      nodes' == nodes[nodeIndex := v.value.node] && names' == v.value.names
      && table' == WithSlot(table, nodeIndex, v.value.standardInformation)
      && streams' == if withStreams then WithStreams(streams, nodeIndex, v.value.streams) else streams
  }

  /** `SearchStream` by type and name index: the position of the first stream of the list that
      has both. */
  function SearchStream(streams: seq<Stream>, attributeType: u32, nameIndex: nat): (r: Option<nat>)
    reads set s | s in streams
    ensures r.Some? ==> r.value < |streams| && streams[r.value].attributeType == attributeType
                        && streams[r.value].nameIndex == nameIndex
    ensures r.Some? ==> forall j :: 0 <= j < r.value ==>
                          !(streams[j].attributeType == attributeType && streams[j].nameIndex == nameIndex)
    ensures r.None? ==> forall j :: 0 <= j < |streams| ==>
                          !(streams[j].attributeType == attributeType && streams[j].nameIndex == nameIndex)
  {
    FindStream(Values(streams), attributeType, nameIndex)
  }

  /** `SearchStream` by type alone: the position of the first stream of the list that has it. */
  function SearchStreamOfType(streams: seq<Stream>, attributeType: u32): (r: Option<nat>)
    ensures r.Some? ==> r.value < |streams| && streams[r.value].attributeType == attributeType
    ensures r.Some? ==> forall j :: 0 <= j < r.value ==> streams[j].attributeType != attributeType
    ensures r.None? ==> forall j :: 0 <= j < |streams| ==> streams[j].attributeType != attributeType
    decreases |streams|
  {
    if |streams| == 0 then None
    else if streams[0].attributeType == attributeType then Some(0)
    else
      match SearchStreamOfType(streams[1..], attributeType)
      case None => None
      case Some(k) => Some(k + 1)
  }

  /** What the scan of the master file table establishes about the tables it fills: one node
      per record the bitmap has a bit for; a record not in use keeps the empty node and no
      streams; every name index refers to the name table; the standard-information table, when
      the mode asks for it, has a slot per node; and the stream table, when the mode asks for
      it, holds well-formed stream lists, for records in use only and never for the $MFT. */
  ghost predicate ScanFacts(nodes: seq<Node>, names: seq<Utf16>, bitmap: seq<u8>, mode: bv32,
                            table: Option<seq<StandardInformation>>, streams: Option<seq<Option<seq<StreamInfo>>>>)
  {
    0 < |nodes| <= 8 * |bitmap|
    && (forall i :: 1 <= i < |nodes| && !InUse(bitmap, i) ==> nodes[i] == EmptyNode)
    && (forall i :: 0 <= i < |nodes| ==> RefersToTable(nodes[i].nameIndex, names))
    && (HasFlag(mode, StandardInformations) ==> table.Some? && |table.value| == |nodes|)
    && (HasFlag(mode, Streams) ==>
          streams.Some? && |streams.value| == |nodes| && streams.value[0].None?
          && forall i :: 0 <= i < |nodes| && streams.value[i].Some? ==>
               1 <= i && InUse(bitmap, i) && StreamsFacts(streams.value[i].value, names, mode))
  }

  /** The streams of one node: no key twice, every name index in the table, and no fragments
      unless the mode asks for them. */
  ghost predicate StreamsFacts(list: seq<StreamInfo>, names: seq<Utf16>, mode: bv32) {
    UniqueKeys(list)
    && (forall j :: 0 <= j < |list| ==> RefersToTable(list[j].nameIndex, names))
    && (!HasFlag(mode, Fragments) ==> NoFragments(list))
  }

  /** The tables `ProcessMft` allocates once the $MFT's own record is read. */
  lemma ScanFactsStart(mftNode: Node, maxInode: nat, names: seq<Utf16>, bitmap: seq<u8>, mode: bv32,
                       table: Option<seq<StandardInformation>>, streams: Option<seq<Option<seq<StreamInfo>>>>)
    requires 0 < maxInode <= 8 * |bitmap| && RefersToTable(mftNode.nameIndex, names)
    requires HasFlag(mode, StandardInformations) ==> table.Some? && |table.value| == maxInode
    requires HasFlag(mode, Streams) ==> streams == Some(seq(maxInode, _ => None))
    ensures ScanFacts([mftNode] + seq(maxInode - 1, _ => EmptyNode), names, bitmap, mode, table, streams)
  {
    var nodes := [mftNode] + seq(maxInode - 1, _ => EmptyNode);
    assert forall i :: 1 <= i < |nodes| ==> nodes[i] == EmptyNode;
  }

  /** The facts give every slot of the tables the scan writes to. */
  lemma ScanFactsBounds(nodes: seq<Node>, names: seq<Utf16>, bitmap: seq<u8>, mode: bv32,
                        table: Option<seq<StandardInformation>>, streams: Option<seq<Option<seq<StreamInfo>>>>)
    requires ScanFacts(nodes, names, bitmap, mode, table, streams)
    ensures 0 < |nodes| <= 8 * |bitmap|
    ensures HasFlag(mode, StandardInformations) ==> table.Some? && |table.value| == |nodes|
    ensures HasFlag(mode, Streams) ==> streams.Some? && |streams.value| == |nodes|
  {
  }

  /** Storing the node and the streams of a record in use keeps the facts, the name table
      having grown meanwhile. */
  lemma ScanFactsStore(nodes: seq<Node>, names: seq<Utf16>, names': seq<Utf16>, bitmap: seq<u8>, mode: bv32,
                       table: Option<seq<StandardInformation>>, streams: Option<seq<Option<seq<StreamInfo>>>>,
                       i: nat, node: Node, info: Option<StandardInformation>, list: seq<StreamInfo>)
    requires ScanFacts(nodes, names, bitmap, mode, table, streams)
    requires names <= names' && 1 <= i < |nodes| && i / 8 < |bitmap| && InUse(bitmap, i)
    requires RefersToTable(node.nameIndex, names')
    requires HasFlag(mode, Streams) ==> StreamsFacts(list, names', mode)
    ensures ScanFacts(nodes[i := node], names', bitmap, mode, WithSlot(table, i, info),
                      if HasFlag(mode, Streams) then Some(streams.value[i := Some(list)]) else streams)
  {
    var nodes' := nodes[i := node];
    assert forall k :: 0 <= k < |nodes| ==> RefersToTable(nodes'[k].nameIndex, names');
    if HasFlag(mode, Streams) {
      var st := streams.value[i := Some(list)];
      forall k | 0 <= k < |nodes| && st[k].Some?
        ensures 1 <= k && InUse(bitmap, k) && StreamsFacts(st[k].value, names', mode)
      {
        if k != i {
          assert StreamsFacts(streams.value[k].value, names, mode);
        }
      }
    }
  }

  /** The first loop of `ProcessBitmapData`: the bytes of the bitmap. */
  method SumBitmap(fragments: seq<Fragment>, bps: u16, spc: u8) returns (size: u64)
    ensures size == BitmapSize(fragments, 0, 0, bps, spc)
  {
    var vcn: u64 := 0;
    size := 0;
    for k := 0 to |fragments|
      invariant BitmapSize(fragments[k..], vcn, size, bps, spc) == BitmapSize(fragments, 0, 0, bps, spc)
    {
      BitmapSizeStep(fragments, k, vcn, size, bps, spc);
      var fragment := fragments[k];
      if fragment.lcn != VIRTUALFRAGMENT {
        size := Add64(size, InBytes(Sub64(fragment.nextVcn, vcn), bps, spc));
      }
      vcn := fragment.nextVcn;
    }
  }

  /** A sequence is its three slices. */
  lemma SlicesJoin(s: seq<u8>, d: nat, n: nat)
    requires d + n <= |s|
    ensures s == s[..d] + s[d..d + n] + s[d + n..]
  {
  }

  /** The do-while of `ReadNextChunk` as written: `fragment` is the fragment the enclosing loop
      fetched, and the loop condition tests it again on every turn, never the fragment the index
      moved to. */
  method SkipSparse(fragments: seq<Fragment>, fragment: Fragment, c: Cursor) returns (c': Cursor)
    requires c.index < |fragments|
    ensures c' == SkipAsWritten(fragments, fragment, c)
  {
    var index, vcn, realVcn := c.index, c.vcn, c.realVcn;
    while true
      invariant index < |fragments|
      invariant SkipAsWritten(fragments, fragment, c) == SkipAsWritten(fragments, fragment, Cursor(index, vcn, realVcn))
      decreases |fragments| - index
    {
      if fragment.lcn != VIRTUALFRAGMENT {
        realVcn := Sub64(Add64(realVcn, fragment.nextVcn), vcn);
      }
      vcn := fragment.nextVcn;
      index := index + 1;
      if index >= |fragments| || fragment.lcn != VIRTUALFRAGMENT {
        return Cursor(index, vcn, realVcn);
      }
    }
  }

  /** The while loop of `ReadNextChunk`, from fragment `c.index`: the fragment holding the end
      `u1` of the chunk that starts at record `nodeIndex`, as the source walks to it. */
  method FindChunk(fragments: seq<Fragment>, nodeIndex: u32, c: Cursor, bps: u16, spc: u8, bytesPerMftRecord: u64)
    returns (c': Cursor, u1: u64)
    requires bytesPerMftRecord > 0
    ensures (c', u1) == FindAsWritten(fragments, nodeIndex, c, 0, bps, spc, bytesPerMftRecord)
  {
    c', u1 := c, 0;
    while c'.index < |fragments|
      invariant FindAsWritten(fragments, nodeIndex, c, 0, bps, spc, bytesPerMftRecord)
                == FindAsWritten(fragments, nodeIndex, c', u1, bps, spc, bytesPerMftRecord)
      decreases |fragments| - c'.index
    {
      var fragment := fragments[c'.index];
      u1 := InBytes(Sub64(Add64(c'.realVcn, fragment.nextVcn), c'.vcn), bps, spc) / bytesPerMftRecord;
      if u1 > nodeIndex {
        return;
      }
      c' := SkipSparse(fragments, fragment, c');
    }
  }

  class NtfsReader {
    /** The volume, as the raw reads see it. */
    const disk: seq<u8>
    var diskInfo: DiskInfo
    var retrieveMode: bv32
    /** `_names` and the `_nameIndex` dictionary that finds a name's position in it. */
    var names: seq<Utf16>
    var nameIndex: map<Utf16, nat>
    /** The tables of the scan; None stands for a table that is null. */
    var standardInformations: Option<seq<StandardInformation>>
    var streams: Option<seq<Option<seq<StreamInfo>>>>
    var bitmapData: seq<u8>

    /** The dictionary finds every name of the list, at its position, and no name is listed twice. */
    ghost predicate NamesIndexed()
      reads this`names, this`nameIndex
    {
      Unique(names)
      && (forall name :: name in nameIndex <==> name in names)
      && (forall name :: name in nameIndex ==> nameIndex[name] < |names| && names[nameIndex[name]] == name)
    }

    /** The state the field initialisers give: an empty name table and no tables yet. Finding
        and opening the volume is not part of this model. */
    constructor (disk: seq<u8>, retrieveMode: bv32)
      ensures this.disk == disk && this.retrieveMode == retrieveMode
      ensures names == [] && NamesIndexed()
      ensures standardInformations == None && streams == None && bitmapData == []
    {
      this.disk := disk;
      this.retrieveMode := retrieveMode;
      diskInfo := DiskInfo(0, 0, 0, 0, 0, 0, 0, 0, 0, 0);
      names := [];
      nameIndex := map[];
      standardInformations := None;
      streams := None;
      bitmapData := [];
    }

    /** `GetNameIndex`: the position of `name` in the table, appending it when it is new. */
    method GetNameIndex(name: Utf16) returns (i: nat)
      requires NamesIndexed()
      modifies this`names, this`nameIndex
      ensures NamesIndexed()
      ensures (i, names) == Intern(old(names), name)
    {
      if name in nameIndex {
        i := nameIndex[name];
        assert IndexOf(names, name) == i;
        return;
      }
      names := names + [name];
      nameIndex := nameIndex[name := |names| - 1];
      i := |names| - 1;
    }

    /** `ReadFile`: `len` bytes, taken as a `uint`, of the volume from `position` into `buffer`
        at `start`. A read that runs past the end of the volume fails as a short read does
        (IoError); a destination past the end of the buffer is an overrun. */
    method ReadFile(buffer: array<u8>, start: nat, len: u64, position: u64) returns (o: Outcome)
      modifies buffer
      ensures var n := Wrap32(len);
              (o.Pass? <==> start + n <= buffer.Length && position + n <= |disk|)
              && (o.Fail? ==> o.error == (if start + n > buffer.Length then Overrun else IoError))
              && (o.Pass? ==> buffer[start..start + n] == disk[position..position + n]
                              && buffer[..start] == old(buffer[..start])
                              && buffer[start + n..] == old(buffer[start + n..]))
      ensures o.Fail? ==> buffer[..] == old(buffer[..])
    {
      var n: nat := Wrap32(len);
      if start + n > buffer.Length {
        return Fail(Overrun);
      }
      if position + n > |disk| {
        return Fail(IoError);
      }
      var k := 0;
      while k < n
        invariant k <= n
        invariant buffer[start..start + k] == disk[position..position + k]
        invariant buffer[..start] == old(buffer[..start])
        invariant buffer[start + k..] == old(buffer[start + k..])
      {
        buffer[start + k] := disk[position + k];
        k := k + 1;
      }
      o := Pass;
    }

    /** `InitializeDiskInfo`: the geometry decoded from the 512 bytes at the start of the volume. */
    method InitializeDiskInfo() returns (o: Outcome)
      modifies this`diskInfo
      ensures o.Pass? <==> |disk| >= BootSectorSize && DecodeDiskInfo(disk[..BootSectorSize]).Ok?
      ensures o.Fail? ==> o.error == (if |disk| < BootSectorSize then IoError else InvalidFormat)
      ensures o.Pass? ==> diskInfo == DecodeDiskInfo(disk[..BootSectorSize]).value
    {
      var volumeData := new u8[BootSectorSize];
      o := ReadFile(volumeData, 0, BootSectorSize, 0);
      if o.Fail? {
        return;
      }
      assert volumeData[..] == disk[..BootSectorSize];
      var info := DecodeDiskInfo(volumeData[..]);
      if info.Err? {
        return Fail(info.error);
      }
      diskInfo := info.value;
    }

    /** `ProcessBitmapData`: the bitmap of the records in use, read from the fragments of the
        `$BITMAP` stream among the streams of the $MFT's record. */
    method ProcessBitmapData(mftStreams: seq<Stream>) returns (r: Result<seq<u8>>)
      ensures var found := SearchStreamOfType(mftStreams, AttributeBitmap);
              (found.None? ==> r == Err(MissingBitmap))
              && (found.Some? ==> r == Bitmap(disk, mftStreams[found.value].fragments,
                                              diskInfo.bytesPerSector, diskInfo.sectorsPerCluster))
    {
      var found := SearchStreamOfType(mftStreams, AttributeBitmap);
      if found.None? {
        return Err(MissingBitmap);
      }
      var fragments := mftStreams[found.value].fragments;
      var bps, spc := diskInfo.bytesPerSector, diskInfo.sectorsPerCluster;
      var size := SumBitmap(fragments, bps, spc);
      var bitmap := new u8[size](_ => 0);
      assert bitmap[..] == Zeros(size);
      var o := FillBitmap(bitmap, fragments);
      if o.Fail? {
        return Err(o.error);
      }
      return Ok(bitmap[..]);
    }

    /** The second loop of `ProcessBitmapData`: each real fragment read into `bitmap`. */
    method FillBitmap(bitmap: array<u8>, fragments: seq<Fragment>) returns (o: Outcome)
      modifies bitmap
      ensures var bps, spc := diskInfo.bytesPerSector, diskInfo.sectorsPerCluster;
              var spec := PerformAll(disk, old(bitmap[..]), BitmapReads(fragments, 0, 0, bps, spc));
              (o.Pass? ==> spec == Ok(bitmap[..])) && (o.Fail? ==> spec == Err(o.error))
    {
      hide Perform, InBytes;
      var bps, spc := diskInfo.bytesPerSector, diskInfo.sectorsPerCluster;
      ghost var spec := PerformAll(disk, bitmap[..], BitmapReads(fragments, 0, 0, bps, spc));
      var vcn: u64 := 0;
      var realVcn: u64 := 0;
      for k := 0 to |fragments|
        invariant PerformAll(disk, bitmap[..], BitmapReads(fragments[k..], vcn, realVcn, bps, spc)) == spec
      {
        BitmapReadsStep(fragments, k, vcn, realVcn, bps, spc);
        var fragment := fragments[k];
        if fragment.lcn != VIRTUALFRAGMENT {
          var read := Read(InBytes(realVcn, bps, spc), InBytes(Sub64(fragment.nextVcn, vcn), bps, spc),
                           InBytes(fragment.lcn, bps, spc));
          PerformAllFirst(disk, bitmap[..], read,
                          BitmapReads(fragments[k + 1..], fragment.nextVcn, Sub64(Add64(realVcn, fragment.nextVcn), vcn), bps, spc));
          o := PerformRead(bitmap, read);
          if o.Fail? {
            return;
          }
          realVcn := Sub64(Add64(realVcn, fragment.nextVcn), vcn);
        }
        vcn := fragment.nextVcn;
      }
      assert fragments[|fragments|..] == [];
      o := Pass;
    }

    /** `ReadNextChunk`: the window of records from `nodeIndex` that the buffer receives, or false
        when the walk over the fragments of the `$DATA` stream finds none holding the record.
        The walk starts at `fragmentIndex`, a copy the caller's variable never sees change, and
        from `Vcn` and `RealVcn`, which the caller gets back (`vcn'`, `realVcn'`). */
    method ReadNextChunk(buffer: array<u8>, bufferSize: u32, nodeIndex: u32, fragmentIndex: nat, dataStream: Stream,
                         vcn: u64, realVcn: u64)
      returns (o: Result<bool>, blockStart: u64, blockEnd: u64, vcn': u64, realVcn': u64)
      modifies buffer
      ensures diskInfo.bytesPerMftRecord == 0 ==>
                o == Err(DivisionByZero) && buffer[..] == old(buffer[..]) && vcn' == vcn && realVcn' == realVcn
      ensures diskInfo.bytesPerMftRecord > 0 ==>
                var bpr := diskInfo.bytesPerMftRecord;
                var bps, spc := diskInfo.bytesPerSector, diskInfo.sectorsPerCluster;
                var found := FindAsWritten(dataStream.fragments, nodeIndex, Cursor(fragmentIndex, vcn, realVcn),
                                           0, bps, spc, bpr);
                var c := found.0;
                blockStart == nodeIndex && vcn' == c.vcn && realVcn' == c.realVcn
                && (c.index >= |dataStream.fragments| ==>
                      o == Ok(false) && buffer[..] == old(buffer[..])
                      && blockEnd == ChunkLimit(nodeIndex, bufferSize, dataStream.size, bpr))
                && (c.index < |dataStream.fragments| ==>
                      blockEnd == ChunkEnd(nodeIndex, bufferSize, dataStream.size, found.1, bpr)
                      && var read := Read(0, Mul64(Sub64(blockEnd, blockStart), bpr),
                                          ChunkPosition(c, dataStream.fragments[c.index], blockStart, bps, spc, bpr));
                         (Perform(disk, old(buffer[..]), read).Err? ==>
                            o == Err(Perform(disk, old(buffer[..]), read).error) && buffer[..] == old(buffer[..]))
                         && (Perform(disk, old(buffer[..]), read).Ok? ==>
                               o == Ok(true) && buffer[..] == Perform(disk, old(buffer[..]), read).value))
    {
      hide FindAsWritten, ChunkLimit, ChunkPosition, InBytes, Perform;
      var bpr := diskInfo.bytesPerMftRecord;
      var bps, spc := diskInfo.bytesPerSector, diskInfo.sectorsPerCluster;
      if bpr == 0 {
        return Err(DivisionByZero), 0, 0, vcn, realVcn;
      }
      blockStart := nodeIndex;
      blockEnd := ChunkLimit(nodeIndex, bufferSize, dataStream.size, bpr);
      var c, u1 := FindChunk(dataStream.fragments, nodeIndex, Cursor(fragmentIndex, vcn, realVcn), bps, spc, bpr);
      vcn', realVcn' := c.vcn, c.realVcn;
      if c.index >= |dataStream.fragments| {
        return Ok(false), blockStart, blockEnd, vcn', realVcn';
      }
      if blockEnd >= u1 {
        blockEnd := u1;
      }
      var position := ChunkPosition(c, dataStream.fragments[c.index], blockStart, bps, spc, bpr);
      var read := PerformRead(buffer, Read(0, Mul64(Sub64(blockEnd, blockStart), bpr), position));
      if read.Fail? {
        return Err(read.error), blockStart, blockEnd, vcn', realVcn';
      }
      o := Ok(true);
    }

    /** `ReadFile` carrying out one planned read. */
    method PerformRead(buffer: array<u8>, r: Read) returns (o: Outcome)
      modifies buffer
      ensures o.Pass? ==> Perform(disk, old(buffer[..]), r) == Ok(buffer[..])
      ensures o.Fail? ==> Perform(disk, old(buffer[..]), r) == Err(o.error) && buffer[..] == old(buffer[..])
    {
      ghost var before := buffer[..];
      o := ReadFile(buffer, r.destination, r.length, r.position);
      if o.Pass? {
        var d, n := r.destination, Wrap32(r.length);
        SlicesJoin(buffer[..], d, n);
        assert buffer[..d] == before[..d] && buffer[d + n..] == before[d + n..];
        assert buffer[..] == before[..d] + disk[r.position..r.position + n] + before[d + n..];
      }
    }

    /** `ProcessMft` with a buffer of `bufferSize` bytes: the $MFT's own record, the bitmap, then
        every record in use, chunk by chunk; the node table it returns and the tables it leaves
        in the reader satisfy `ScanFacts`. */
    method ProcessMft(bufferSize: u32) returns (o: Outcome, nodes: seq<Node>)
      requires NamesIndexed()
      modifies this`names, this`nameIndex, this`standardInformations, this`streams, this`bitmapData
      ensures NamesIndexed()
      ensures o.Pass? ==> ScanFacts(nodes, names, bitmapData, retrieveMode, standardInformations, streams)
                          && old(names) <= names
      ensures o.Pass? && !HasFlag(retrieveMode, StandardInformations) ==> standardInformations == old(standardInformations)
      ensures o.Pass? && !HasFlag(retrieveMode, Streams) ==> streams == old(streams)
      ensures var spec := ReadMftSpec(disk, diskInfo, seq(bufferSize, _ => 0), Config(retrieveMode, AllInstances, true, true),
                                      old(names));
              (spec.Err? ==> o == Fail(spec.error))
              && (spec.Ok? && spec.value.None? ==> o == Fail(UninterpretableMft))
    {
      hide MftRecord, FixupSpec, InBytes, ReadMftSpec;
      nodes := [];
      var data := new u8[bufferSize](_ => 0);
      assert data[..] == seq(bufferSize, _ => 0);
      var mftNode, mftStreams;
      o, mftNode, mftStreams := ReadMftRecord(data);
      if o.Fail? {
        return;
      }
      o, nodes := ScanMft(data, bufferSize, mftNode, mftStreams);
    }

    /** The rest of `ProcessMft` once the $MFT's own record is read: its bitmap, the number of
        records it spans, the tables, then the scan of every record in use. */
    method ScanMft(data: array<u8>, bufferSize: u32, mftNode: Node, mftStreams: seq<Stream>)
      returns (o: Outcome, nodes: seq<Node>)
      requires data.Length == bufferSize && NamesIndexed() && RefersToTable(mftNode.nameIndex, names)
      requires HasFlag(retrieveMode, StandardInformations) ==>
                 standardInformations.Some? && |standardInformations.value| == 1
      modifies data, this`names, this`nameIndex, this`standardInformations, this`streams, this`bitmapData
      ensures NamesIndexed()
      ensures o.Pass? ==> ScanFacts(nodes, names, bitmapData, retrieveMode, standardInformations, streams)
                          && old(names) <= names
      ensures o.Pass? && !HasFlag(retrieveMode, StandardInformations) ==> standardInformations == old(standardInformations)
      ensures o.Pass? && !HasFlag(retrieveMode, Streams) ==> streams == old(streams)
      ensures var found := SearchStreamOfType(mftStreams, AttributeBitmap);
              var bitmap := if found.None? then Err(MissingBitmap)
                            else Bitmap(disk, mftStreams[found.value].fragments,
                                        diskInfo.bytesPerSector, diskInfo.sectorsPerCluster);
              var dataStream := SearchStreamOfType(mftStreams, AttributeData);
              var bpr := diskInfo.bytesPerMftRecord;
              (bitmap.Err? ==> o == Fail(bitmap.error))
              && (bitmap.Ok? ==> bitmapData == bitmap.value)
              && (bitmap.Ok? && dataStream.None? ==> o == Fail(NullReference))
              && (bitmap.Ok? && dataStream.Some? && bpr == 0 ==> o == Fail(DivisionByZero))
              && ((bitmap.Ok? && dataStream.Some? && bpr > 0
                   && MaxInode(|bitmap.value|, mftStreams[dataStream.value].size, bpr) == 0) ==> o == Fail(IndexOutOfRange))
    {
      hide ScanFacts, Bitmap, MaxInode, Allocated;
      nodes := [];
      var bitmap := ProcessBitmapData(mftStreams);
      if bitmap.Err? {
        return Fail(bitmap.error), nodes;
      }
      bitmapData := bitmap.value;
      var found := SearchStreamOfType(mftStreams, AttributeData);
      if found.None? {
        return Fail(NullReference), nodes;
      }
      var dataStream := mftStreams[found.value];
      var bpr := diskInfo.bytesPerMftRecord;
      if bpr == 0 {
        return Fail(DivisionByZero), nodes;
      }
      var maxInode := MaxInode(|bitmapData|, dataStream.size, bpr);
      if maxInode == 0 {
        return Fail(IndexOutOfRange), nodes;
      }
      MaxInodeHasBits(|bitmapData|, dataStream.size, bpr, maxInode - 1);
      nodes := AllocateTables(mftNode, maxInode);
      o, nodes := ScanRecords(data, bufferSize, dataStream, nodes);
    }

    /** The tables of `ProcessMft` once `maxInode` is known: a node table holding the $MFT's node
        then empty nodes, the standard-information table grown to a slot per node keeping the
        $MFT's, and an empty stream table when the mode asks for streams. */
    method AllocateTables(mftNode: Node, maxInode: nat) returns (nodes: seq<Node>)
      requires 0 < maxInode <= 8 * |bitmapData| && RefersToTable(mftNode.nameIndex, names)
      requires HasFlag(retrieveMode, StandardInformations) ==>
                 standardInformations.Some? && |standardInformations.value| == 1
      modifies this`standardInformations, this`streams
      ensures ScanFacts(nodes, names, bitmapData, retrieveMode, standardInformations, streams)
      ensures |nodes| == maxInode && nodes[0] == mftNode
      ensures Allocated(nodes, mftNode, retrieveMode, old(standardInformations), standardInformations, streams)
      ensures !HasFlag(retrieveMode, StandardInformations) ==> standardInformations == old(standardInformations)
      ensures !HasFlag(retrieveMode, Streams) ==> streams == old(streams)
    {
      nodes := [mftNode] + seq(maxInode - 1, _ => EmptyNode);
      if HasFlag(retrieveMode, StandardInformations) {
        var first := standardInformations.value[0];
        standardInformations := Some([first] + seq(maxInode - 1, _ => StandardInformation(0, 0, 0)));
      }
      if HasFlag(retrieveMode, Streams) {
        streams := Some(seq(maxInode, _ => None));
      }
      ScanFactsStart(mftNode, maxInode, names, bitmapData, retrieveMode, standardInformations, streams);
    }

    /** The start of `ProcessMft`: the $MFT's own record read from the cluster `MftStartLcn`,
        fixed up and walked with its streams and their fragments, the standard-information table
        holding the one slot it fills. */
    method ReadMftRecord(data: array<u8>) returns (o: Outcome, mftNode: Node, mftStreams: seq<Stream>)
      requires NamesIndexed()
      modifies data, this`names, this`nameIndex, this`standardInformations
      ensures NamesIndexed() && Distinct(mftStreams)
      ensures o.Pass? ==> old(names) <= names && RefersToTable(mftNode.nameIndex, names)
      ensures o.Pass? && HasFlag(retrieveMode, StandardInformations) ==>
                standardInformations.Some? && |standardInformations.value| == 1
      ensures o.Pass? && !HasFlag(retrieveMode, StandardInformations) ==> standardInformations == old(standardInformations)
      ensures o.Pass? ==>
                var bpr := diskInfo.bytesPerMftRecord;
                var n := Wrap32(bpr);
                var position := InBytes(diskInfo.mftStartLcn, diskInfo.bytesPerSector, diskInfo.sectorsPerCluster);
                bpr <= data.Length && position + n <= |disk|
                && var rec := FixupSpec(disk[position..position + n] + old(data[n..bpr]), diskInfo.bytesPerSector).0;
                   var spec := MftRecord(rec, Config(retrieveMode, AllInstances, true, true), old(names));
                   data[..bpr] == rec && spec.Ok? && spec.value.Some?
                   && mftNode == spec.value.value.node && names == spec.value.value.names
                   && Values(mftStreams) == spec.value.value.streams
                   && (HasFlag(retrieveMode, StandardInformations) ==>
                         standardInformations == WithSlot(Some([StandardInformation(0, 0, 0)]), 0,
                                                          spec.value.value.standardInformation))
      ensures var spec := ReadMftSpec(disk, diskInfo, old(data[..]), Config(retrieveMode, AllInstances, true, true),
                                      old(names));
              (o.Pass? <==> spec.Ok? && spec.value.Some?)
              && (spec.Err? ==> o == Fail(spec.error))
              && (spec.Ok? && spec.value.None? ==> o == Fail(UninterpretableMft))
    {
      hide MftRecord, FixupSpec, InBytes, Wrap32, LoadedMftRecord;
      ghost var names0 := names;
      mftNode, mftStreams := EmptyNode, [];
      o := LoadMftRecord(data);
      if o.Fail? {
        return;
      }
      var bpr := diskInfo.bytesPerMftRecord;
      if HasFlag(retrieveMode, StandardInformations) {
        standardInformations := Some([StandardInformation(0, 0, 0)]);
      }
      var record := data[..bpr];
      ghost var table := standardInformations;
      ghost var spec := MftRecord(record, Config(retrieveMode, AllInstances, true, true), names0);
      var taken;
      o, taken, mftNode, mftStreams := ProcessMftRecord(record, 0, true, true);
      if o.Fail? {
        return;
      }
      if !taken {
        return Fail(UninterpretableMft), mftNode, mftStreams;
      }
      assert spec.Ok? && spec.value.Some? && mftNode == spec.value.value.node && names == spec.value.value.names
             && Values(mftStreams) == spec.value.value.streams
             && standardInformations == WithSlot(table, 0, spec.value.value.standardInformation);
      MftRecordResult(record, Config(retrieveMode, AllInstances, true, true), names0);
    }

    /** The $MFT's own record, `BytesPerMftRecord` bytes read from the cluster `MftStartLcn`
        into the start of `data` (the length taken as a `uint`) and fixed up. */
    method LoadMftRecord(data: array<u8>) returns (o: Outcome)
      modifies data
      ensures o.Pass? ==>
                var bpr := diskInfo.bytesPerMftRecord;
                var n := Wrap32(bpr);
                var position := InBytes(diskInfo.mftStartLcn, diskInfo.bytesPerSector, diskInfo.sectorsPerCluster);
                bpr <= data.Length && position + n <= |disk|
                && var fixed := FixupSpec(disk[position..position + n] + old(data[n..bpr]), diskInfo.bytesPerSector);
                   data[..bpr] == fixed.0 && fixed.1 == Pass
      ensures var load := LoadedMftRecord(disk, diskInfo, old(data[..]));
              (o.Pass? <==> load.Ok?) && (o.Fail? ==> load == Err(o.error))
              && (o.Pass? && load.Ok? ==> diskInfo.bytesPerMftRecord <= data.Length
                                          && data[..diskInfo.bytesPerMftRecord] == load.value)
    {
      hide FixupSpec;
      var bpr := diskInfo.bytesPerMftRecord;
      var bps, spc := diskInfo.bytesPerSector, diskInfo.sectorsPerCluster;
      ghost var n := Wrap32(bpr);
      var position := InBytes(diskInfo.mftStartLcn, bps, spc);
      o := ReadFile(data, 0, bpr, position);
      if o.Fail? {
        return;
      }
      if bpr > data.Length {
        return Fail(Overrun);
      }
      ghost var read := data[..bpr];
      assert read == disk[position..position + n] + old(data[n..bpr]) by {
        assert data[..bpr] == data[..n] + data[n..bpr];
        assert data[n..bpr] == old(data[n..bpr]) by {
          assert data[n..] == old(data[n..]);
          assert data[n..bpr] == data[n..][..bpr - n];
          assert old(data[n..bpr]) == old(data[n..])[..bpr - n];
        }
      }
      assert old(data[n..bpr]) == old(data[..])[n..bpr];
      o := FixupRawMftdata(data, 0, bpr, bps);
    }

    /** The loop of `ProcessMft` over the records from 1 on: a record the bitmap marks in use is
        read, chunk by chunk, and stored; the scan ends early when no fragment holds the record.
        `fragmentIndex` stays 0, so the walk for every chunk starts again at the first fragment,
        from the `Vcn` and `RealVcn` the walk for the previous chunk left. */
    method ScanRecords(data: array<u8>, bufferSize: u32, dataStream: Stream, nodes: seq<Node>)
      returns (o: Outcome, nodes': seq<Node>)
      requires data.Length == bufferSize && |nodes| < TWO_32
      requires NamesIndexed() && ScanFacts(nodes, names, bitmapData, retrieveMode, standardInformations, streams)
      modifies data, this`names, this`nameIndex, this`standardInformations, this`streams
      ensures NamesIndexed()
      ensures o.Pass? ==> ScanFacts(nodes', names, bitmapData, retrieveMode, standardInformations, streams)
                          && old(names) <= names
      ensures o.Pass? && !HasFlag(retrieveMode, StandardInformations) ==> standardInformations == old(standardInformations)
      ensures o.Pass? && !HasFlag(retrieveMode, Streams) ==> streams == old(streams)
      ensures o.Pass? ==> |nodes'| == |nodes| && nodes'[0] == nodes[0]
    {
      hide ScanFacts, FindAsWritten, ChunkLimit, ChunkEnd, ChunkPosition, Perform, InBytes, ScannedRecord, Stores, FixupSpec;
      ScanFactsBounds(nodes, names, bitmapData, retrieveMode, standardInformations, streams);
      var bpr := diskInfo.bytesPerMftRecord;
      var blockStart: u64, blockEnd: u64 := 0, 0;
      var realVcn: u64, vcn: u64 := 0, 0;
      var fragmentIndex := 0;
      nodes' := nodes;
      for nodeIndex := 1 to |nodes|
        invariant NamesIndexed() && old(names) <= names && |nodes'| == |nodes| && nodes'[0] == nodes[0]
        invariant ScanFacts(nodes', names, bitmapData, retrieveMode, standardInformations, streams)
        invariant !HasFlag(retrieveMode, StandardInformations) ==> standardInformations == old(standardInformations)
        invariant !HasFlag(retrieveMode, Streams) ==> streams == old(streams)
      {
        if !InUse(bitmapData, nodeIndex) {
          continue;
        }
        if nodeIndex >= blockEnd {
          var more;
          more, blockStart, blockEnd, vcn, realVcn :=
            ReadNextChunk(data, bufferSize, nodeIndex, fragmentIndex, dataStream, vcn, realVcn);
          if more.Err? {
            return Fail(more.error), nodes';
          }
          if !more.value {
            break;
          }
        }
        var at := Mul64(Sub64(nodeIndex, blockStart), bpr);
        if at + bpr > data.Length {
          return Fail(Overrun), nodes';
        }
        o, nodes' := ScanRecord(data, at, nodeIndex, nodes');
        if o.Fail? {
          return;
        }
      }
      o := Pass;
    }

    /** One record in use, `BytesPerMftRecord` bytes of the buffer from `at`: fixed up, walked,
        and, unless `ProcessMftRecord` passes it over, stored into the tables. A record the source
        would read from beyond the end of the buffer is an overrun. */
    method ScanRecord(data: array<u8>, at: nat, nodeIndex: nat, nodes: seq<Node>) returns (o: Outcome, nodes': seq<Node>)
      requires at + diskInfo.bytesPerMftRecord <= data.Length
      requires NamesIndexed() && ScanFacts(nodes, names, bitmapData, retrieveMode, standardInformations, streams)
      requires 1 <= nodeIndex < |nodes| && nodeIndex / 8 < |bitmapData| && InUse(bitmapData, nodeIndex)
      modifies data, this`names, this`nameIndex, this`standardInformations, this`streams
      ensures NamesIndexed()
      ensures o.Pass? ==> ScanFacts(nodes', names, bitmapData, retrieveMode, standardInformations, streams)
                          && old(names) <= names && |nodes'| == |nodes|
      ensures o.Pass? && !HasFlag(retrieveMode, StandardInformations) ==> standardInformations == old(standardInformations)
      ensures o.Pass? && !HasFlag(retrieveMode, Streams) ==> streams == old(streams)
      ensures o.Pass? ==> forall i :: 0 <= i < |nodes| && i != nodeIndex ==> nodes'[i] == nodes[i]
      ensures var bpr := diskInfo.bytesPerMftRecord;
              var withStreams := HasFlag(retrieveMode, Streams);
              var spec := ScannedRecord(old(data[at..at + bpr]), diskInfo.bytesPerSector,
                                        Config(retrieveMode, AllInstances, withStreams, false), old(names));
              data[at..at + bpr] == FixupSpec(old(data[at..at + bpr]), diskInfo.bytesPerSector).0
              && data[..at] == old(data[..at]) && data[at + bpr..] == old(data[at + bpr..])
              && (o.Pass? <==> spec.Ok?) && (o.Fail? ==> spec == Err(o.error))
              && (o.Pass? && spec.Ok? ==> Stores(spec.value, nodeIndex, withStreams, nodes, nodes', old(names), names,
                                                 old(standardInformations), standardInformations, old(streams), streams))
    {
      hide MftRecord, FixupSpec, ScanFacts;
      var bpr := diskInfo.bytesPerMftRecord;
      nodes' := nodes;
      ScanFactsBounds(nodes, names, bitmapData, retrieveMode, standardInformations, streams);
      o := FixupRawMftdata(data, at, bpr, diskInfo.bytesPerSector);
      if o.Fail? {
        return;
      }
      var withStreams := HasFlag(retrieveMode, Streams);
      ghost var names1 := names;
      ghost var table1 := standardInformations;
      var taken, node, infos;
      ghost var info;
      o, taken, node, infos, info := InterpretRecord(data[at..at + bpr], nodeIndex, withStreams);
      if o.Fail? || !taken {
        return;
      }
      ScanFactsStore(nodes, names1, names, bitmapData, retrieveMode, table1, streams, nodeIndex, node, info, infos);
      nodes' := nodes[nodeIndex := node];
      if withStreams {
        streams := WithStreams(streams, nodeIndex, infos);
      }
    }

    /** `ProcessMftRecord` on a record other than the $MFT's, and what the scan needs of its
        result: a node and streams whose name indexes refer to the grown name table, and the
        standard information stored into the node's slot. */
    method InterpretRecord(record: seq<u8>, nodeIndex: nat, withStreams: bool)
      returns (o: Outcome, taken: bool, node: Node, infos: seq<StreamInfo>, ghost info: Option<StandardInformation>)
      requires NamesIndexed() && HasSlot(nodeIndex)
      modifies this`names, this`nameIndex, this`standardInformations
      ensures NamesIndexed()
      ensures o.Pass? && !taken ==> names == old(names) && standardInformations == old(standardInformations)
      ensures o.Pass? && taken ==>
                old(names) <= names && RefersToTable(node.nameIndex, names)
                && (withStreams ==> StreamsFacts(infos, names, retrieveMode))
                && standardInformations == WithSlot(old(standardInformations), nodeIndex, info)
                && (!HasFlag(retrieveMode, StandardInformations) ==> info.None?)
      ensures var spec := MftRecord(record, Config(retrieveMode, AllInstances, withStreams, false), old(names));
              (o.Pass? <==> spec.Ok?) && (o.Fail? ==> spec == Err(o.error))
              && (o.Pass? ==> (taken <==> spec.value.Some?))
              && (o.Pass? && taken ==> node == spec.value.value.node && names == spec.value.value.names
                                       && infos == spec.value.value.streams
                                       && info == spec.value.value.standardInformation)
    {
      hide MftRecord;
      ghost var names1 := names;
      var list;
      o, taken, node, list := ProcessMftRecord(record, nodeIndex, withStreams, false);
      infos, info := [], None;
      if o.Fail? || !taken {
        return;
      }
      ghost var cfg := Config(retrieveMode, AllInstances, withStreams, false);
      MftRecordResult(record, cfg, names1);
      infos := Values(list);
      info := MftRecord(record, cfg, names1).value.value.standardInformation;
    }

    // -------------------------------------------------------------------------------------
    // The attribute walk, carried out on the reader's state.

    /** The walk state `w` is what the node, the name table, the standard-information table
        (from `table` on) and the stream objects hold. */
    ghost predicate Tracks(w: Walk, node: Node, list: seq<Stream>, nodeIndex: nat, table: Option<seq<StandardInformation>>)
      reads this, set s | s in list
    {
      w.node == node && w.names == names && w.streams == Values(list)
      && standardInformations == WithSlot(table, nodeIndex, w.standardInformation)
    }

    /** The standard-information slot of the node exists whenever the mode stores into it. */
    predicate HasSlot(nodeIndex: nat)
      reads this
    {
      HasFlag(retrieveMode, StandardInformations) ==>
        standardInformations.Some? && nodeIndex < |standardInformations.value|
    }

    /** `ProcessAttributes`: the loop over the attributes of `data`, the span of a record from
        its first attribute on, then the size of the first stream given to the node. */
    method ProcessAttributes(node: Node, nodeIndex: nat, data: seq<u8>, instance: u16, list: seq<Stream>,
                             withStreams: bool, isMftNode: bool)
      returns (o: Outcome, node': Node, list': seq<Stream>)
      requires NamesIndexed() && Distinct(list) && HasSlot(nodeIndex)
      modifies this`names, this`nameIndex, this`standardInformations, set s | s in list
      ensures NamesIndexed() && Distinct(list')
      ensures forall s :: s in list' ==> s in list || fresh(s)
      ensures var spec := Attributes(data, Config(retrieveMode, instance, withStreams, isMftNode),
                                     Walk(node, old(names), None, old(Values(list))));
              (o.Pass? <==> spec.Ok?) && (o.Fail? ==> spec == Err(o.error))
              && (o.Pass? ==> node' == spec.value.node && names == spec.value.names
                              && Values(list') == spec.value.streams
                              && standardInformations
                                 == WithSlot(old(standardInformations), nodeIndex, spec.value.standardInformation))
    {
      hide Effect, WalkFrom, Advance, Values;
      var cfg := Config(retrieveMode, instance, withStreams, isMftNode);
      ghost var table := standardInformations;
      ghost var w0 := Walk(node, names, None, Values(list));
      ghost var w := w0;
      node', list' := node, list;
      var offset: nat := 0;
      while offset < |data|
        invariant offset <= |data|
        invariant NamesIndexed() && Distinct(list') && HasSlot(nodeIndex)
        invariant forall s :: s in list' ==> s in list || fresh(s)
        invariant Tracks(w, node', list', nodeIndex, table)
        invariant WalkFrom(data, cfg, 0, w0) == WalkFrom(data, cfg, offset, w)
        decreases |data| - offset
      {
        WalkFromStops(data, cfg, offset, w);
        var next := NextAttribute(data, offset);
        if next.Err? {
          return Fail(next.error), node', list';
        }
        if next.value.None? {
          break;
        }
        var length := next.value.value - offset;
        ghost var w' : Walk;
        o, node', list', w' := ProcessAttribute(data, cfg, offset, length, nodeIndex, node', list', w, table);
        if o.Fail? {
          return;
        }
        WalkFromNext(data, cfg, offset, w, offset + length, w');
        w := w';
        offset := offset + length;
      }
      WalkFromStops(data, cfg, offset, w);
      assert WalkFrom(data, cfg, 0, w0) == Ok(w);
      if withStreams && |list'| > 0 {
        node' := node'.(size := list'[0].size);
      }
      o := Pass;
    }

    /** `ProcessMftRecord` on the `|rec|` bytes of a fixed-up record: `taken` is false where the
        source returns false, and then nothing changes; otherwise the node and the new stream
        objects the walk over the record's attributes produced. */
    method ProcessMftRecord(rec: seq<u8>, nodeIndex: nat, withStreams: bool, isMftNode: bool)
      returns (o: Outcome, taken: bool, node: Node, list: seq<Stream>)
      requires NamesIndexed() && HasSlot(nodeIndex)
      modifies this`names, this`nameIndex, this`standardInformations
      ensures NamesIndexed() && Distinct(list) && forall s :: s in list ==> fresh(s)
      ensures var spec := MftRecord(rec, Config(retrieveMode, AllInstances, withStreams, isMftNode), old(names));
              (o.Pass? <==> spec.Ok?) && (o.Fail? ==> spec == Err(o.error))
              && (o.Pass? ==> (taken <==> spec.value.Some?))
              && (o.Pass? && !taken ==> node == EmptyNode && list == [] && names == old(names)
                                        && standardInformations == old(standardInformations))
              && (o.Pass? && taken ==> node == spec.value.value.node && names == spec.value.value.names
                                       && Values(list) == spec.value.value.streams
                                       && standardInformations == WithSlot(old(standardInformations), nodeIndex,
                                                                           spec.value.value.standardInformation))
    {
      hide Attributes;
      node, list, taken := EmptyNode, [], false;
      if |rec| < 4 {
        return Fail(OutOfBounds), taken, node, list;
      }
      if RecordTypeOf(rec) != RecordTypeFile {
        return Pass, taken, node, list;
      }
      if |rec| < 24 {
        return Fail(OutOfBounds), taken, node, list;
      }
      if U16At(rec, 22) % 2 == 0 {
        return Pass, taken, node, list;
      }
      if |rec| < FileRecordHeaderReadSize {
        return Fail(OutOfBounds), taken, node, list;
      }
      if BaseInodeOf(rec) != 0 {
        return Pass, taken, node, list;
      }
      if AttributeOffsetOf(rec) >= |rec| || BytesInUseOf(rec) > |rec| {
        return Fail(CorruptRecord), taken, node, list;
      }
      node := Node(0, ROOTDIRECTORY, 0, 0);
      if (RecordFlagsOf(rec) / 2) % 2 == 1 {
        node := node.(attributes := Or32(node.attributes, Directory));
      }
      o, node, list := ProcessAttributes(node, nodeIndex, rec[AttributeOffsetOf(rec)..], AllInstances, [],
                                         withStreams, isMftNode);
      taken := true;
    }

    /** The checks of the loop on the attribute header at `offset`: where the walk goes next. */
    static method NextAttribute(data: seq<u8>, offset: nat) returns (r: Result<Option<nat>>)
      requires offset < |data|
      ensures r == Advance(data, offset)
    {
      if offset + 4 <= |data| && U32At(data, offset) == AttributeEndMarker {
        return Ok(None);
      }
      if offset + 4 > |data| {
        return Err(CorruptAttribute);
      }
      if offset + 8 > |data| {
        return Err(OutOfBounds);
      }
      var length := U32At(data, offset + 4);
      if length < 3 || offset + length > |data| {
        return Err(CorruptAttribute);
      }
      return Ok(Some(offset + length));
    }

    /** One attribute that passed the header checks: `Effect` carried out on the reader. */
    method ProcessAttribute(data: seq<u8>, cfg: Config, offset: nat, length: nat, nodeIndex: nat,
                            node: Node, list: seq<Stream>, ghost w: Walk, ghost table: Option<seq<StandardInformation>>)
      returns (o: Outcome, node': Node, list': seq<Stream>, ghost w': Walk)
      requires offset + 8 <= |data| && cfg.retrieveMode == retrieveMode
      requires NamesIndexed() && Distinct(list) && HasSlot(nodeIndex) && Tracks(w, node, list, nodeIndex, table)
      modifies this`names, this`nameIndex, this`standardInformations, set s | s in list
      ensures NamesIndexed() && Distinct(list') && HasSlot(nodeIndex)
      ensures forall s :: s in list' ==> s in list || fresh(s)
      ensures o.Pass? <==> Effect(data, cfg, offset, length, w).Ok?
      ensures o.Fail? ==> Effect(data, cfg, offset, length, w) == Err(o.error)
      ensures o.Pass? ==> w' == Effect(data, cfg, offset, length, w).value && Tracks(w', node', list', nodeIndex, table)
    {
      hide Resident, Nonresident;
      node', list', w' := node, list, w;
      var attributeType := U32At(data, offset);
      if attributeType == AttributeAttributeList {
        return Pass, node', list', w';
      }
      if cfg.instance != AllInstances {
        if offset + 16 > |data| {
          return Fail(OutOfBounds), node', list', w';
        }
        if cfg.instance != U16At(data, offset + 14) {
          return Pass, node', list', w';
        }
      }
      if offset + 9 > |data| {
        return Fail(OutOfBounds), node', list', w';
      }
      if data[offset + 8] == 0 {
        o, node', w' := ProcessResident(data, cfg, offset, attributeType, nodeIndex, node, list, w, table);
      } else {
        o, node', list', w' := ProcessNonresident(data, cfg, offset, attributeType, length, node, list, w);
      }
    }

    /** A resident attribute. */
    method ProcessResident(data: seq<u8>, cfg: Config, offset: nat, attributeType: u32, nodeIndex: nat,
                           node: Node, ghost list: seq<Stream>, ghost w: Walk, ghost table: Option<seq<StandardInformation>>)
      returns (o: Outcome, node': Node, ghost w': Walk)
      requires cfg.retrieveMode == retrieveMode
      requires NamesIndexed() && HasSlot(nodeIndex) && Tracks(w, node, list, nodeIndex, table)
      modifies this`names, this`nameIndex, this`standardInformations
      ensures NamesIndexed() && HasSlot(nodeIndex)
      ensures o.Pass? <==> Resident(data, cfg, offset, attributeType, w).Ok?
      ensures o.Fail? ==> Resident(data, cfg, offset, attributeType, w) == Err(o.error)
      ensures o.Pass? ==> w' == Resident(data, cfg, offset, attributeType, w).value && Tracks(w', node', list, nodeIndex, table)
    {
      hide FileName, StandardInfo;
      node', w' := node, w;
      if attributeType == AttributeFileName {
        if offset + 22 > |data| {
          return Fail(OutOfBounds), node', w';
        }
        o, node', w' := ProcessFileName(data, offset + U16At(data, offset + 20), node, w);
      } else if attributeType == AttributeStandardInformation {
        if offset + 22 > |data| {
          return Fail(OutOfBounds), node', w';
        }
        o, node', w' := ProcessStandardInformation(data, cfg, offset + U16At(data, offset + 20), nodeIndex, node, w, table);
      } else if attributeType == AttributeData {
        if offset + 20 > |data| {
          return Fail(OutOfBounds), node', w';
        }
        node' := node.(size := U32At(data, offset + 16));
        w' := w.(node := node');
        o := Pass;
      } else {
        o := Pass;
      }
    }

    /** A resident $FILE_NAME value at `at`. */
    method ProcessFileName(data: seq<u8>, at: nat, node: Node, ghost w: Walk)
      returns (o: Outcome, node': Node, ghost w': Walk)
      requires NamesIndexed() && w.node == node && w.names == names
      modifies this`names, this`nameIndex
      ensures NamesIndexed()
      ensures o.Pass? <==> FileName(data, at, w).Ok?
      ensures o.Fail? ==> FileName(data, at, w) == Err(o.error)
      ensures o.Pass? ==> w' == FileName(data, at, w).value && w'.node == node' && w'.names == names
                          && w'.streams == w.streams && w'.standardInformation == w.standardInformation
    {
      node', w' := node, w;
      if at + 6 > |data| {
        return Fail(OutOfBounds), node', w';
      }
      if U16At(data, at + 4) > 0 {
        return Fail(UnsupportedInodeWidth), node', w';
      }
      if at + FileNameHeaderSize > |data| {
        return Fail(OutOfBounds), node', w';
      }
      node' := node.(parentNodeIndex := U32At(data, at));
      if data[at + 65] == 1 || node'.nameIndex == 0 {
        var count := data[at + 64] as nat;
        if at + FileNameHeaderSize + 2 * count > |data| {
          return Fail(OutOfBounds), node', w';
        }
        var i := GetNameIndex(Utf16At(data, at + FileNameHeaderSize, count));
        node' := node'.(nameIndex := i);
      }
      o := Pass;
      w' := FileName(data, at, w).value;
    }

    /** A resident $STANDARD_INFORMATION value at `at`. */
    method ProcessStandardInformation(data: seq<u8>, cfg: Config, at: nat, nodeIndex: nat, node: Node,
                                      ghost w: Walk, ghost table: Option<seq<StandardInformation>>)
      returns (o: Outcome, node': Node, ghost w': Walk)
      requires cfg.retrieveMode == retrieveMode && HasSlot(nodeIndex)
      requires w.node == node && standardInformations == WithSlot(table, nodeIndex, w.standardInformation)
      modifies this`standardInformations
      ensures HasSlot(nodeIndex)
      ensures o.Pass? <==> StandardInfo(data, cfg, at, w).Ok?
      ensures o.Fail? ==> StandardInfo(data, cfg, at, w) == Err(o.error)
      ensures o.Pass? ==> w' == StandardInfo(data, cfg, at, w).value && w'.node == node'
                          && w'.names == w.names && w'.streams == w.streams
                          && standardInformations == WithSlot(table, nodeIndex, w'.standardInformation)
    {
      node', w' := node, w;
      if at + StandardInformationReadSize > |data| {
        return Fail(OutOfBounds), node', w';
      }
      node' := node.(attributes := Or32(node.attributes, U32At(data, at + 32)));
      if HasFlag(retrieveMode, StandardInformations) {
        var info := StandardInformation(U64At(data, at), U64At(data, at + 8), U64At(data, at + 24));
        assert table.value[nodeIndex := info] == standardInformations.value[nodeIndex := info];
        standardInformations := Some(standardInformations.value[nodeIndex := info]);
      }
      o := Pass;
      w' := StandardInfo(data, cfg, at, w).value;
    }

    /** A non-resident attribute. */
    method ProcessNonresident(data: seq<u8>, cfg: Config, offset: nat, attributeType: u32, length: nat,
                              node: Node, list: seq<Stream>, ghost w: Walk)
      returns (o: Outcome, node': Node, list': seq<Stream>, ghost w': Walk)
      requires NamesIndexed() && Distinct(list)
      requires w.node == node && w.names == names && w.streams == Values(list)
      modifies this`names, this`nameIndex, set s | s in list
      ensures NamesIndexed() && Distinct(list')
      ensures forall s :: s in list' ==> s in list || fresh(s)
      ensures o.Pass? <==> Nonresident(data, cfg, offset, attributeType, length, w).Ok?
      ensures o.Fail? ==> Nonresident(data, cfg, offset, attributeType, length, w) == Err(o.error)
      ensures o.Pass? ==> w' == Nonresident(data, cfg, offset, attributeType, length, w).value
                          && w'.node == node' && w'.names == names && w'.streams == Values(list')
                          && w'.standardInformation == w.standardInformation
    {
      hide AttributeStream;
      node', list', w' := node, list, w;
      if attributeType == AttributeData && node.size == 0 {
        if offset + NonResidentHeaderReadSize > |data| {
          return Fail(OutOfBounds), node', list', w';
        }
        node' := node.(size := U64At(data, offset + 48));
      }
      w' := w.(node := node');
      if !cfg.withStreams {
        return Pass, node', list', w';
      }
      o, list', w' := ProcessAttributeStream(data, cfg, offset, attributeType, length, list, w');
    }

    /** The stream of a non-resident attribute: found or created, given the attribute's data
        size if it has none, and extended by the attribute's data runs when fragments are wanted. */
    method ProcessAttributeStream(data: seq<u8>, cfg: Config, offset: nat, attributeType: u32, length: nat,
                                  list: seq<Stream>, ghost w: Walk)
      returns (o: Outcome, list': seq<Stream>, ghost w': Walk)
      requires NamesIndexed() && Distinct(list) && w.names == names && w.streams == Values(list)
      modifies this`names, this`nameIndex, set s | s in list
      ensures NamesIndexed() && Distinct(list')
      ensures forall s :: s in list' ==> s in list || fresh(s)
      ensures o.Pass? <==> AttributeStream(data, cfg, offset, attributeType, length, w).Ok?
      ensures o.Fail? ==> AttributeStream(data, cfg, offset, attributeType, length, w) == Err(o.error)
      ensures o.Pass? ==> w' == AttributeStream(data, cfg, offset, attributeType, length, w).value
                          && w'.node == w.node && w'.names == names && w'.streams == Values(list')
                          && w'.standardInformation == w.standardInformation
    {
      hide StreamName, FindOrAdd, WithRuns, DecodeRuns, Values;
      list', w' := list, w;
      if offset + 10 > |data| {
        return Fail(OutOfBounds), list', w';
      }
      var streamName := ProcessStreamName(data, offset);
      if streamName.Err? {
        return Fail(streamName.error), list', w';
      }
      var streamNameIndex := streamName.value;
      var found := SearchStream(list, attributeType, streamNameIndex);
      var readsHeader := found.None? || list[found.value].size == 0 || DecodesFragments(cfg);
      if readsHeader && offset + NonResidentHeaderReadSize > |data| {
        return Fail(OutOfBounds), list', w';
      }
      var dataSize := if readsHeader then U64At(data, offset + 48) else 0;
      var target;
      list', target := FindOrCreate(list, found, attributeType, streamNameIndex, dataSize);
      if DecodesFragments(cfg) {
        var runArrayOffset := U16At(data, offset + 32);
        if offset + runArrayOffset > |data| {
          return Fail(OutOfBounds), list', w';
        }
        o := DecodeInto(list', target, data[offset + runArrayOffset..], Wrap32(length - runArrayOffset), U64At(data, offset + 16));
        if o.Fail? {
          return;
        }
      }
      o := Pass;
      w' := AttributeStream(data, cfg, offset, attributeType, length, w).value;
    }

    /** The name index of a non-resident attribute's stream: `StreamName` carried out with the
        reader's name table. */
    method ProcessStreamName(data: seq<u8>, offset: nat) returns (r: Result<nat>)
      requires offset + 10 <= |data| && NamesIndexed()
      modifies this`names, this`nameIndex
      ensures NamesIndexed()
      ensures r.Err? ==> StreamName(data, offset, old(names)) == Err(r.error)
      ensures r.Ok? ==> StreamName(data, offset, old(names)) == Ok((r.value, names))
    {
      var count := data[offset + 9] as nat;
      if count == 0 {
        return Ok(0);
      }
      if offset + 12 > |data| {
        return Err(OutOfBounds);
      }
      var at := offset + U16At(data, offset + 10);
      if at + 2 * count > |data| {
        return Err(OutOfBounds);
      }
      var i := GetNameIndex(Utf16At(data, at, count));
      r := Ok(i);
    }
  }

  /** The stream found at `found`, or a new one appended to the list; a found stream whose size is
      still 0 receives `dataSize`, as a new one does. */
  method FindOrCreate(list: seq<Stream>, found: Option<nat>, attributeType: u32, nameIndex: nat, dataSize: u64)
    returns (list': seq<Stream>, target: nat)
    requires Distinct(list) && (found.Some? ==> found.value < |list|)
    modifies if found.Some? then {list[found.value]} else {}
    ensures Distinct(list') && forall s :: s in list' ==> s in list || fresh(s)
    ensures (Values(list'), target) == FindOrAdd(old(Values(list)), found, attributeType, nameIndex, dataSize)
  {
    ghost var before := Values(list);
    if found.None? {
      var stream := new Stream(nameIndex, attributeType, dataSize);
      list', target := list + [stream], |list|;
      assert Values(list') == before + [stream.Value()];
    } else {
      list', target := list, found.value;
      var stream := list[target];
      if stream.size == 0 {
        stream.size := dataSize;
        assert Values(list') == before[target := stream.Value()];
      }
    }
  }

  /** `ProcessFragments` on the stream at `target` of the list: only that stream changes. */
  method DecodeInto(list: seq<Stream>, target: nat, runData: seq<u8>, runDataLength: u32, startingVcn: u64)
    returns (o: Outcome)
    requires Distinct(list) && target < |list|
    modifies list[target]
    ensures o.Pass? <==> DecodeRuns(runData, runDataLength, 0).Ok?
    ensures o.Fail? ==> DecodeRuns(runData, runDataLength, 0) == Err(o.error)
    ensures o.Pass? ==> Values(list) == old(Values(list))[target := WithRuns(old(Values(list))[target],
                                          DecodeRuns(runData, runDataLength, 0).value, startingVcn)]
  {
    hide DecodeRuns, FragmentsOf, ClustersAfter;
    ghost var before := Values(list);
    o := ProcessFragments(list[target], runData, runDataLength, startingVcn);
    if o.Pass? {
      assert Values(list) == before[target := list[target].Value()];
    }
  }
}
