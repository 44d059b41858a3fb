/** The walk over the attributes of one FILE record: `ProcessAttributes` and `ProcessMftRecord`
    stated as functions of the record's bytes. The walk reads a chain of attribute headers, each
    giving the length of the attribute, and lets each attribute update the node being built, the
    shared name table, the node's standard-information slot and the node's stream list.

    The span given to the walk is the part of the record from its first attribute on. Every read
    the source performs without a bounds check is checked here against that span, and a read
    outside it is `OutOfBounds`. */
module Records {
  import opened Common
  import opened Bytes
  import opened Structures
  import opened Names
  import opened Runs

  /** What the walk depends on besides the bytes: the retrieve mode, the attribute instance
      wanted (`AllInstances` for every one), whether the caller collects streams (the stream
      list is not null) and whether the record is the $MFT's own. */
  datatype Config = Config(retrieveMode: bv32, instance: u16, withStreams: bool, isMftNode: bool)

  const AllInstances: u16 := 65535

  /** The state the walk updates: the node, the name table, the value stored into the node's
      slot of the standard-information table (None while nothing was stored) and the streams. */
  datatype Walk = Walk(node: Node, names: seq<Utf16>, standardInformation: Option<StandardInformation>,
                       streams: seq<StreamInfo>)

  /** Whether the walk decodes the data runs of non-resident attributes. */
  predicate DecodesFragments(cfg: Config) {
    cfg.isMftNode || HasFlag(cfg.retrieveMode, Fragments)
  }

  // ---------------------------------------------------------------------------------------
  // The loop's header checks.

  /** The checks the loop makes on the attribute at `offset` before looking at its type: `None`
      at the end marker, otherwise the offset of the next attribute. The source reads the
      length field without checking that it lies in the span; here that read is checked. The
      sum of offset and length is compared unwrapped (see `AdvanceAsWritten`). */
  function Advance(data: seq<u8>, offset: nat): (r: Result<Option<nat>>)
    requires offset < |data|
    ensures r.Ok? && r.value.Some? ==> offset + 8 <= |data| && offset + 3 <= r.value.value <= |data|
    ensures r.Ok? && r.value.Some? ==> r.value.value - offset == U32At(data, offset + 4)
  {
    if offset + 4 <= |data| && U32At(data, offset) == AttributeEndMarker then Ok(None)
    else if offset + 4 > |data| then Err(CorruptAttribute)
    else if offset + 8 > |data| then Err(OutOfBounds)
    else
      var length := U32At(data, offset + 4);
      if length < 3 || offset + length > |data| then Err(CorruptAttribute)
      else Ok(Some(offset + length))
  }

  /** The same checks as the source writes them: offset and length are `uint`, so their sum
      and the advance of the loop variable wrap modulo 2^32. */
  function AdvanceAsWritten(data: seq<u8>, offset: u32): Result<Option<u32>>
    requires offset < |data|
  {
    if offset + 4 <= |data| && U32At(data, offset) == AttributeEndMarker then Ok(None)
    else if offset + 4 > |data| then Err(CorruptAttribute)
    else if offset + 8 > |data| then Err(OutOfBounds)
    else
      var length := U32At(data, offset + 4);
      if length < 3 || Wrap32(offset + length) > |data| then Err(CorruptAttribute)
      else Ok(Some(Wrap32(offset + length)))
  }

  /** Where the sum does not wrap, the two agree. */
  lemma AdvanceAgreesBelowWrap(data: seq<u8>, offset: u32)
    requires offset < |data|
    requires offset + 8 <= |data| ==> offset + U32At(data, offset + 4) < TWO_32
    ensures AdvanceAsWritten(data, offset).Err? ==> Advance(data, offset) == Err(AdvanceAsWritten(data, offset).error)
    ensures AdvanceAsWritten(data, offset) == Ok(None) ==> Advance(data, offset) == Ok(None)
    ensures AdvanceAsWritten(data, offset).Ok? && AdvanceAsWritten(data, offset).value.Some? ==>
              Advance(data, offset) == Ok(Some(AdvanceAsWritten(data, offset).value.value as nat))
  {
  }

  /** The offset the loop as written reaches after `n` iterations over attributes that the loop
      skips (attribute lists), `None` once it has left the loop. */
  function StepsAsWritten(data: seq<u8>, offset: u32, n: nat): Result<Option<u32>>
    decreases n
  {
    if n == 0 then Ok(Some(offset))
    else if offset >= |data| then Ok(None)
    else
      match AdvanceAsWritten(data, offset)
      case Err(e) => Err(e)
      case Ok(None) => Ok(None)
      case Ok(Some(next)) => StepsAsWritten(data, next, n - 1)
  }

  /** Two attribute-list headers: one of 8 bytes at offset 0, and one at offset 8 whose length
      0xFFFFFFF8 brings the `uint` offset back to 0. */
  const LoopingAttributes: seq<u8> :=
    [0x20, 0, 0, 0, 8, 0, 0, 0,
     0x20, 0, 0, 0, 0xF8, 0xFF, 0xFF, 0xFF]

  /** The loop as written never leaves the span `LoopingAttributes`: every second iteration it
      is back at offset 0. */
  lemma {:induction false} AsWrittenNeverEnds(n: nat)
    ensures StepsAsWritten(LoopingAttributes, 0, 2 * n) == Ok(Some(0))
  {
    var d := LoopingAttributes;
    assert U32At(d, 4) == 8 && U32At(d, 12) == 0xFFFF_FFF8;
    assert U32At(d, 0) == AttributeAttributeList && U32At(d, 8) == AttributeAttributeList;
    assert AdvanceAsWritten(d, 0) == Ok(Some(8));
    assert AdvanceAsWritten(d, 8) == Ok(Some(0));
    if n > 0 {
      AsWrittenNeverEnds(n - 1);
      assert StepsAsWritten(d, 8, 2 * n - 1) == StepsAsWritten(d, 0, 2 * (n - 1));
    }
  }

  /** With the unwrapped check, the second header is rejected. */
  lemma LoopingAttributesRejected()
    ensures Advance(LoopingAttributes, 0) == Ok(Some(8))
    ensures Advance(LoopingAttributes, 8) == Err(CorruptAttribute)
  {
    var d := LoopingAttributes;
    assert U32At(d, 4) == 8 && U32At(d, 12) == 0xFFFF_FFF8;
    assert U32At(d, 0) == AttributeAttributeList && U32At(d, 8) == AttributeAttributeList;
  }

  /** An attribute-list header of 24 bytes at offset 0, whose bytes 8 to 11 happen to read
      0xFFFFFFFF, and one at offset 24 whose length 0xFFFFFFF0 brings the `uint` offset back to
      8. */
  const BackwardsAttributes: seq<u8> :=
    [0x20, 0, 0, 0, 24, 0, 0, 0, 0xFF, 0xFF, 0xFF, 0xFF, 0, 0, 0, 0,
     0, 0, 0, 0, 0, 0, 0, 0, 0x20, 0, 0, 0, 0xF0, 0xFF, 0xFF, 0xFF]

  /** The header fields of `BackwardsAttributes`. */
  lemma BackwardsFields()
    ensures U32At(BackwardsAttributes, 0) == AttributeAttributeList && U32At(BackwardsAttributes, 4) == 24
    ensures U32At(BackwardsAttributes, 8) == AttributeEndMarker
    ensures U32At(BackwardsAttributes, 24) == AttributeAttributeList && U32At(BackwardsAttributes, 28) == 0xFFFF_FFF0
  {
  }

  /** The loop as written jumps back into the first header, reads its bytes 8 to 11 as the end
      marker, and leaves the loop as if the record were well formed. */
  lemma AsWrittenEndsInsideHeader()
    ensures StepsAsWritten(BackwardsAttributes, 0, 3) == Ok(None)
  {
    hide U32At;
    var d := BackwardsAttributes;
    BackwardsFields();
    assert AdvanceAsWritten(d, 0) == Ok(Some(24));
    assert AdvanceAsWritten(d, 24) == Ok(Some(8));
    assert AdvanceAsWritten(d, 8) == Ok(None);
    assert StepsAsWritten(d, 8, 1) == Ok(None);
    assert StepsAsWritten(d, 24, 2) == Ok(None);
  }

  /** With the unwrapped check, the second header is rejected. */
  lemma BackwardsAttributesRejected()
    ensures Advance(BackwardsAttributes, 0) == Ok(Some(24))
    ensures Advance(BackwardsAttributes, 24) == Err(CorruptAttribute)
  {
    hide U32At;
    BackwardsFields();
  }

  // ---------------------------------------------------------------------------------------
  // What one attribute does.

  /** The effect of the attribute at `offset`, of `length` bytes, which passed the header
      checks. Attribute lists are left for later (and never processed); with a particular
      instance wanted, other instances are ignored. */
  function Effect(data: seq<u8>, cfg: Config, offset: nat, length: nat, w: Walk): Result<Walk>
    requires offset + 8 <= |data|
  {
    var attributeType := U32At(data, offset);
    if attributeType == AttributeAttributeList then Ok(w)
    else if cfg.instance != AllInstances && offset + 16 > |data| then Err(OutOfBounds)
    else if cfg.instance != AllInstances && cfg.instance != U16At(data, offset + 14) then Ok(w)
    else if offset + 9 > |data| then Err(OutOfBounds)
    else if data[offset + 8] == 0 then Resident(data, cfg, offset, attributeType, w)
    else Nonresident(data, cfg, offset, attributeType, length, w)
  }

  /** A resident attribute: its value lies inside the record at `ValueOffset`. */
  function Resident(data: seq<u8>, cfg: Config, offset: nat, attributeType: u32, w: Walk): Result<Walk>
  {
    if attributeType == AttributeFileName then
      if offset + 22 > |data| then Err(OutOfBounds)
      else FileName(data, offset + U16At(data, offset + 20), w)
    else if attributeType == AttributeStandardInformation then
      if offset + 22 > |data| then Err(OutOfBounds)
      else StandardInfo(data, cfg, offset + U16At(data, offset + 20), w)
    else if attributeType == AttributeData then
      if offset + 20 > |data| then Err(OutOfBounds)
      else Ok(w.(node := w.node.(size := U32At(data, offset + 16))))
    else Ok(w)
  }

  /** A $FILE_NAME value at `at`: the parent reference must fit in 32 bits and becomes the
      parent; the name replaces the node's name when it is the Win32 name (name type 1) or the
      node has no name yet. */
  function FileName(data: seq<u8>, at: nat, w: Walk): Result<Walk>
  {
    if at + 6 > |data| then Err(OutOfBounds)
    else if U16At(data, at + 4) > 0 then Err(UnsupportedInodeWidth)
    else if at + FileNameHeaderSize > |data| then Err(OutOfBounds)
    else
      var node := w.node.(parentNodeIndex := U32At(data, at));
      if data[at + 65] == 1 || node.nameIndex == 0 then
        var count := data[at + 64] as nat;
        if at + FileNameHeaderSize + 2 * count > |data| then Err(OutOfBounds)
        else
          var interned := Intern(w.names, Utf16At(data, at + FileNameHeaderSize, count));
          Ok(w.(node := node.(nameIndex := interned.0), names := interned.1))
      else Ok(w.(node := node))
  }

  /** A $STANDARD_INFORMATION value at `at`: its flags are or-ed into the node's; with the
      StandardInformations mode its timestamps are stored, passed positionally to a constructor
      whose parameters are (creation, last access, last change), so the last-access slot
      receives the file-change time and the last-change slot the last-access time. */
  function StandardInfo(data: seq<u8>, cfg: Config, at: nat, w: Walk): Result<Walk>
  {
    if at + StandardInformationReadSize > |data| then Err(OutOfBounds)
    else
      var node := w.node.(attributes := Or32(w.node.attributes, U32At(data, at + 32)));
      var info :=
        if HasFlag(cfg.retrieveMode, StandardInformations)
        then Some(StandardInformation(U64At(data, at), U64At(data, at + 8), U64At(data, at + 24)))
        else w.standardInformation;
      Ok(w.(node := node, standardInformation := info))
  }

  /** A non-resident attribute: a $DATA attribute gives the node its size if it has none yet;
      with a stream list, the attribute's stream is found or created, and its data runs are
      decoded when fragments are wanted. */
  function Nonresident(data: seq<u8>, cfg: Config, offset: nat, attributeType: u32, length: nat, w: Walk): Result<Walk>
  {
    var setsSize := attributeType == AttributeData && w.node.size == 0;
    if setsSize && offset + NonResidentHeaderReadSize > |data| then Err(OutOfBounds)
    else
      var node := if setsSize then w.node.(size := U64At(data, offset + 48)) else w.node;
      if !cfg.withStreams then Ok(w.(node := node))
      else AttributeStream(data, cfg, offset, attributeType, length, w.(node := node))
  }

  /** The stream part of a non-resident attribute: the stream of the attribute's type and name
      is found or created, given the attribute's data size if it has none, and extended by the
      attribute's data runs when fragments are wanted. */
  function AttributeStream(data: seq<u8>, cfg: Config, offset: nat, attributeType: u32, length: nat, w: Walk): Result<Walk>
  {
    if offset + 10 > |data| then Err(OutOfBounds)
    else
      match StreamName(data, offset, w.names)
      case Err(e) => Err(e)
      case Ok((nameIndex, names)) =>
        var found := FindStream(w.streams, attributeType, nameIndex);
        var readsHeader := found.None? || w.streams[found.value].size == 0 || DecodesFragments(cfg);
        if readsHeader && offset + NonResidentHeaderReadSize > |data| then Err(OutOfBounds)
        else
          var dataSize := if readsHeader then U64At(data, offset + 48) else 0;
          var (streams, target) := FindOrAdd(w.streams, found, attributeType, nameIndex, dataSize);
          if !DecodesFragments(cfg) then Ok(w.(names := names, streams := streams))
          else
            match RunList(data, offset, length)
            case Err(e) => Err(e)
            case Ok(runs) =>
              var s := WithRuns(streams[target], runs, U64At(data, offset + 16));
              Ok(w.(names := names, streams := streams[target := s]))
  }

  /** The data runs of the non-resident attribute at `offset`, of `length` bytes: the run list
      starts at `RunArrayOffset` and its declared length is the rest of the attribute, computed
      in `uint`. */
  function RunList(data: seq<u8>, offset: nat, length: nat): Result<seq<Run>>
    requires offset + NonResidentHeaderReadSize <= |data|
  {
    var runArrayOffset := U16At(data, offset + 32);
    if offset + runArrayOffset > |data| then Err(OutOfBounds)
    else DecodeRuns(data[offset + runArrayOffset..], Wrap32(length - runArrayOffset), 0)
  }

  /** The name index of a non-resident attribute's stream: 0 for an unnamed stream, otherwise
      the index of its name, which is interned. */
  function StreamName(data: seq<u8>, offset: nat, names: seq<Utf16>): (r: Result<(nat, seq<Utf16>)>)
    requires offset + 10 <= |data|
  {
    var count := data[offset + 9] as nat;
    if count == 0 then Ok((0, names))
    else if offset + 12 > |data| then Err(OutOfBounds)
    else
      var at := offset + U16At(data, offset + 10);
      if at + 2 * count > |data| then Err(OutOfBounds)
      else Ok(Intern(names, Utf16At(data, at, count)))
  }

  /** `SearchStream` by type and name: the first stream with both. */
  function FindStream(streams: seq<StreamInfo>, attributeType: u32, nameIndex: nat): (r: Option<nat>)
    ensures r.Some? ==> r.value < |streams| && HasKey(streams[r.value], attributeType, nameIndex)
    ensures r.Some? ==> forall j :: 0 <= j < r.value ==> !HasKey(streams[j], attributeType, nameIndex)
    ensures r.None? ==> forall j :: 0 <= j < |streams| ==> !HasKey(streams[j], attributeType, nameIndex)
  {
    if |streams| == 0 then None
    else if HasKey(streams[0], attributeType, nameIndex) then Some(0)
    else match FindStream(streams[1..], attributeType, nameIndex)
      case None => None
      case Some(j) => Some(j + 1)
  }

  predicate HasKey(s: StreamInfo, attributeType: u32, nameIndex: nat) {
    s.attributeType == attributeType && s.nameIndex == nameIndex
  }

  /** The stream list once the attribute's stream is found or created, and the stream's
      position: a new stream gets the attribute's data size; a found one gets it only when its
      own size is still 0. */
  function FindOrAdd(streams: seq<StreamInfo>, found: Option<nat>, attributeType: u32, nameIndex: nat, dataSize: u64)
    : (r: (seq<StreamInfo>, nat))
    requires found.Some? ==> found.value < |streams|
    ensures r.1 < |r.0|
  {
    match found
    case None => (streams + [StreamInfo(0, dataSize, attributeType, nameIndex, [])], |streams|)
    case Some(k) =>
      if streams[k].size == 0 then (streams[k := streams[k].(size := dataSize)], k) else (streams, k)
  }

  /** A stream after `ProcessFragments` decoded `runs` into it. */
  function WithRuns(s: StreamInfo, runs: seq<Run>, startingVcn: u64): StreamInfo {
    s.(clusters := ClustersAfter(runs, s.clusters), fragments := s.fragments + FragmentsOf(runs, 0, startingVcn))
  }

  // ---------------------------------------------------------------------------------------
  // The walk.

  /** The loop of `ProcessAttributes` from the attribute at `offset` on. */
  function WalkFrom(data: seq<u8>, cfg: Config, offset: nat, w: Walk): Result<Walk>
    decreases |data| - offset
  {
    if offset >= |data| then Ok(w)
    else
      match Advance(data, offset)
      case Err(e) => Err(e)
      case Ok(None) => Ok(w)
      case Ok(Some(next)) =>
        match Effect(data, cfg, offset, next - offset, w)
        case Err(e) => Err(e)
        case Ok(w') => WalkFrom(data, cfg, next, w')
  }

  /** `ProcessAttributes`: the loop, after which a node with streams takes its first stream's
      size. */
  function Attributes(data: seq<u8>, cfg: Config, w: Walk): Result<Walk> {
    match WalkFrom(data, cfg, 0, w)
    case Err(e) => Err(e)
    case Ok(v) => Ok(Finish(cfg, v))
  }

  function Finish(cfg: Config, v: Walk): Walk {
    if cfg.withStreams && |v.streams| > 0 then v.(node := v.node.(size := v.streams[0].size)) else v
  }

  // ---------------------------------------------------------------------------------------
  // The record.

  /** `ProcessMftRecord` on the `|rec|` bytes of a record: `Ok(None)` where the source returns
      false, else the walk over the record's attributes, started from a node in the root
      directory that is a directory when bit 1 of the record's flags is set. */
  function MftRecord(rec: seq<u8>, cfg: Config, names: seq<Utf16>): Result<Option<Walk>> {
    if |rec| < 4 then Err(OutOfBounds)
    else if RecordTypeOf(rec) != RecordTypeFile then Ok(None)
    else if |rec| < 24 then Err(OutOfBounds)
    else if U16At(rec, 22) % 2 == 0 then Ok(None)
    else if |rec| < FileRecordHeaderReadSize then Err(OutOfBounds)
    else if BaseInodeOf(rec) != 0 then Ok(None)
    else if AttributeOffsetOf(rec) >= |rec| then Err(CorruptRecord)
    else if BytesInUseOf(rec) > |rec| then Err(CorruptRecord)
    else
      var attributes: u32 := if (RecordFlagsOf(rec) / 2) % 2 == 1 then Directory else 0;
      var start := Walk(Node(attributes, ROOTDIRECTORY, 0, 0), names, None, []);
      match Attributes(rec[AttributeOffsetOf(rec)..], cfg, start)
      case Err(e) => Err(e)
      case Ok(v) => Ok(Some(v))
  }
}
