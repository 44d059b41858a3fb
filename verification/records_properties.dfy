/** What the attribute walk keeps: the node's attribute bits are only ever added to, the name
    table only grows, a stream once created keeps its key, its non-zero size and its fragments,
    no two streams share a key, and every name index refers to the table. */
module RecordProperties {
  import opened Common
  import opened Bytes
  import opened Structures
  import opened Names
  import opened Runs
  import opened Records

  /** `t` is what stream `s` can become: same key, a non-zero size kept, fragments only appended. */
  predicate StreamEvolves(s: StreamInfo, t: StreamInfo) {
    t.attributeType == s.attributeType && t.nameIndex == s.nameIndex
    && (s.size != 0 ==> t.size == s.size)
    && s.fragments <= t.fragments
  }

  /** `b` is what walk state `a` can become. */
  predicate Evolves(a: Walk, b: Walk) {
    Covers(a.node.attributes, b.node.attributes)
    && a.names <= b.names
    && |a.streams| <= |b.streams|
    && forall j :: 0 <= j < |a.streams| ==> StreamEvolves(a.streams[j], b.streams[j])
  }

  lemma EvolvesTransitive(a: Walk, b: Walk, c: Walk)
    requires Evolves(a, b) && Evolves(b, c)
    ensures Evolves(a, c)
  {
    CoversTransitive(a.node.attributes, b.node.attributes, c.node.attributes);
    forall j | 0 <= j < |a.streams|
      ensures StreamEvolves(a.streams[j], c.streams[j])
    {
      assert StreamEvolves(a.streams[j], b.streams[j]);
      assert StreamEvolves(b.streams[j], c.streams[j]);
    }
  }

  predicate RefersToTable(nameIndex: nat, names: seq<Utf16>) {
    nameIndex == 0 || nameIndex < |names|
  }

  /** No two streams of the node have the same type and name. */
  predicate UniqueKeys(streams: seq<StreamInfo>) {
    forall i, j :: 0 <= i < j < |streams| ==>
      !HasKey(streams[j], streams[i].attributeType, streams[i].nameIndex)
  }

  /** The shape every state of the walk has. */
  predicate WellFormed(w: Walk) {
    Unique(w.names)
    && RefersToTable(w.node.nameIndex, w.names)
    && UniqueKeys(w.streams)
    && forall j :: 0 <= j < |w.streams| ==> RefersToTable(w.streams[j].nameIndex, w.names)
  }

  predicate NoFragments(streams: seq<StreamInfo>) {
    forall j :: 0 <= j < |streams| ==> streams[j].fragments == []
  }

  /** The facts one step of the walk keeps, `Effect` or the whole walk alike. */
  predicate Keeps(cfg: Config, w: Walk, v: Walk) {
    Evolves(w, v)
    && (WellFormed(w) ==> WellFormed(v))
    && (!cfg.withStreams ==> v.streams == w.streams)
    && (!HasFlag(cfg.retrieveMode, StandardInformations) ==> v.standardInformation == w.standardInformation)
    && (!DecodesFragments(cfg) && NoFragments(w.streams) ==> NoFragments(v.streams))
  }

  lemma KeepsTransitive(cfg: Config, a: Walk, b: Walk, c: Walk)
    requires Keeps(cfg, a, b) && Keeps(cfg, b, c)
    ensures Keeps(cfg, a, c)
  {
    EvolvesTransitive(a, b, c);
  }

  /** A step that changes only the node, keeping its name, and perhaps the standard information. */
  lemma KeepsNodeOnly(cfg: Config, w: Walk, v: Walk)
    requires v.names == w.names && v.streams == w.streams
    requires Covers(w.node.attributes, v.node.attributes)
    requires v.node.nameIndex == w.node.nameIndex
    requires !HasFlag(cfg.retrieveMode, StandardInformations) ==> v.standardInformation == w.standardInformation
    ensures Keeps(cfg, w, v)
  {
  }

  /** A step that changes the node's parent and name, and perhaps grows the name table. */
  lemma KeepsRenamed(cfg: Config, w: Walk, v: Walk)
    requires v.streams == w.streams && v.standardInformation == w.standardInformation
    requires v.node.attributes == w.node.attributes
    requires w.names <= v.names
    requires WellFormed(w) ==> Unique(v.names) && RefersToTable(v.node.nameIndex, v.names)
    ensures Keeps(cfg, w, v)
  {
    BitOrIdempotent(w.node.attributes);
  }

  /** A step that changes only the streams and perhaps grows the name table. */
  lemma KeepsStreams(cfg: Config, w: Walk, v: Walk)
    requires cfg.withStreams
    requires v.node == w.node && v.standardInformation == w.standardInformation
    requires w.names <= v.names
    requires |w.streams| <= |v.streams|
    requires forall j :: 0 <= j < |w.streams| ==> StreamEvolves(w.streams[j], v.streams[j])
    requires WellFormed(w) ==> Unique(v.names) && UniqueKeys(v.streams)
    requires WellFormed(w) ==> forall j :: 0 <= j < |v.streams| ==> RefersToTable(v.streams[j].nameIndex, v.names)
    requires !DecodesFragments(cfg) && NoFragments(w.streams) ==> NoFragments(v.streams)
    ensures Keeps(cfg, w, v)
  {
    BitOrIdempotent(w.node.attributes);
  }

  lemma FileNameKeeps(data: seq<u8>, cfg: Config, at: nat, w: Walk)
    requires FileName(data, at, w).Ok?
    ensures Keeps(cfg, w, FileName(data, at, w).value)
  {
    var v := FileName(data, at, w).value;
    if WellFormed(w) && (v.names != w.names || v.node.nameIndex != w.node.nameIndex) {
      var name := Utf16At(data, at + FileNameHeaderSize, data[at + 64] as nat);
      assert v.names == Intern(w.names, name).1 && v.node.nameIndex == Intern(w.names, name).0;
      InternKeepsUnique(w.names, name);
    }
    KeepsRenamed(cfg, w, v);
  }

  lemma StandardInfoKeeps(data: seq<u8>, cfg: Config, at: nat, w: Walk, v: Walk)
    requires StandardInfo(data, cfg, at, w) == Ok(v)
    ensures Keeps(cfg, w, v)
  {
    var info :=
      if HasFlag(cfg.retrieveMode, StandardInformations)
      then Some(StandardInformation(U64At(data, at), U64At(data, at + 8), U64At(data, at + 24)))
      else w.standardInformation;
    FlagsAdded(cfg, w, U32At(data, at + 32), info);
  }

  /** Or-ing flags into the node, and storing standard information where the mode asks for it. */
  lemma FlagsAdded(cfg: Config, w: Walk, added: u32, info: Option<StandardInformation>)
    requires !HasFlag(cfg.retrieveMode, StandardInformations) ==> info == w.standardInformation
    ensures Keeps(cfg, w, w.(node := w.node.(attributes := Or32(w.node.attributes, added)), standardInformation := info))
  {
    CoveredByOr(w.node.attributes, added);
  }

  lemma ResidentKeeps(data: seq<u8>, cfg: Config, offset: nat, attributeType: u32, w: Walk)
    requires Resident(data, cfg, offset, attributeType, w).Ok?
    ensures Keeps(cfg, w, Resident(data, cfg, offset, attributeType, w).value)
  {
    if attributeType == AttributeFileName {
      FileNameKeeps(data, cfg, offset + U16At(data, offset + 20), w);
    } else if attributeType == AttributeStandardInformation {
      StandardInfoKeeps(data, cfg, offset + U16At(data, offset + 20), w, Resident(data, cfg, offset, attributeType, w).value);
    } else {
      var v := Resident(data, cfg, offset, attributeType, w).value;
      BitOrIdempotent(w.node.attributes);
      KeepsNodeOnly(cfg, w, v);
    }
  }

  /** The stream list after `FindOrAdd` keeps every stream's key and non-zero size, adds at most
      one stream, of a key not present before, and keeps the keys unique. */
  lemma FindOrAddKeeps(streams: seq<StreamInfo>, attributeType: u32, nameIndex: nat, dataSize: u64)
    ensures var found := FindStream(streams, attributeType, nameIndex);
            var (streams', target) := FindOrAdd(streams, found, attributeType, nameIndex, dataSize);
            |streams| <= |streams'| <= |streams| + 1
            && (forall j :: 0 <= j < |streams| ==> StreamEvolves(streams[j], streams'[j]))
            && (forall j :: 0 <= j < |streams| && j != target ==> streams'[j] == streams[j])
            && HasKey(streams'[target], attributeType, nameIndex)
            && streams'[target].fragments == (if target < |streams| then streams[target].fragments else [])
            && (|streams'| > |streams| ==> target == |streams|)
            && (UniqueKeys(streams) ==> UniqueKeys(streams'))
  {
  }

  /** The stream list after the attribute's stream is found or created. */
  lemma StreamsAdded(cfg: Config, w: Walk, nameIndex: nat, names: seq<Utf16>, streams: seq<StreamInfo>, target: nat)
    requires cfg.withStreams
    requires w.names <= names && RefersToTable(nameIndex, names) && (Unique(w.names) ==> Unique(names))
    requires target < |streams| && |w.streams| <= |streams| <= |w.streams| + 1
    requires |streams| > |w.streams| ==> target == |w.streams|
    requires forall j :: 0 <= j < |w.streams| ==> StreamEvolves(w.streams[j], streams[j])
    requires forall j :: 0 <= j < |w.streams| && j != target ==> streams[j] == w.streams[j]
    requires streams[target].nameIndex == nameIndex
    requires streams[target].fragments == (if target < |w.streams| then w.streams[target].fragments else [])
    requires UniqueKeys(w.streams) ==> UniqueKeys(streams)
    ensures Keeps(cfg, w, w.(names := names, streams := streams))
  {
    var v := w.(names := names, streams := streams);
    if WellFormed(w) {
      forall j | 0 <= j < |streams| ensures RefersToTable(streams[j].nameIndex, names) {
        if j != target {
          assert streams[j] == w.streams[j];
        }
      }
    }
    if !DecodesFragments(cfg) && NoFragments(w.streams) {
      forall j | 0 <= j < |streams| ensures streams[j].fragments == [] {
        if j != target {
          assert streams[j] == w.streams[j];
        }
      }
    }
    KeepsStreams(cfg, w, v);
  }

  /** The target stream replaced by one it evolves to, with the same key. */
  lemma StreamReplaced(cfg: Config, w: Walk, target: nat, t: StreamInfo)
    requires cfg.withStreams && DecodesFragments(cfg)
    requires target < |w.streams| && StreamEvolves(w.streams[target], t)
    ensures Keeps(cfg, w, w.(streams := w.streams[target := t]))
  {
    var v := w.(streams := w.streams[target := t]);
    forall j | 0 <= j < |w.streams| ensures StreamEvolves(w.streams[j], v.streams[j]) {
      if j != target {
        assert v.streams[j] == w.streams[j];
      }
    }
    KeepsStreams(cfg, w, v);
  }

  /** The name of a stream is 0 or an index into the grown table, which keeps the old one as
      its prefix and holds no name twice. */
  lemma StreamNameKeeps(data: seq<u8>, offset: nat, names: seq<Utf16>)
    requires offset + 10 <= |data| && StreamName(data, offset, names).Ok?
    ensures var (nameIndex, names') := StreamName(data, offset, names).value;
            names <= names' && RefersToTable(nameIndex, names')
            && (Unique(names) ==> Unique(names'))
  {
    if data[offset + 9] != 0 && Unique(names) {
      InternKeepsUnique(names, Utf16At(data, offset + U16At(data, offset + 10), data[offset + 9] as nat));
    }
  }

  lemma AttributeStreamKeeps(data: seq<u8>, cfg: Config, offset: nat, attributeType: u32, length: nat, w: Walk)
    requires cfg.withStreams
    requires AttributeStream(data, cfg, offset, attributeType, length, w).Ok?
    ensures Keeps(cfg, w, AttributeStream(data, cfg, offset, attributeType, length, w).value)
  {
    StreamNameKeeps(data, offset, w.names);
    var (nameIndex, names) := StreamName(data, offset, w.names).value;
    var found := FindStream(w.streams, attributeType, nameIndex);
    var readsHeader := found.None? || w.streams[found.value].size == 0 || DecodesFragments(cfg);
    var dataSize := if readsHeader then U64At(data, offset + 48) else 0;
    var (streams, target) := FindOrAdd(w.streams, found, attributeType, nameIndex, dataSize);
    FindOrAddKeeps(w.streams, attributeType, nameIndex, dataSize);
    StreamsAdded(cfg, w, nameIndex, names, streams, target);
    if DecodesFragments(cfg) {
      var u := w.(names := names, streams := streams);
      var t := WithRuns(streams[target], RunList(data, offset, length).value, U64At(data, offset + 16));
      StreamReplaced(cfg, u, target, t);
      KeepsTransitive(cfg, w, u, u.(streams := u.streams[target := t]));
    }
  }

  lemma NonresidentKeeps(data: seq<u8>, cfg: Config, offset: nat, attributeType: u32, length: nat, w: Walk)
    requires Nonresident(data, cfg, offset, attributeType, length, w).Ok?
    ensures Keeps(cfg, w, Nonresident(data, cfg, offset, attributeType, length, w).value)
  {
    var setsSize := attributeType == AttributeData && w.node.size == 0;
    var w1 := w.(node := if setsSize then w.node.(size := U64At(data, offset + 48)) else w.node);
    BitOrIdempotent(w.node.attributes);
    KeepsNodeOnly(cfg, w, w1);
    if cfg.withStreams {
      AttributeStreamKeeps(data, cfg, offset, attributeType, length, w1);
      KeepsTransitive(cfg, w, w1, Nonresident(data, cfg, offset, attributeType, length, w).value);
    }
  }

  lemma EffectKeeps(data: seq<u8>, cfg: Config, offset: nat, length: nat, w: Walk)
    requires offset + 8 <= |data| && Effect(data, cfg, offset, length, w).Ok?
    ensures Keeps(cfg, w, Effect(data, cfg, offset, length, w).value)
  {
    var v := Effect(data, cfg, offset, length, w).value;
    if v == w {
      BitOrIdempotent(w.node.attributes);
    } else if data[offset + 8] == 0 {
      ResidentKeeps(data, cfg, offset, U32At(data, offset), w);
    } else {
      NonresidentKeeps(data, cfg, offset, U32At(data, offset), length, w);
    }
  }

  lemma KeepsReflexive(cfg: Config, w: Walk)
    ensures Keeps(cfg, w, w)
  {
    BitOrIdempotent(w.node.attributes);
  }

  /** The whole loop keeps what every step keeps. */
  lemma {:induction false} WalkFromKeeps(data: seq<u8>, cfg: Config, offset: nat, w: Walk)
    requires WalkFrom(data, cfg, offset, w).Ok?
    ensures Keeps(cfg, w, WalkFrom(data, cfg, offset, w).value)
    decreases |data| - offset
  {
    var more, next, w' := WalkStep(data, cfg, offset, w);
    if more {
      WalkFromKeeps(data, cfg, next, w');
      KeepsTransitive(cfg, w, w', WalkFrom(data, cfg, next, w').value);
    } else {
      KeepsReflexive(cfg, w);
    }
  }

  /** One iteration of the loop: either the walk ends here, or it goes on from a later offset
      with a state the attribute's effect keeps. */
  lemma WalkStep(data: seq<u8>, cfg: Config, offset: nat, w: Walk) returns (more: bool, next: nat, w': Walk)
    requires WalkFrom(data, cfg, offset, w).Ok?
    ensures !more ==> WalkFrom(data, cfg, offset, w) == Ok(w)
    ensures more ==> offset < next <= |data| && Keeps(cfg, w, w')
                     && WalkFrom(data, cfg, offset, w) == WalkFrom(data, cfg, next, w')
  {
    more, next, w' := false, offset, w;
    if offset < |data| && Advance(data, offset).value.Some? {
      more, next := true, Advance(data, offset).value.value;
      w' := Effect(data, cfg, offset, next - offset, w).value;
      EffectKeeps(data, cfg, offset, next - offset, w);
      WalkFromNext(data, cfg, offset, w, next, w');
    }
  }

  lemma WalkFromNext(data: seq<u8>, cfg: Config, offset: nat, w: Walk, next: nat, w': Walk)
    requires offset < |data| && Advance(data, offset) == Ok(Some(next))
    requires Effect(data, cfg, offset, next - offset, w) == Ok(w')
    ensures WalkFrom(data, cfg, offset, w) == WalkFrom(data, cfg, next, w')
  {
    hide Effect;
  }

  /** How one iteration of the loop ends the walk: at the end marker, on a failed header check
      or on a failed attribute. */
  lemma WalkFromStops(data: seq<u8>, cfg: Config, offset: nat, w: Walk)
    ensures offset >= |data| ==> WalkFrom(data, cfg, offset, w) == Ok(w)
    ensures offset < |data| && Advance(data, offset).Err? ==> WalkFrom(data, cfg, offset, w) == Err(Advance(data, offset).error)
    ensures offset < |data| && Advance(data, offset) == Ok(None) ==> WalkFrom(data, cfg, offset, w) == Ok(w)
    ensures offset < |data| && Advance(data, offset).Ok? && Advance(data, offset).value.Some?
            && Effect(data, cfg, offset, Advance(data, offset).value.value - offset, w).Err?
            ==> WalkFrom(data, cfg, offset, w)
                == Err(Effect(data, cfg, offset, Advance(data, offset).value.value - offset, w).error)
  {
    hide Effect;
  }

  /** `ProcessAttributes` keeps the same facts; a node with streams ends with the size of its
      first stream. */
  lemma AttributesKeeps(data: seq<u8>, cfg: Config, w: Walk)
    requires Attributes(data, cfg, w).Ok?
    ensures Keeps(cfg, w, Attributes(data, cfg, w).value)
    ensures var v := Attributes(data, cfg, w).value;
            cfg.withStreams && |v.streams| > 0 ==> v.node.size == v.streams[0].size
  {
    WalkFromKeeps(data, cfg, 0, w);
  }

  /** `ProcessMftRecord` returns false exactly for a record that is not a FILE record, is not in
      use, or extends another record. */
  lemma MftRecordSkips(rec: seq<u8>, cfg: Config, names: seq<Utf16>)
    requires |rec| >= FileRecordHeaderReadSize
    ensures MftRecord(rec, cfg, names) == Ok(None) <==>
              RecordTypeOf(rec) != RecordTypeFile || RecordFlagsOf(rec) % 2 == 0 || BaseInodeOf(rec) != 0
  {
  }

  /** The two corruption checks on a record in use. */
  lemma MftRecordCorrupt(rec: seq<u8>, cfg: Config, names: seq<Utf16>)
    requires |rec| >= FileRecordHeaderReadSize
    requires RecordTypeOf(rec) == RecordTypeFile && RecordFlagsOf(rec) % 2 == 1 && BaseInodeOf(rec) == 0
    ensures (AttributeOffsetOf(rec) >= |rec| || BytesInUseOf(rec) > |rec|)
              ==> MftRecord(rec, cfg, names) == Err(CorruptRecord)
  {
  }

  /** A record that is read: the node is a directory when bit 1 of the record's flags says so,
      the name table only grew, and the result is well formed when the table was. */
  lemma MftRecordResult(rec: seq<u8>, cfg: Config, names: seq<Utf16>)
    requires MftRecord(rec, cfg, names).Ok? && MftRecord(rec, cfg, names).value.Some?
    ensures var v := MftRecord(rec, cfg, names).value.value;
            names <= v.names
            && ((RecordFlagsOf(rec) / 2) % 2 == 1 ==> Covers(Directory, v.node.attributes))
            && (Unique(names) ==> WellFormed(v))
            && (!cfg.withStreams ==> v.streams == [])
            && (!DecodesFragments(cfg) ==> NoFragments(v.streams))
            && (!HasFlag(cfg.retrieveMode, StandardInformations) ==> v.standardInformation.None?)
  {
    var attributes: u32 := if (RecordFlagsOf(rec) / 2) % 2 == 1 then Directory else 0;
    var start := Walk(Node(attributes, ROOTDIRECTORY, 0, 0), names, None, []);
    AttributesKeeps(rec[AttributeOffsetOf(rec)..], cfg, start);
    var v := MftRecord(rec, cfg, names).value.value;
  }

  /** The corrected loop stops on the span that the loop as written never leaves. */
  lemma LoopingAttributesFail(cfg: Config, w: Walk)
    ensures WalkFrom(LoopingAttributes, cfg, 0, w) == Err(CorruptAttribute)
  {
    LoopingAttributesRejected();
    assert U32At(LoopingAttributes, 0) == AttributeAttributeList;
    assert Effect(LoopingAttributes, cfg, 0, 8, w) == Ok(w);
  }

  /** The corrected loop stops with an error on the span that the loop as written reads as a
      well-formed record. */
  lemma BackwardsAttributesFail(cfg: Config, w: Walk)
    ensures WalkFrom(BackwardsAttributes, cfg, 0, w) == Err(CorruptAttribute)
  {
    BackwardsAttributesRejected();
    assert U32At(BackwardsAttributes, 0) == AttributeAttributeList;
    assert Effect(BackwardsAttributes, cfg, 0, 24, w) == Ok(w);
  }
}
