/** The query layer: `NodeWrapper`, `StreamWrapper` and `FragmentWrapper`, the views the reader
    hands out over the tables its scan left behind, with the guards that refuse data the retrieve
    mode did not capture. */
module Views {
  import opened Common
  import opened Structures
  import opened Names
  import opened RecordProperties
  import opened Paths
  import Reader

  /** `FragmentWrapper`: one fragment of a stream, as the query layer exposes it. */
  datatype FragmentView = FragmentView(fragment: Fragment) {
    function Lcn(): u64 {
      fragment.lcn
    }

    function NextVcn(): u64 {
      fragment.nextVcn
    }
  }

  /** `StreamWrapper`: stream `streamIndex` of the node `nodeIndex`, looked up in the volume's
      stream table on every access. */
  datatype StreamView = StreamView(vol: Volume, nodeIndex: u32, streamIndex: nat) {
    /** `reader._streams[parentNode.NodeIndex][streamIndex]`, failing as the array accesses would. */
    function Entry(): (r: Result<StreamInfo>)
      ensures r.Ok? <==> vol.streams.Some? && nodeIndex as int < |vol.streams.value|
                         && vol.streams.value[nodeIndex].Some?
                         && streamIndex < |vol.streams.value[nodeIndex].value|
    {
      if vol.streams.None? then Err(NullReference)
      else if nodeIndex as int >= |vol.streams.value| then Err(IndexOutOfRange)
      else if vol.streams.value[nodeIndex].None? then Err(NullReference)
      else if streamIndex >= |vol.streams.value[nodeIndex].value| then Err(IndexOutOfRange)
      else Ok(vol.streams.value[nodeIndex].value[streamIndex])
    }

    /** The stream's interned name; null for name index 0. */
    function Name(): Result<Option<Utf16>> {
      match Entry()
      case Err(e) => Err(e)
      case Ok(s) => NameFromIndex(vol.names, s.nameIndex)
    }

    /** The stream's stored size. */
    function Size(): Result<u64> {
      match Entry()
      case Err(e) => Err(e)
      case Ok(s) => Ok(s.size)
    }

    /** The fragments, refused unless the mode retrieved them, and null when there are none. */
    function Fragments(): Result<Option<seq<FragmentView>>> {
      if !HasFlag(vol.retrieveMode, Structures.Fragments) then Err(DataNotRetrieved)
      else
        match Entry()
        case Err(e) => Err(e)
        case Ok(s) =>
          if |s.fragments| == 0 then Ok(None)
          else Ok(Some(seq(|s.fragments|, i requires 0 <= i < |s.fragments| => FragmentView(s.fragments[i]))))
    }
  }

  /** `StreamWrapper.Fragments`: refused without the Fragments flag; otherwise null for a stream
      without fragments, and else one view per fragment, in order, exposing the same cluster
      numbers. */
  lemma FragmentsProjection(s: StreamView)
    requires s.Entry().Ok?
    ensures !HasFlag(s.vol.retrieveMode, Structures.Fragments) ==> s.Fragments() == Err(DataNotRetrieved)
    ensures HasFlag(s.vol.retrieveMode, Structures.Fragments) ==>
              var fs := s.Entry().value.fragments;
              && (|fs| == 0 <==> s.Fragments() == Ok(None))
              && (|fs| > 0 ==>
                    && s.Fragments().Ok? && s.Fragments().value.Some?
                    && |s.Fragments().value.value| == |fs|
                    && forall i :: 0 <= i < |fs| ==>
                         s.Fragments().value.value[i].Lcn() == fs[i].lcn
                         && s.Fragments().value.value[i].NextVcn() == fs[i].nextVcn)
  {
  }

  /** What the tables of a finished scan satisfy, read as a volume: every name index refers to
      the name table, each table the mode allocated has a slot per node and exists only when the
      mode asks for it, and stream lists hold no fragments unless the mode asks for them. */
  ghost predicate Consistent(vol: Volume) {
    && (forall i :: 0 <= i < |vol.nodes| ==> RefersToTable(vol.nodes[i].nameIndex, vol.names))
    && (vol.standardInformations.Some? <==> HasFlag(vol.retrieveMode, StandardInformations))
    && (vol.standardInformations.Some? ==> |vol.standardInformations.value| == |vol.nodes|)
    && (vol.streams.Some? <==> HasFlag(vol.retrieveMode, Streams))
    && (vol.streams.Some? ==>
          |vol.streams.value| == |vol.nodes|
          && forall i :: 0 <= i < |vol.nodes| && vol.streams.value[i].Some? ==>
               Reader.StreamsFacts(vol.streams.value[i].value, vol.names, vol.retrieveMode))
  }

  /** The tables `ProcessMft` leaves, starting from the reader's initial state of no tables, form
      a consistent volume. */
  lemma ScannedVolumeIsConsistent(nodes: seq<Node>, names: seq<Utf16>, bitmap: seq<u8>, mode: bv32,
                                  table: Option<seq<StandardInformation>>,
                                  streams: Option<seq<Option<seq<StreamInfo>>>>, driveName: Utf16)
    requires Reader.ScanFacts(nodes, names, bitmap, mode, table, streams)
    requires !HasFlag(mode, StandardInformations) ==> table.None?
    requires !HasFlag(mode, Streams) ==> streams.None?
    ensures Consistent(Volume(nodes, names, streams, table, mode, driveName))
  {
  }

  /** A stream of a consistent volume always has a readable name, and its fragments are refused
      exactly when the mode did not retrieve them, in which case there were none to lose. */
  lemma StreamViewOfConsistent(s: StreamView)
    requires Consistent(s.vol) && s.Entry().Ok?
    ensures s.Name().Ok? && s.Size() == Ok(s.Entry().value.size)
    ensures s.Fragments().Err? <==> !HasFlag(s.vol.retrieveMode, Structures.Fragments)
    ensures !HasFlag(s.vol.retrieveMode, Structures.Fragments) ==> s.Entry().value.fragments == []
  {
    var list := s.vol.streams.value[s.nodeIndex].value;
    assert Reader.StreamsFacts(list, s.vol.names, s.vol.retrieveMode);
    assert list[s.streamIndex] == s.Entry().value;
  }

  /** `NodeWrapper`: node `nodeIndex` of the volume, with a copy of its table entry and a cache
      for its full name. */
  class NodeWrapper {
    const vol: Volume
    const nodeIndex: u32
    const node: Node
    var fullName: Option<Utf16>

    /** The cached full name, once there is one, is the one the resolver gives. */
    ghost predicate Valid()
      reads this
    {
      fullName.Some? ==> Paths.FullName(vol, nodeIndex, WalkBound(vol.nodes)) == Ok(fullName.value)
    }

    constructor (vol: Volume, nodeIndex: u32, node: Node)
      ensures this.vol == vol && this.nodeIndex == nodeIndex && this.node == node
      ensures fullName == None && Valid()
    {
      this.vol := vol;
      this.nodeIndex := nodeIndex;
      this.node := node;
      fullName := None;
    }

    function ParentNodeIndex(): u32 {
      node.parentNodeIndex
    }

    function Attributes(): u32 {
      node.attributes
    }

    function Size(): u64 {
      node.size
    }

    /** The node's interned name; null for name index 0. */
    function Name(): Result<Option<Utf16>> {
      NameFromIndex(vol.names, node.nameIndex)
    }

    /** `FullName`: `_fullName ??= GetNodeFullNameCore(nodeIndex)`. The resolver runs only while
        the cache is empty; a resolved name is kept and returned from then on, and a failure
        leaves the cache empty. */
    method FullName() returns (r: Result<Utf16>)
      requires Valid()
      modifies this`fullName
      ensures Valid()
      ensures r == Paths.FullName(vol, nodeIndex, WalkBound(vol.nodes))
      ensures old(fullName).Some? ==> fullName == old(fullName)
      ensures old(fullName).None? ==> fullName == (if r.Ok? then Some(r.value) else None)
    {
      if fullName.Some? {
        return Ok(fullName.value);
      }
      r := GetNodeFullNameCore(vol, nodeIndex, WalkBound(vol.nodes));
      if r.Ok? {
        fullName := Some(r.value);
      }
    }

    /** The value `Streams` returns: refused when the reader kept no stream table, null for a
        node without streams, and otherwise one stream view per stream, view `i` bound to stream
        `i`. */
    function StreamsOf(): (r: Result<Option<seq<StreamView>>>)
      ensures r.Err? ==> vol.streams.None? || nodeIndex as int >= |vol.streams.value|
      ensures vol.streams.None? ==> r == Err(DataNotRetrieved)
    {
      if vol.streams.None? then Err(DataNotRetrieved)
      else if nodeIndex as int >= |vol.streams.value| then Err(IndexOutOfRange)
      else
        match vol.streams.value[nodeIndex]
        case None => Ok(None)
        case Some(list) => Ok(Some(seq(|list|, i requires 0 <= i < |list| => StreamView(vol, nodeIndex, i))))
    }

    /** `Streams`, the loop that wraps each stream of the node. */
    method Streams() returns (r: Result<Option<seq<StreamView>>>)
      ensures r == StreamsOf()
    {
      if vol.streams.None? {
        return Err(DataNotRetrieved);
      }
      if nodeIndex as int >= |vol.streams.value| {
        return Err(IndexOutOfRange);
      }
      var streams := vol.streams.value[nodeIndex];
      if streams.None? {
        return Ok(None);
      }
      var newStreams: seq<StreamView> := [];
      for i := 0 to |streams.value|
        invariant newStreams == seq(i, k requires 0 <= k < i => StreamView(vol, nodeIndex, k))
      {
        newStreams := newStreams + [StreamView(vol, nodeIndex, i)];
      }
      r := Ok(Some(newStreams));
    }

    /** `reader._standardInformations[nodeIndex]`, refused when the mode did not retrieve it. */
    function StandardInformationOf(): (r: Result<StandardInformation>)
      ensures r.Ok? <==> vol.standardInformations.Some?
                         && nodeIndex as int < |vol.standardInformations.value|
      ensures vol.standardInformations.None? ==> r == Err(DataNotRetrieved)
    {
      if vol.standardInformations.None? then Err(DataNotRetrieved)
      else if nodeIndex as int >= |vol.standardInformations.value| then Err(IndexOutOfRange)
      else Ok(vol.standardInformations.value[nodeIndex])
    }

    /** The raw FILETIME values; the conversion to `DateTime` is not part of this model. */
    function CreationTime(): Result<u64> {
      match StandardInformationOf()
      case Err(e) => Err(e)
      case Ok(info) => Ok(info.creationTime)
    }

    function LastChangeTime(): Result<u64> {
      match StandardInformationOf()
      case Err(e) => Err(e)
      case Ok(info) => Ok(info.lastChangeTime)
    }

    function LastAccessTime(): Result<u64> {
      match StandardInformationOf()
      case Err(e) => Err(e)
      case Ok(info) => Ok(info.lastAccessTime)
    }
  }

  /** The views of a node of a consistent volume: its name can always be read; the timestamps
      are refused exactly when the mode did not retrieve them; and `Streams` is refused exactly
      when the mode did not retrieve streams, and otherwise binds view `i` to stream `i`. */
  lemma NodeViewOfConsistent(n: NodeWrapper)
    requires Consistent(n.vol) && n.nodeIndex as int < |n.vol.nodes| && n.node == n.vol.nodes[n.nodeIndex]
    ensures n.Name().Ok?
    ensures n.CreationTime().Ok? <==> HasFlag(n.vol.retrieveMode, StandardInformations)
    ensures n.LastChangeTime().Ok? <==> HasFlag(n.vol.retrieveMode, StandardInformations)
    ensures n.LastAccessTime().Ok? <==> HasFlag(n.vol.retrieveMode, StandardInformations)
    ensures n.StreamsOf().Err? <==> !HasFlag(n.vol.retrieveMode, Streams)
    ensures n.StreamsOf().Ok? && n.StreamsOf().value.Some? ==>
              var views := n.StreamsOf().value.value;
              var list := n.vol.streams.value[n.nodeIndex].value;
              && |views| == |list|
              && forall i :: 0 <= i < |views| ==> views[i].Entry() == Ok(list[i])
  {
  }

  /** A resolved full name ends with a separator and the node's own name, or with the bare
      separator when the node has no name. */
  lemma FullNameEndsWithName(n: NodeWrapper)
    requires n.nodeIndex as int < |n.vol.nodes| && n.node == n.vol.nodes[n.nodeIndex]
    requires Paths.FullName(n.vol, n.nodeIndex, WalkBound(n.vol.nodes)).Ok?
    ensures n.Name().Ok?
    ensures var s := Paths.FullName(n.vol, n.nodeIndex, WalkBound(n.vol.nodes)).value;
            var own := [Backslash] + (if n.Name().value.Some? then n.Name().value.value else []);
            |own| <= |s| && s[|s| - |own|..] == own
  {
    FullNameShape(n.vol, n.nodeIndex, WalkBound(n.vol.nodes));
  }
}
