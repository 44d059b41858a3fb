/** Data runs: the compressed list of extents stored in a nonresident attribute. Each run starts
    with a header byte whose low nibble is the size of the run-length field and whose high nibble
    is the size of the run-offset field; the two little-endian fields follow, and a zero header
    ends the list. The length is a count of clusters; the offset is a signed distance from the
    previous run's first cluster, and an offset of zero marks a run with no clusters on disk. */
module Runs {
  import opened Common
  import opened Bytes
  import opened Structures

  /** One decoded run, its two fields as the bit patterns of the signed 64-bit locals. */
  datatype Run = Run(length: u64, offset: u64)

  /** `n` copies of the byte `b`. */
  function Fill(n: nat, b: u8): (s: seq<u8>)
    ensures |s| == n && forall k :: 0 <= k < n ==> s[k] == b
  {
    if n == 0 then [] else [b] + Fill(n - 1, b)
  }

  /** The eight bytes of the `long` local once the length field's bytes are stored into it. */
  function LengthImage(field: seq<u8>): (s: seq<u8>)
    requires |field| <= 8
    ensures |s| == 8
  {
    field + Fill(8 - |field|, 0)
  }

  /** The eight bytes of the `long` local once the offset field is stored and sign-extended: when
      the field's last byte has its top bit set, the remaining bytes become 0xFF. An empty field
      leaves the local at zero. */
  function OffsetImage(field: seq<u8>): (s: seq<u8>)
    requires |field| <= 8
    ensures |s| == 8
  {
    field + Fill(8 - |field|, if |field| > 0 && field[|field| - 1] >= 0x80 then 0xFF else 0)
  }

  /** The value of an 8-byte little-endian image. */
  function Le64(s: seq<u8>): (n: u64)
    requires |s| == 8
  {
    Pow2Widths();
    LeValue(s)
  }

  /** The read loop shared by `ProcessRunLength` and `ProcessRunOffset`, from byte `i` of the
      field on, `index` being the position in the run data. Each byte is stored into byte `i` of
      an 8-byte local (a ninth would overrun it), read from the run data (outside the bytes
      available it is OutOfBounds) and then the index is advanced, which fails with
      CorruptRunList once it reaches the run data's declared length. */
  function ReadField(data: seq<u8>, len: u32, index: nat, size: nat, i: nat): (r: Result<(seq<u8>, nat)>)
    requires i <= size && i <= 8
    ensures r.Ok? ==> size <= 8 && |r.value.0| == size - i && r.value.1 == index + (size - i)
    ensures r.Ok? && index <= |data| ==> r.value.1 <= |data|
    decreases size - i
  {
    if i == size then Ok(([], index))
    else if i >= 8 then Err(Overrun)
    else if index >= |data| then Err(OutOfBounds)
    else if index + 1 >= len then Err(CorruptRunList)
    else
      match ReadField(data, len, index + 1, size, i + 1)
      case Ok((bytes, next)) => Ok(([data[index]] + bytes, next))
      case Err(e) => Err(e)
  }

  /** `ProcessRunLength`: the run length and the index after its field. */
  function RunLengthSpec(data: seq<u8>, len: u32, index: nat, size: nat): (r: Result<(u64, nat)>)
    ensures r.Ok? ==> r.value.1 == index + size
    ensures r.Ok? && index <= |data| ==> r.value.1 <= |data|
  {
    match ReadField(data, len, index, size, 0)
    case Ok((field, next)) => Ok((Le64(LengthImage(field)), next))
    case Err(e) => Err(e)
  }

  /** `ProcessRunOffset`: the sign-extended run offset and the index after its field. */
  function RunOffsetSpec(data: seq<u8>, len: u32, index: nat, size: nat): (r: Result<(u64, nat)>)
    ensures r.Ok? ==> r.value.1 == index + size
    ensures r.Ok? && index <= |data| ==> r.value.1 <= |data|
  {
    match ReadField(data, len, index, size, 0)
    case Ok((field, next)) => Ok((Le64(OffsetImage(field)), next))
    case Err(e) => Err(e)
  }

  /** The field read so far, in front of what the rest of the loop yields. */
  function Prefixed(done: seq<u8>, r: Result<(seq<u8>, nat)>): Result<(seq<u8>, nat)> {
    match r
    case Ok((bytes, next)) => Ok((done + bytes, next))
    case Err(e) => Err(e)
  }

  /** A field is read without error exactly when it fits the 8-byte local and ends before the
      run data's last byte, and it is then the bytes at `index`. */
  lemma {:induction false} ReadFieldClosedForm(data: seq<u8>, len: u32, index: nat, size: nat, i: nat)
    requires i <= size && i <= 8
    ensures ReadField(data, len, index, size, i).Ok?
        <==> size <= 8 && (i == size || (index + (size - i) <= |data| && index + (size - i) < len))
    ensures ReadField(data, len, index, size, i).Ok? ==>
              index + (size - i) <= |data| || i == size
    ensures ReadField(data, len, index, size, i).Ok? && i < size ==>
              ReadField(data, len, index, size, i).value.0 == data[index..index + (size - i)]
    decreases size - i
  {
    if i < size && i < 8 && index < |data| && index + 1 < len {
      ReadFieldClosedForm(data, len, index + 1, size, i + 1);
      if ReadField(data, len, index, size, i).Ok? && i + 1 < size {
        assert data[index..index + (size - i)] == [data[index]] + data[index + 1..index + 1 + (size - (i + 1))];
      }
    }
  }

  /** When the declared length does not exceed the bytes available, a field that fails does so
      because it is too wide or runs into the end of the run data, never by reading past it. */
  lemma {:induction false} ReadFieldInSpan(data: seq<u8>, len: u32, index: nat, size: nat, i: nat)
    requires i <= size && i <= 8
    requires index < len <= |data|
    ensures ReadField(data, len, index, size, i) != Err(OutOfBounds)
    decreases size - i
  {
    if i < size && i < 8 && index < |data| && index + 1 < len {
      ReadFieldInSpan(data, len, index + 1, size, i + 1);
    }
  }

  /** `ProcessRunLength`, storing the field's bytes into an 8-byte local one at a time. */
  method ProcessRunLength(runData: seq<u8>, runDataLength: u32, runLengthSize: nat, index: nat)
    returns (r: Result<(u64, nat)>)
    ensures r == RunLengthSpec(runData, runDataLength, index, runLengthSize)
  {
    var bytes, next, failure := ReadFieldInto(runData, runDataLength, runLengthSize, index);
    if failure.Some? {
      return Err(failure.value);
    }
    r := Ok((Le64(bytes[..]), next));
  }

  /** `ProcessRunOffset`: the same loop, then the sign extension of a negative offset. */
  method ProcessRunOffset(runData: seq<u8>, runDataLength: u32, runOffsetSize: nat, index: nat)
    returns (r: Result<(u64, nat)>)
    ensures r == RunOffsetSpec(runData, runDataLength, index, runOffsetSize)
  {
    var bytes, next, failure := ReadFieldInto(runData, runDataLength, runOffsetSize, index);
    if failure.Some? {
      return Err(failure.value);
    }
    ghost var field := bytes[..runOffsetSize];
    var i := runOffsetSize;
    if i > 0 && bytes[i - 1] >= 0x80 {
      while i < 8
        invariant runOffsetSize <= i <= 8
        invariant bytes[..] == field + Fill(i - runOffsetSize, 0xFF) + Fill(8 - i, 0)
      {
        bytes[i] := 0xFF;
        i := i + 1;
      }
    }
    assert bytes[..] == OffsetImage(field);
    r := Ok((Le64(bytes[..]), next));
  }

  /** The loop both field readers share: on success the 8-byte local holds the field followed by
      zeros; otherwise `failure` is the error the loop stops with. */
  method ReadFieldInto(runData: seq<u8>, runDataLength: u32, size: nat, index: nat)
    returns (bytes: array<u8>, next: nat, failure: Option<Error>)
    ensures fresh(bytes) && bytes.Length == 8
    ensures failure.None? <==> ReadField(runData, runDataLength, index, size, 0).Ok?
    ensures failure.Some? ==> ReadField(runData, runDataLength, index, size, 0) == Err(failure.value)
    ensures failure.None? ==>
              bytes[..] == LengthImage(ReadField(runData, runDataLength, index, size, 0).value.0)
              && next == ReadField(runData, runDataLength, index, size, 0).value.1
  {
    hide ReadField, Fill;
    bytes := new u8[8](_ => 0);
    FillZeros(8, bytes[..]);
    next := index;
    ReadFieldCases(runData, runDataLength, index, size, 0);
    if index > |runData| {
      // the first byte the loop would read already lies outside the run data
      return bytes, next, if size == 0 then None else Some(OutOfBounds);
    }
    var i := 0;
    PrefixedEmpty(ReadField(runData, runDataLength, index, size, 0));
    while i < size
      invariant i <= size && i <= 8 && next == index + i
      invariant next <= |runData|
      invariant bytes[..] == runData[index..next] + Fill(8 - i, 0)
      invariant ReadField(runData, runDataLength, index, size, 0)
             == Prefixed(runData[index..next], ReadField(runData, runDataLength, next, size, i))
      decreases size - i
    {
      ReadFieldCases(runData, runDataLength, next, size, i);
      if i >= 8 {
        return bytes, next, Some(Overrun);
      }
      if next >= |runData| {
        return bytes, next, Some(OutOfBounds);
      }
      FillStore(runData[index..next], runData[next], 8 - i);
      bytes[i] := runData[next];
      if next + 1 >= runDataLength {
        return bytes, next, Some(CorruptRunList);
      }
      SliceSnoc(runData, index, next);
      PrefixedStep(runData, runDataLength, index, next, size, i);
      next := next + 1;
      i := i + 1;
    }
    ReadFieldCases(runData, runDataLength, next, size, i);
    failure := None;
  }

  /** How the loop of `ReadFieldInto` goes on at byte `i` of the field, by the first case of
      `ReadField`. */
  lemma ReadFieldCases(data: seq<u8>, len: u32, index: nat, size: nat, i: nat)
    requires i <= size && i <= 8
    ensures i == size ==> ReadField(data, len, index, size, i) == Ok(([], index))
    ensures i < size && i >= 8 ==> ReadField(data, len, index, size, i) == Err(Overrun)
    ensures i < size && i < 8 && index >= |data| ==> ReadField(data, len, index, size, i) == Err(OutOfBounds)
    ensures i < size && i < 8 && index < |data| && index + 1 >= len ==>
              ReadField(data, len, index, size, i) == Err(CorruptRunList)
  {
  }

  /** The freshly zeroed local. */
  lemma FillZeros(n: nat, s: seq<u8>)
    requires |s| == n && forall k :: 0 <= k < n ==> s[k] == 0
    ensures s == [] + Fill(n, 0)
  {
  }

  /** Storing the next field byte into the zeroed part of the local. */
  lemma FillStore(done: seq<u8>, b: u8, n: nat)
    requires n >= 1
    ensures (done + Fill(n, 0))[|done| := b] == (done + [b]) + Fill(n - 1, 0)
  {
  }

  lemma SliceSnoc(s: seq<u8>, a: nat, b: nat)
    requires a <= b < |s|
    ensures s[a..b + 1] == s[a..b] + [s[b]]
  {
  }

  lemma PrefixedEmpty(r: Result<(seq<u8>, nat)>)
    ensures Prefixed([], r) == r
  {
    match r
    case Ok((bytes, _)) => assert [] + bytes == bytes;
    case Err(_) =>
  }

  lemma PrefixedStep(data: seq<u8>, len: u32, index: nat, next: nat, size: nat, i: nat)
    requires index <= next < |data| && next + 1 < len && i < size && i < 8
    ensures Prefixed(data[index..next], ReadField(data, len, next, size, i))
         == Prefixed(data[index..next + 1], ReadField(data, len, next + 1, size, i + 1))
  {
    assert data[index..next + 1] == data[index..next] + [data[next]];
    match ReadField(data, len, next + 1, size, i + 1)
    case Ok((bytes, after)) =>
      assert data[index..next] + ([data[next]] + bytes) == data[index..next + 1] + bytes;
    case Err(_) =>
  }

  /** The run whose non-zero header byte is at `index`, and the index after it. */
  function NextRun(data: seq<u8>, len: u32, index: nat): (r: Result<(Run, nat)>)
    requires index < |data| && data[index] != 0
    ensures r.Ok? ==> index < r.value.1 <= |data|
  {
    if index + 1 >= len then Err(CorruptRunList)
    else
      // `header & 0x0F` and `(header & 0xF0) >> 4` of a byte
      var header := data[index];
      match RunLengthSpec(data, len, index + 1, header % 16)
      case Err(e) => Err(e)
      case Ok((length, afterLength)) =>
        match RunOffsetSpec(data, len, afterLength, header / 16)
        case Err(e) => Err(e)
        case Ok((offset, afterOffset)) => Ok((Run(length, offset), afterOffset))
  }

  /** The run list from `index` on, read as `ProcessFragments` reads it: runs up to the first
      zero header byte. */
  function DecodeRuns(data: seq<u8>, len: u32, index: nat): (r: Result<seq<Run>>)
    decreases |data| - index
  {
    if index >= |data| then Err(OutOfBounds)
    else if data[index] == 0 then Ok([])
    else
      match NextRun(data, len, index)
      case Err(e) => Err(e)
      case Ok((run, next)) =>
        match DecodeRuns(data, len, next)
        case Err(e) => Err(e)
        case Ok(rest) => Ok([run] + rest)
  }

  /** The body of the loop of `ProcessFragments` up to the decoding of the run's two fields. */
  method ReadRun(runData: seq<u8>, runDataLength: u32, index: nat) returns (r: Result<(Run, nat)>)
    requires index < |runData| && runData[index] != 0
    ensures r == NextRun(runData, runDataLength, index)
  {
    var runLengthSize := runData[index] % 16;
    var runOffsetSize := runData[index] / 16;
    if index + 1 >= runDataLength {
      return Err(CorruptRunList);
    }
    var lengthResult := ProcessRunLength(runData, runDataLength, runLengthSize, index + 1);
    if lengthResult.Err? {
      return Err(lengthResult.error);
    }
    var (runLength, afterLength) := lengthResult.value;
    var offsetResult := ProcessRunOffset(runData, runDataLength, runOffsetSize, afterLength);
    if offsetResult.Err? {
      return Err(offsetResult.error);
    }
    var (runOffset, afterOffset) := offsetResult.value;
    r := Ok((Run(runLength, runOffset), afterOffset));
  }

  /** The fragments the runs describe, starting from cluster `lcn` and virtual cluster `vcn`. */
  function FragmentsOf(runs: seq<Run>, lcn: u64, vcn: u64): (fs: seq<Fragment>)
    ensures |fs| == |runs|
  {
    if |runs| == 0 then []
    else
      var nextLcn := Add64(lcn, runs[0].offset);
      var nextVcn := Add64(vcn, runs[0].length);
      [Fragment(if runs[0].offset == 0 then VIRTUALFRAGMENT else nextLcn, nextVcn)]
        + FragmentsOf(runs[1..], nextLcn, nextVcn)
  }

  /** The LCN after the runs, from `lcn`. */
  function LcnAfter(runs: seq<Run>, lcn: u64): u64 {
    if |runs| == 0 then lcn else LcnAfter(runs[1..], Add64(lcn, runs[0].offset))
  }

  /** The VCN after the runs, from `vcn`. */
  function VcnAfter(runs: seq<Run>, vcn: u64): u64 {
    if |runs| == 0 then vcn else VcnAfter(runs[1..], Add64(vcn, runs[0].length))
  }

  /** A cluster count after the runs are added to it: a run counts only if its offset is not zero. */
  function ClustersAfter(runs: seq<Run>, clusters: u64): u64 {
    if |runs| == 0 then clusters
    else ClustersAfter(runs[1..], if runs[0].offset != 0 then Add64(clusters, runs[0].length) else clusters)
  }

  /** The clusters the runs occupy on disk: the lengths of the runs with a non-zero offset. */
  function RealClusters(runs: seq<Run>): nat {
    if |runs| == 0 then 0
    else (if runs[0].offset != 0 then runs[0].length else 0) + RealClusters(runs[1..])
  }

  function LengthSum(runs: seq<Run>): nat {
    if |runs| == 0 then 0 else runs[0].length + LengthSum(runs[1..])
  }

  function OffsetSum(runs: seq<Run>): nat {
    if |runs| == 0 then 0 else runs[0].offset + OffsetSum(runs[1..])
  }

  /** Fragment `k` ends at the starting VCN plus the lengths of the first `k + 1` runs, and lies at
      the sum of their offsets unless its own offset is zero; all modulo 2^64, as the source adds
      signed 64-bit values. */
  lemma {:induction false} FragmentAt(runs: seq<Run>, lcn: u64, vcn: u64, k: nat)
    requires k < |runs|
    ensures FragmentsOf(runs, lcn, vcn)[k].nextVcn == Wrap64(vcn + LengthSum(runs[..k + 1]))
    ensures runs[k].offset == 0 ==> FragmentsOf(runs, lcn, vcn)[k].lcn == VIRTUALFRAGMENT
    ensures runs[k].offset != 0 ==> FragmentsOf(runs, lcn, vcn)[k].lcn == Wrap64(lcn + OffsetSum(runs[..k + 1]))
  {
    hide Wrap64, Add64;
    var nextLcn := Add64(lcn, runs[0].offset);
    var nextVcn := Add64(vcn, runs[0].length);
    Add64IsWrap(lcn, runs[0].offset);
    Add64IsWrap(vcn, runs[0].length);
    if k > 0 {
      FragmentAt(runs[1..], nextLcn, nextVcn, k - 1);
      assert runs[1..][..k] == runs[..k + 1][1..];
      WrapAdd(lcn + runs[0].offset, OffsetSum(runs[1..][..k]));
      WrapAdd(vcn + runs[0].length, LengthSum(runs[1..][..k]));
    } else {
      assert runs[..1][1..] == [];
    }
  }

  /** The cluster count grows by the lengths of the real runs, modulo 2^64. */
  lemma {:induction false} ClustersAfterSum(runs: seq<Run>, clusters: u64)
    ensures ClustersAfter(runs, clusters) == Wrap64(clusters + RealClusters(runs))
  {
    if |runs| > 0 {
      var next := if runs[0].offset != 0 then Add64(clusters, runs[0].length) else clusters;
      ClustersAfterSum(runs[1..], next);
      Add64IsWrap(clusters, runs[0].length);
      WrapAdd(clusters + (if runs[0].offset != 0 then runs[0].length else 0), RealClusters(runs[1..]));
    }
  }

  /** One more run: the fragment it appends, and where the LCN, the VCN and the cluster count
      go next. */
  lemma {:induction false} RunsSnoc(runs: seq<Run>, r: Run, lcn: u64, vcn: u64, clusters: u64)
    ensures FragmentsOf(runs + [r], lcn, vcn)
         == FragmentsOf(runs, lcn, vcn)
            + [Fragment(if r.offset == 0 then VIRTUALFRAGMENT else Add64(LcnAfter(runs, lcn), r.offset),
                        Add64(VcnAfter(runs, vcn), r.length))]
    ensures LcnAfter(runs + [r], lcn) == Add64(LcnAfter(runs, lcn), r.offset)
    ensures VcnAfter(runs + [r], vcn) == Add64(VcnAfter(runs, vcn), r.length)
    ensures ClustersAfter(runs + [r], clusters)
         == if r.offset != 0 then Add64(ClustersAfter(runs, clusters), r.length) else ClustersAfter(runs, clusters)
  {
    if |runs| == 0 {
      assert [r][1..] == [];
    } else {
      assert (runs + [r])[1..] == runs[1..] + [r];
      RunsSnoc(runs[1..], r, Add64(lcn, runs[0].offset), Add64(vcn, runs[0].length),
               if runs[0].offset != 0 then Add64(clusters, runs[0].length) else clusters);
    }
  }

  /** `ProcessFragments`: decodes the run list at the start of `runData`, of declared length
      `runDataLength`, appending one fragment per run to the stream and adding the lengths of
      the real runs to its cluster count. */
  method ProcessFragments(stream: Stream, runData: seq<u8>, runDataLength: u32, startingVcn: u64)
    returns (o: Outcome)
    modifies stream
    ensures o.Pass? <==> DecodeRuns(runData, runDataLength, 0).Ok?
    ensures o.Fail? ==> DecodeRuns(runData, runDataLength, 0) == Err(o.error)
    ensures o.Pass? ==>
              var runs := DecodeRuns(runData, runDataLength, 0).value;
              stream.fragments == old(stream.fragments) + FragmentsOf(runs, 0, startingVcn)
              && stream.clusters == ClustersAfter(runs, old(stream.clusters))
    ensures stream.size == old(stream.size)
  {
    hide DecodeRuns, NextRun, FragmentsOf, ClustersAfter, LcnAfter, VcnAfter;
    NoRuns(startingVcn, old(stream.clusters));
    var index: nat := 0;
    var lcn: u64 := 0;
    var vcn: u64 := startingVcn;
    ghost var done: seq<Run> := [];
    match DecodeRuns(runData, runDataLength, 0) {
      case Ok(rest) => assert [] + rest == rest;
      case Err(_) =>
    }
    while true
      invariant index <= |runData|
      invariant DecodeRuns(runData, runDataLength, 0) == Then(done, DecodeRuns(runData, runDataLength, index))
      invariant lcn == LcnAfter(done, 0) && vcn == VcnAfter(done, startingVcn)
      invariant stream.fragments == old(stream.fragments) + FragmentsOf(done, 0, startingVcn)
      invariant stream.clusters == ClustersAfter(done, old(stream.clusters))
      invariant stream.size == old(stream.size)
      decreases |runData| - index
    {
      DecodeRunsCases(runData, runDataLength, index);
      if index >= |runData| {
        return Fail(OutOfBounds);
      }
      var header := runData[index];
      if header == 0 {
        assert done + [] == done;
        return Pass;
      }
      var next := ReadRun(runData, runDataLength, index);
      if next.Err? {
        return Fail(next.error);
      }
      var (run, afterRun) := next.value;
      var runLength, runOffset := run.length, run.offset;
      DecodeRunsStep(runData, runDataLength, index, done);
      RunsSnoc(done, run, 0, startingVcn, old(stream.clusters));
      lcn := Add64(lcn, runOffset);
      vcn := Add64(vcn, runLength);
      ghost var fragment := Fragment(if runOffset == 0 then VIRTUALFRAGMENT else lcn, vcn);
      assert old(stream.fragments) + FragmentsOf(done + [run], 0, startingVcn) == stream.fragments + [fragment];
      if runOffset != 0 {
        stream.clusters := Add64(stream.clusters, runLength);
      }
      stream.fragments := stream.fragments + [Fragment(if runOffset == 0 then VIRTUALFRAGMENT else lcn, vcn)];
      done := done + [run];
      index := afterRun;
    }
  }

  /** How the loop of `ProcessFragments` ends at `index`, by the first case of `DecodeRuns`. */
  lemma DecodeRunsCases(data: seq<u8>, len: u32, index: nat)
    ensures index >= |data| ==> DecodeRuns(data, len, index) == Err(OutOfBounds)
    ensures index < |data| && data[index] == 0 ==> DecodeRuns(data, len, index) == Ok([])
    ensures index < |data| && data[index] != 0 && NextRun(data, len, index).Err? ==>
              DecodeRuns(data, len, index) == Err(NextRun(data, len, index).error)
  {
  }

  /** No runs decoded yet: no fragments, and the starting LCN, VCN and cluster count. */
  lemma NoRuns(vcn: u64, clusters: u64)
    ensures FragmentsOf([], 0, vcn) == [] && LcnAfter([], 0) == 0
    ensures VcnAfter([], vcn) == vcn && ClustersAfter([], clusters) == clusters
  {
  }

  /** One run decoded by the loop of `ProcessFragments` moves the rest of the list past it. */
  lemma DecodeRunsStep(data: seq<u8>, len: u32, index: nat, done: seq<Run>)
    requires index < |data| && data[index] != 0 && NextRun(data, len, index).Ok?
    ensures Then(done, DecodeRuns(data, len, index))
         == Then(done + [NextRun(data, len, index).value.0], DecodeRuns(data, len, NextRun(data, len, index).value.1))
  {
    var (run, next) := NextRun(data, len, index).value;
    match DecodeRuns(data, len, next)
    case Ok(rest) => assert done + ([run] + rest) == (done + [run]) + rest;
    case Err(_) =>
  }

  /** The runs decoded before, in front of what the rest of the list decodes to. */
  function Then(done: seq<Run>, r: Result<seq<Run>>): Result<seq<Run>> {
    match r
    case Ok(rest) => Ok(done + rest)
    case Err(e) => Err(e)
  }

  // ---------------------------------------------------------------------------------------
  // The values of the fields.

  lemma {:induction false} LeValueZeros(n: nat)
    ensures LeValue(Fill(n, 0)) == 0
  {
    if n > 0 {
      assert Fill(n, 0)[1..] == Fill(n - 1, 0);
      LeValueZeros(n - 1);
    }
  }

  lemma {:induction false} LeValueOnes(n: nat)
    ensures LeValue(Fill(n, 0xFF)) == Pow2(8 * n) - 1
  {
    if n > 0 {
      assert Fill(n, 0xFF)[1..] == Fill(n - 1, 0xFF);
      hide Pow2;
      LeValueOnes(n - 1);
      Pow2Add(8, 8 * (n - 1));
      Pow2Widths();
      assert 8 * n == 8 + 8 * (n - 1);
    }
  }

  /** Zero bytes above a little-endian value leave it unchanged. */
  lemma {:induction false} LeValueZeroPad(field: seq<u8>, m: nat)
    ensures LeValue(field + Fill(m, 0)) == LeValue(field)
  {
    if |field| == 0 {
      assert field + Fill(m, 0) == Fill(m, 0);
      LeValueZeros(m);
    } else {
      var padded := field + Fill(m, 0);
      assert padded[1..] == field[1..] + Fill(m, 0);
      LeValueZeroPad(field[1..], m);
    }
  }

  lemma LengthImageValue(field: seq<u8>)
    requires |field| <= 8
    ensures Le64(LengthImage(field)) == LeValue(field)
  {
    LeValueZeroPad(field, 8 - |field|);
  }

  /** The two's-complement value of a little-endian field: the top byte counts as signed. */
  function SignedLe(field: seq<u8>): int
    requires |field| >= 1
  {
    if |field| == 1 then (if field[0] >= 0x80 then field[0] - 0x100 else field[0])
    else field[0] + 0x100 * SignedLe(field[1..])
  }

  /** A `long` read from its 64-bit pattern. */
  function Signed64(x: u64): int {
    if x < 0x8000_0000_0000_0000 then x else x - TWO_64
  }

  lemma Pow2Plus8(x: nat)
    ensures Pow2(x + 8) == 256 * Pow2(x)
  {
    assert Pow2(x + 8) == 2 * Pow2(x + 7);
    assert Pow2(x + 7) == 2 * Pow2(x + 6);
    assert Pow2(x + 6) == 2 * Pow2(x + 5);
    assert Pow2(x + 5) == 2 * Pow2(x + 4);
    assert Pow2(x + 4) == 2 * Pow2(x + 3);
    assert Pow2(x + 3) == 2 * Pow2(x + 2);
    assert Pow2(x + 2) == 2 * Pow2(x + 1);
  }

  /** The sign of a field's value is the top bit of its last byte, and the value lies in the
      range of `|field|` signed bytes. */
  lemma {:induction false} SignedLeBounds(field: seq<u8>)
    requires |field| >= 1
    ensures SignedLe(field) < 0 <==> field[|field| - 1] >= 0x80
    ensures 0 <= 2 * SignedLe(field) + Pow2(8 * |field|) && 2 * SignedLe(field) < Pow2(8 * |field|)
  {
    hide Pow2;
    if |field| == 1 {
      Pow2Widths();
    } else {
      var rest := field[1..];
      SignedLeBounds(rest);
      assert rest[|rest| - 1] == field[|field| - 1];
      Pow2Plus8(8 * |rest|);
      assert 8 * |rest| + 8 == 8 * |field|;
      Pow2Plus8(8 * (|rest| - 1));
      assert 8 * (|rest| - 1) + 8 == 8 * |rest|;
      SignedStepBounds(field[0], SignedLe(rest), Pow2(8 * (|rest| - 1)));
    }
  }

  /** One more byte below a signed value of width `256 * q`: the bounds scale by 256. */
  lemma SignedStepBounds(b: u8, v: int, q: nat)
    requires 0 <= 2 * v + 256 * q && 2 * v < 256 * q
    ensures 0 <= 2 * (b + 0x100 * v) + 256 * (256 * q) && 2 * (b + 0x100 * v) < 256 * (256 * q)
    ensures b + 0x100 * v < 0 <==> v < 0
  {
  }

  /** Padding a field with copies of its sign byte adds `2^(8 * width)` to a negative value, the
      width being that of the padded field, and leaves a non-negative value alone. */
  lemma {:induction false} SignPadValue(field: seq<u8>, m: nat)
    requires |field| >= 1
    ensures var negative := field[|field| - 1] >= 0x80;
            LeValue(field + Fill(m, if negative then 0xFF else 0))
            == SignedLe(field) + (if negative then Pow2(8 * (|field| + m)) else 0)
  {
    hide Pow2, Fill;
    var negative := field[|field| - 1] >= 0x80;
    var pad := Fill(m, if negative then 0xFF else 0);
    var padded := field + pad;
    assert padded[1..] == field[1..] + pad;
    if |field| == 1 {
      assert padded[1..] == pad;
      if negative {
        LeValueOnes(m);
        Pow2Plus8(8 * m);
        assert 8 * (1 + m) == 8 * m + 8;
      } else {
        LeValueZeros(m);
      }
    } else {
      assert field[1..][|field| - 2] == field[|field| - 1];
      SignPadValue(field[1..], m);
      if negative {
        Pow2Plus8(8 * (|field| - 1 + m));
        assert 8 * (|field| - 1 + m) + 8 == 8 * (|field| + m);
      }
    }
  }

  /** Sign extension: the 64-bit local, read as a `long`, is the two's-complement value of the
      offset field. */
  lemma OffsetImageValue(field: seq<u8>)
    requires 1 <= |field| <= 8
    ensures Signed64(Le64(OffsetImage(field))) == SignedLe(field)
  {
    var negative := field[|field| - 1] >= 0x80;
    var image := OffsetImage(field);
    assert image == field + Fill(8 - |field|, if negative then 0xFF else 0);
    SignPadValue(field, 8 - |field|);
    assert 8 * (|field| + (8 - |field|)) == 64;
    var v := LeValue(image);
    Pow2Widths();
    assert v == SignedLe(field) + (if negative then TWO_64 else 0);
    SignedLeBounds(field);
    Pow2Monotone(8 * |field|, 64);
    assert Le64(image) == v;
  }

  /** `ProcessRunLength` yields the unsigned value of the field's bytes. */
  lemma RunLengthValue(data: seq<u8>, len: u32, index: nat, size: nat)
    requires RunLengthSpec(data, len, index, size).Ok?
    ensures size <= 8 && index + size <= |data| + (if size == 0 then index else 0)
    ensures size > 0 ==> RunLengthSpec(data, len, index, size).value.0 == LeValue(data[index..index + size])
    ensures size == 0 ==> RunLengthSpec(data, len, index, size).value.0 == 0
  {
    ReadFieldClosedForm(data, len, index, size, 0);
    var field := ReadField(data, len, index, size, 0).value.0;
    LengthImageValue(field);
    if size == 0 {
      assert field == [];
    }
  }

  /** `ProcessRunOffset` yields the two's-complement value of the field's bytes, and zero for an
      empty field. */
  lemma RunOffsetValue(data: seq<u8>, len: u32, index: nat, size: nat)
    requires RunOffsetSpec(data, len, index, size).Ok?
    ensures size <= 8 && index + size <= |data| + (if size == 0 then index else 0)
    ensures size > 0 ==> Signed64(RunOffsetSpec(data, len, index, size).value.0) == SignedLe(data[index..index + size])
    ensures size == 0 ==> RunOffsetSpec(data, len, index, size).value.0 == 0
  {
    ReadFieldClosedForm(data, len, index, size, 0);
    var field := ReadField(data, len, index, size, 0).value.0;
    if size == 0 {
      assert field == [];
      assert OffsetImage(field) == Fill(8, 0);
      LeValueZeros(8);
    } else {
      OffsetImageValue(field);
    }
  }

  // ---------------------------------------------------------------------------------------
  // Writing a run list, which the reader never does, to state what reading it recovers.

  /** The two fields of a run as stored: a length of one to eight bytes and an offset of up to
      eight (none for a sparse run). */
  datatype RunFields = RunFields(lengthField: seq<u8>, offsetField: seq<u8>)

  predicate Encodable(f: RunFields) {
    1 <= |f.lengthField| <= 8 && |f.offsetField| <= 8
  }

  predicate AllEncodable(fs: seq<RunFields>) {
    forall k :: 0 <= k < |fs| ==> Encodable(fs[k])
  }

  function EncodeRun(f: RunFields): (s: seq<u8>)
    requires Encodable(f)
    ensures |s| == 1 + |f.lengthField| + |f.offsetField|
  {
    [(16 * |f.offsetField| + |f.lengthField|) as u8] + f.lengthField + f.offsetField
  }

  /** The runs one after the other, without the terminating zero byte. */
  function EncodeRuns(fs: seq<RunFields>): seq<u8>
    requires AllEncodable(fs)
  {
    if |fs| == 0 then [] else EncodeRun(fs[0]) + EncodeRuns(fs[1..])
  }

  /** The run the reader makes of the fields. */
  function FieldsRun(f: RunFields): Run
    requires Encodable(f)
  {
    Run(Le64(LengthImage(f.lengthField)), Le64(OffsetImage(f.offsetField)))
  }

  function FieldsRuns(fs: seq<RunFields>): (rs: seq<Run>)
    requires AllEncodable(fs)
    ensures |rs| == |fs|
  {
    if |fs| == 0 then [] else [FieldsRun(fs[0])] + FieldsRuns(fs[1..])
  }

  /** Reading a field of the encoded run at the position it was written. */
  lemma ReadWrittenField(data: seq<u8>, len: u32, index: nat, field: seq<u8>)
    requires |field| <= 8 && index + |field| <= |data| && index + |field| < len
    requires data[index..index + |field|] == field
    ensures ReadField(data, len, index, |field|, 0) == Ok((field, index + |field|))
  {
    ReadFieldClosedForm(data, len, index, |field|, 0);
  }

  /** A piece of a span that holds `e` at `index`. */
  lemma SliceOfSpan(data: seq<u8>, index: nat, e: seq<u8>, a: nat, b: nat)
    requires index + |e| <= |data| && data[index..index + |e|] == e
    requires a <= b <= |e|
    ensures data[index + a..index + b] == e[a..b]
  {
    forall k | 0 <= k < b - a
      ensures data[index + a..index + b][k] == e[a..b][k]
    {
      assert data[index + a + k] == data[index..index + |e|][a + k];
    }
  }

  lemma RunLengthOfWritten(data: seq<u8>, len: u32, index: nat, field: seq<u8>, value: u64)
    requires |field| <= 8 && index + |field| <= |data| && index + |field| < len
    requires data[index..index + |field|] == field
    requires value == Le64(LengthImage(field))
    ensures RunLengthSpec(data, len, index, |field|) == Ok((value, index + |field|))
  {
    ReadWrittenField(data, len, index, field);
  }

  lemma RunOffsetOfWritten(data: seq<u8>, len: u32, index: nat, field: seq<u8>, value: u64)
    requires |field| <= 8 && index + |field| <= |data| && index + |field| < len
    requires data[index..index + |field|] == field
    requires value == Le64(OffsetImage(field))
    ensures RunOffsetSpec(data, len, index, |field|) == Ok((value, index + |field|))
  {
    ReadWrittenField(data, len, index, field);
  }

  /** `NextRun` from the values of its header and its two fields. */
  lemma NextRunOfFields(data: seq<u8>, len: u32, index: nat, lengthSize: nat, offsetSize: nat,
                         run: Run, after: nat, next: nat)
    requires index < |data| && data[index] != 0 && index + 1 < len
    requires data[index] % 16 == lengthSize && data[index] / 16 == offsetSize
    requires RunLengthSpec(data, len, index + 1, lengthSize) == Ok((run.length, after))
    requires RunOffsetSpec(data, len, after, offsetSize) == Ok((run.offset, next))
    ensures NextRun(data, len, index) == Ok((run, next))
  {
  }

  /** The header byte of a run with fields of `lengthSize` and `offsetSize` bytes. */
  lemma HeaderSizes(header: u8, lengthSize: nat, offsetSize: nat)
    requires 1 <= lengthSize <= 8 && offsetSize <= 8
    requires header as int == 16 * offsetSize + lengthSize
    ensures header != 0 && header % 16 == lengthSize && header / 16 == offsetSize
  {
  }

  /** Reading one encoded run back: its header byte at `index`, then its two fields. */
  lemma NextRunOfEncoded(data: seq<u8>, len: u32, index: nat, f: RunFields)
    requires Encodable(f)
    requires index + |EncodeRun(f)| <= |data| && index + |EncodeRun(f)| < len
    requires data[index] as int == 16 * |f.offsetField| + |f.lengthField|
    requires data[index + 1..index + 1 + |f.lengthField|] == f.lengthField
    requires data[index + 1 + |f.lengthField|..index + |EncodeRun(f)|] == f.offsetField
    ensures data[index] != 0
    ensures NextRun(data, len, index) == Ok((FieldsRun(f), index + |EncodeRun(f)|))
  {
    hide NextRun, RunLengthSpec, RunOffsetSpec, EncodeRun, FieldsRun, Encodable;
    FieldsOfEncoded(data, len, index, f);
    NextRunOfFields(data, len, index, |f.lengthField|, |f.offsetField|, FieldsRun(f),
                    index + 1 + |f.lengthField|, index + |EncodeRun(f)|);
  }

  /** The header and the two fields of an encoded run, each read back. */
  lemma FieldsOfEncoded(data: seq<u8>, len: u32, index: nat, f: RunFields)
    requires Encodable(f)
    requires index + |EncodeRun(f)| <= |data| && index + |EncodeRun(f)| < len
    requires data[index] as int == 16 * |f.offsetField| + |f.lengthField|
    requires data[index + 1..index + 1 + |f.lengthField|] == f.lengthField
    requires data[index + 1 + |f.lengthField|..index + |EncodeRun(f)|] == f.offsetField
    ensures data[index] != 0 && data[index] % 16 == |f.lengthField| && data[index] / 16 == |f.offsetField|
    ensures RunLengthSpec(data, len, index + 1, |f.lengthField|)
         == Ok((FieldsRun(f).length, index + 1 + |f.lengthField|))
    ensures RunOffsetSpec(data, len, index + 1 + |f.lengthField|, |f.offsetField|)
         == Ok((FieldsRun(f).offset, index + |EncodeRun(f)|))
  {
    hide RunLengthSpec, RunOffsetSpec, ReadField, Le64, LengthImage, OffsetImage;
    var lf, of := f.lengthField, f.offsetField;
    var run := FieldsRun(f);
    HeaderSizes(data[index], |lf|, |of|);
    RunLengthOfWritten(data, len, index + 1, lf, run.length);
    RunOffsetOfWritten(data, len, index + 1 + |lf|, of, run.offset);
  }

  /** The three pieces of an encoded run held in `data` at `index`. */
  lemma EncodedPieces(data: seq<u8>, index: nat, f: RunFields)
    requires Encodable(f)
    requires index + |EncodeRun(f)| <= |data| && data[index..index + |EncodeRun(f)|] == EncodeRun(f)
    ensures data[index] as int == 16 * |f.offsetField| + |f.lengthField|
    ensures data[index + 1..index + 1 + |f.lengthField|] == f.lengthField
    ensures data[index + 1 + |f.lengthField|..index + |EncodeRun(f)|] == f.offsetField
  {
    var e := EncodeRun(f);
    SliceOfSpan(data, index, e, 0, 1);
    assert data[index] == data[index..index + 1][0];
    SliceOfSpan(data, index, e, 1, 1 + |f.lengthField|);
    assert e[1..1 + |f.lengthField|] == f.lengthField;
    SliceOfSpan(data, index, e, 1 + |f.lengthField|, |e|);
    assert e[1 + |f.lengthField|..|e|] == f.offsetField;
  }

  /** Decoding an encoded run list, terminated by a zero byte, gives back the runs of the fields,
      provided the declared length reaches past the last run. What follows the zero byte is
      never read. */
  lemma {:induction false} DecodeEncodedRuns(data: seq<u8>, index: nat, fs: seq<RunFields>, len: u32)
    requires AllEncodable(fs)
    requires index + |EncodeRuns(fs)| < |data| && index + |EncodeRuns(fs)| < len
    requires data[index..index + |EncodeRuns(fs)| + 1] == EncodeRuns(fs) + [0]
    ensures DecodeRuns(data, len, index) == Ok(FieldsRuns(fs))
  {
    EncodedListAt(data, index, fs, len);
    DecodeRunsAt(data, index, fs, len);
  }

  /** The runs of `fs` one after the other from `index`, then a zero byte, all before `len`. */
  predicate RunsAt(data: seq<u8>, index: nat, fs: seq<RunFields>, len: u32)
    decreases |fs|
  {
    if |fs| == 0 then index < |data| && index < len && data[index] == 0
    else
      Encodable(fs[0]) && index + |EncodeRun(fs[0])| <= |data| && index + |EncodeRun(fs[0])| < len &&
      data[index..index + |EncodeRun(fs[0])|] == EncodeRun(fs[0]) &&
      RunsAt(data, index + |EncodeRun(fs[0])|, fs[1..], len)
  }

  lemma {:induction false} DecodeRunsAt(data: seq<u8>, index: nat, fs: seq<RunFields>, len: u32)
    requires RunsAt(data, index, fs, len)
    ensures AllEncodable(fs)
    ensures DecodeRuns(data, len, index) == Ok(FieldsRuns(fs))
    decreases |fs|
  {
    if |fs| > 0 {
      hide DecodeRuns, NextRun, FieldsRuns;
      DecodeRunsAt(data, index + |EncodeRun(fs[0])|, fs[1..], len);
      RunsAtHead(data, index, fs, len);
    }
  }

  /** The first step of `DecodeRunsAt`, given what the rest of the list decodes to. */
  lemma RunsAtHead(data: seq<u8>, index: nat, fs: seq<RunFields>, len: u32)
    requires RunsAt(data, index, fs, len) && |fs| > 0
    requires AllEncodable(fs[1..])
    requires DecodeRuns(data, len, index + |EncodeRun(fs[0])|) == Ok(FieldsRuns(fs[1..]))
    ensures AllEncodable(fs)
    ensures DecodeRuns(data, len, index) == Ok(FieldsRuns(fs))
  {
    hide DecodeRuns, NextRun;
    assert AllEncodable(fs) by {
      forall k | 0 <= k < |fs| ensures Encodable(fs[k]) {
        if k > 0 {
          assert fs[k] == fs[1..][k - 1];
        }
      }
    }
    DecodeEncodedHead(data, len, index, fs[0], FieldsRuns(fs[1..]));
  }

  lemma {:induction false} EncodedListAt(data: seq<u8>, index: nat, fs: seq<RunFields>, len: u32)
    requires AllEncodable(fs)
    requires index + |EncodeRuns(fs)| < |data| && index + |EncodeRuns(fs)| < len
    requires data[index..index + |EncodeRuns(fs)| + 1] == EncodeRuns(fs) + [0]
    ensures RunsAt(data, index, fs, len)
    decreases |fs|
  {
    if |fs| == 0 {
      assert data[index] == data[index..index + 1][0];
    } else {
      SplitEncoded(data, index, fs);
      EncodedListAt(data, index + |EncodeRun(fs[0])|, fs[1..], len);
    }
  }

  /** An encoded run at `index` followed by a list that decodes. */
  lemma DecodeEncodedHead(data: seq<u8>, len: u32, index: nat, f: RunFields, rest: seq<Run>)
    requires Encodable(f)
    requires index + |EncodeRun(f)| <= |data| && index + |EncodeRun(f)| < len
    requires data[index..index + |EncodeRun(f)|] == EncodeRun(f)
    requires DecodeRuns(data, len, index + |EncodeRun(f)|) == Ok(rest)
    ensures DecodeRuns(data, len, index) == Ok([FieldsRun(f)] + rest)
  {
    hide DecodeRuns, NextRun, FieldsRun;
    EncodedPieces(data, index, f);
    NextRunOfEncoded(data, len, index, f);
    DecodeRunsCons(data, len, index, FieldsRun(f), index + |EncodeRun(f)|, rest);
  }

  /** An encoded run list held at `index` is its first run followed by the rest of the list. */
  lemma SplitEncoded(data: seq<u8>, index: nat, fs: seq<RunFields>)
    requires AllEncodable(fs) && |fs| > 0
    requires index + |EncodeRuns(fs)| < |data|
    requires data[index..index + |EncodeRuns(fs)| + 1] == EncodeRuns(fs) + [0]
    ensures AllEncodable(fs[1..])
    ensures |EncodeRuns(fs)| == |EncodeRun(fs[0])| + |EncodeRuns(fs[1..])|
    ensures data[index..index + |EncodeRun(fs[0])|] == EncodeRun(fs[0])
    ensures data[index + |EncodeRun(fs[0])|..index + |EncodeRun(fs[0])| + |EncodeRuns(fs[1..])| + 1]
         == EncodeRuns(fs[1..]) + [0]
  {
    var e := EncodeRun(fs[0]);
    var rest := EncodeRuns(fs[1..]);
    var all := EncodeRuns(fs) + [0];
    assert AllEncodable(fs[1..]) by {
      forall k | 0 <= k < |fs[1..]| ensures Encodable(fs[1..][k]) {
        assert fs[1..][k] == fs[k + 1];
      }
    }
    assert all == e + (rest + [0]);
    SliceOfSpan(data, index, all, 0, |e|);
    assert all[..|e|] == e;
    SliceOfSpan(data, index, all, |e|, |all|);
    assert all[|e|..] == rest + [0];
  }

  /** `DecodeRuns` at a run that is read, followed by a list that is read. */
  lemma DecodeRunsCons(data: seq<u8>, len: u32, index: nat, run: Run, next: nat, rest: seq<Run>)
    requires index < |data| && data[index] != 0
    requires NextRun(data, len, index) == Ok((run, next))
    requires DecodeRuns(data, len, next) == Ok(rest)
    ensures DecodeRuns(data, len, index) == Ok([run] + rest)
  {
  }

  /** The run list as the reader would store it, at the start of the run data. */
  lemma DecodeEncodedRunList(fs: seq<RunFields>, tail: seq<u8>, len: u32)
    requires AllEncodable(fs)
    requires |EncodeRuns(fs)| < len
    ensures DecodeRuns(EncodeRuns(fs) + [0] + tail, len, 0) == Ok(FieldsRuns(fs))
  {
    var data := EncodeRuns(fs) + [0] + tail;
    assert data[..|EncodeRuns(fs)| + 1] == EncodeRuns(fs) + [0];
    DecodeEncodedRuns(data, 0, fs, len);
  }
}
