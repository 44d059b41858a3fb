/** The plan of the scan of the master file table: which bytes of the volume fill the $MFT's
    bitmap, which records the bitmap marks as in use, how many records there are, and where
    each chunk of records is read from. Every quantity is a `ulong` of the source, so all the
    arithmetic wraps modulo 2^64. */
module Scan {
  import opened Common
  import opened Structures
  import opened Geometry

  /** `x * BytesPerSector * SectorsPerCluster` in `ulong` arithmetic: the bytes of `x` clusters. */
  function InBytes(x: u64, bytesPerSector: u16, sectorsPerCluster: u8): u64 {
    Mul64(Mul64(x, bytesPerSector), sectorsPerCluster)
  }

  // ---------------------------------------------------------------------------------------
  // The bitmap.

  /** The first loop of `ProcessBitmapData`: `total` plus the bytes of every real fragment,
      each fragment spanning from the previous one's `NextVcn` (first `vcn`) to its own. */
  function BitmapSize(fragments: seq<Fragment>, vcn: u64, total: u64, bytesPerSector: u16, sectorsPerCluster: u8): u64
    decreases |fragments|
  {
    if |fragments| == 0 then total
    else
      var f := fragments[0];
      var total' := if f.lcn != VIRTUALFRAGMENT
                    then Add64(total, InBytes(Sub64(f.nextVcn, vcn), bytesPerSector, sectorsPerCluster))
                    else total;
      BitmapSize(fragments[1..], f.nextVcn, total', bytesPerSector, sectorsPerCluster)
  }

  /** One `ReadFile` call: `length` bytes of the volume from `position` to `destination`. */
  datatype Read = Read(destination: u64, length: u64, position: u64)

  /** The reads of the second loop of `ProcessBitmapData`, one per real fragment: its bytes go
      to the offset of the real clusters counted so far (`realVcn`). */
  function BitmapReads(fragments: seq<Fragment>, vcn: u64, realVcn: u64, bytesPerSector: u16, sectorsPerCluster: u8)
    : seq<Read>
    decreases |fragments|
  {
    if |fragments| == 0 then []
    else
      var f := fragments[0];
      if f.lcn != VIRTUALFRAGMENT then
        [Read(InBytes(realVcn, bytesPerSector, sectorsPerCluster),
              InBytes(Sub64(f.nextVcn, vcn), bytesPerSector, sectorsPerCluster),
              InBytes(f.lcn, bytesPerSector, sectorsPerCluster))]
        + BitmapReads(fragments[1..], f.nextVcn, Sub64(Add64(realVcn, f.nextVcn), vcn), bytesPerSector, sectorsPerCluster)
      else
        BitmapReads(fragments[1..], f.nextVcn, realVcn, bytesPerSector, sectorsPerCluster)
  }

  /** The reads fill the span from `from` to `to` back to back, each one starting where the
      previous one ended (modulo 2^64). */
  predicate Tiles(plan: seq<Read>, from: u64, to: u64)
    decreases |plan|
  {
    if |plan| == 0 then from == to
    else plan[0].destination == from && Tiles(plan[1..], Add64(from, plan[0].length), to)
  }

  lemma WrapOfWrapMul(x: int, y: int)
    ensures Wrap64(Wrap64(x) * y) == Wrap64(x * y)
  {
    var q := x / TWO_64;
    var w := Wrap64(x);
    assert x == q * TWO_64 + w;
    assert x * y == (q * y) * TWO_64 + w * y by {
      assert x * y == (q * TWO_64 + w) * y;
    }
    ShiftMod(q * y, w * y);
  }

  lemma ShiftMod(k: int, z: int)
    ensures (k * TWO_64 + z) % TWO_64 == z % TWO_64
  {
  }

  /** The bytes of `x` clusters are `x` times the cluster size, modulo 2^64. */
  lemma InBytesIsWrap(x: u64, bps: u16, spc: u8)
    ensures InBytes(x, bps, spc) == Wrap64(x * (bps * spc))
  {
    WrapOfWrapMul(x * bps, spc);
    assert x * bps * spc == x * (bps * spc);
  }

  lemma SubIsWrap(a: u64, b: u64)
    ensures Sub64(a, b) == Wrap64(a - b)
  {
  }

  /** `a + b - c` in `ulong` arithmetic. */
  lemma AddSubIsWrap(a: u64, b: u64, c: u64)
    ensures Sub64(Add64(a, b), c) == Wrap64(a + (b - c))
  {
    Add64IsWrap(a, b);
    WrapAdd(a + b, -(c as int));
  }

  /** Counting clusters and counting bytes agree: the bytes of the real clusters after one more
      fragment are the bytes so far plus the fragment's bytes. */
  lemma InBytesAdds(realVcn: u64, nextVcn: u64, vcn: u64, bps: u16, spc: u8)
    ensures InBytes(Sub64(Add64(realVcn, nextVcn), vcn), bps, spc)
            == Add64(InBytes(realVcn, bps, spc), InBytes(Sub64(nextVcn, vcn), bps, spc))
  {
    hide Wrap64, InBytes, Add64, Sub64;
    var rb := realVcn * (bps * spc);
    var db := (nextVcn - vcn) * (bps * spc);
    InBytesAfter(realVcn, nextVcn, vcn, bps, spc);
    InBytesIsWrap(realVcn, bps, spc);
    InBytesOfDifference(nextVcn, vcn, bps, spc);
    Add64IsWrap(InBytes(realVcn, bps, spc), InBytes(Sub64(nextVcn, vcn), bps, spc));
    WrapAdd(rb, Wrap64(db));
    WrapAdd(db, rb);
  }

  lemma InBytesAfter(realVcn: u64, nextVcn: u64, vcn: u64, bps: u16, spc: u8)
    ensures InBytes(Sub64(Add64(realVcn, nextVcn), vcn), bps, spc)
            == Wrap64(realVcn * (bps * spc) + (nextVcn - vcn) * (bps * spc))
  {
    hide Wrap64, InBytes, Add64, Sub64;
    var d: int := nextVcn - vcn;
    var cs: int := bps * spc;
    AddSubIsWrap(realVcn, nextVcn, vcn);
    InBytesIsWrap(Sub64(Add64(realVcn, nextVcn), vcn), bps, spc);
    WrapOfWrapMul(realVcn + d, cs);
    ScaleDistributes(realVcn, d, cs);
  }

  /** Scaling a sum of cluster counts by the cluster size. */
  lemma ScaleDistributes(a: int, d: int, c: int)
    ensures (a + d) * c == a * c + d * c
  {
  }

  lemma InBytesOfDifference(nextVcn: u64, vcn: u64, bps: u16, spc: u8)
    ensures InBytes(Sub64(nextVcn, vcn), bps, spc) == Wrap64((nextVcn - vcn) * (bps * spc))
  {
    hide Wrap64, InBytes;
    InBytesIsWrap(Sub64(nextVcn, vcn), bps, spc);
    SubIsWrap(nextVcn, vcn);
    WrapOfWrapMul(nextVcn - vcn, bps * spc);
  }

  /** The reads of the second loop tile the bitmap buffer that the first loop sized, from the
      bytes of the real clusters already counted on. */
  lemma {:induction false} BitmapReadsTileFrom(fragments: seq<Fragment>, vcn: u64, realVcn: u64, bps: u16, spc: u8)
    ensures Tiles(BitmapReads(fragments, vcn, realVcn, bps, spc), InBytes(realVcn, bps, spc),
                  BitmapSize(fragments, vcn, InBytes(realVcn, bps, spc), bps, spc))
    decreases |fragments|
  {
    if |fragments| > 0 {
      var f := fragments[0];
      if f.lcn != VIRTUALFRAGMENT {
        var realVcn' := Sub64(Add64(realVcn, f.nextVcn), vcn);
        InBytesAdds(realVcn, f.nextVcn, vcn, bps, spc);
        BitmapReadsTileFrom(fragments[1..], f.nextVcn, realVcn', bps, spc);
      } else {
        BitmapReadsTileFrom(fragments[1..], f.nextVcn, realVcn, bps, spc);
      }
    }
  }

  /** The reads of `ProcessBitmapData` fill its buffer from offset 0 to its size, back to back. */
  lemma BitmapReadsTile(fragments: seq<Fragment>, bps: u16, spc: u8)
    ensures Tiles(BitmapReads(fragments, 0, 0, bps, spc), 0, BitmapSize(fragments, 0, 0, bps, spc))
  {
    BitmapReadsTileFrom(fragments, 0, 0, bps, spc);
  }

  /** One `ReadFile` into `buffer`, the read length cast to `uint`: a destination past the end
      of the buffer overruns it, a position past the end of the volume is a failed read. */
  function Perform(disk: seq<u8>, buffer: seq<u8>, r: Read): (b: Result<seq<u8>>)
    ensures b.Ok? ==> |b.value| == |buffer|
  {
    var n := Wrap32(r.length);
    if r.destination + n > |buffer| then Err(Overrun)
    else if r.position + n > |disk| then Err(IoError)
    else Ok(buffer[..r.destination] + disk[r.position..r.position + n] + buffer[r.destination + n..])
  }

  /** The reads one after the other, stopping at the first that fails. */
  function PerformAll(disk: seq<u8>, buffer: seq<u8>, plan: seq<Read>): (o: Result<seq<u8>>)
    ensures o.Ok? ==> |o.value| == |buffer|
    decreases |plan|
  {
    if |plan| == 0 then Ok(buffer)
    else
      match Perform(disk, buffer, plan[0])
      case Err(e) => Err(e)
      case Ok(next) => PerformAll(disk, next, plan[1..])
  }

  /** A new zero-filled buffer of `n` bytes. */
  function Zeros(n: nat): (z: seq<u8>)
    ensures |z| == n && forall i :: 0 <= i < n ==> z[i] == 0
  {
    seq(n, _ => 0)
  }

  /** The bitmap `ProcessBitmapData` reads from the fragments of the `$BITMAP` stream: a zeroed
      buffer of the size the first loop computes, filled by the reads of the second. */
  function Bitmap(disk: seq<u8>, fragments: seq<Fragment>, bps: u16, spc: u8): Result<seq<u8>> {
    PerformAll(disk, Zeros(BitmapSize(fragments, 0, 0, bps, spc)), BitmapReads(fragments, 0, 0, bps, spc))
  }

  lemma BitmapSizeStep(fragments: seq<Fragment>, k: nat, vcn: u64, total: u64, bps: u16, spc: u8)
    requires k < |fragments|
    ensures BitmapSize(fragments[k..], vcn, total, bps, spc)
            == BitmapSize(fragments[k + 1..], fragments[k].nextVcn,
                          if fragments[k].lcn != VIRTUALFRAGMENT
                          then Add64(total, InBytes(Sub64(fragments[k].nextVcn, vcn), bps, spc)) else total,
                          bps, spc)
  {
    assert fragments[k..][1..] == fragments[k + 1..];
  }

  lemma BitmapReadsStep(fragments: seq<Fragment>, k: nat, vcn: u64, realVcn: u64, bps: u16, spc: u8)
    requires k < |fragments|
    ensures var f := fragments[k];
            BitmapReads(fragments[k..], vcn, realVcn, bps, spc)
            == if f.lcn != VIRTUALFRAGMENT
               then [Read(InBytes(realVcn, bps, spc), InBytes(Sub64(f.nextVcn, vcn), bps, spc), InBytes(f.lcn, bps, spc))]
                    + BitmapReads(fragments[k + 1..], f.nextVcn, Sub64(Add64(realVcn, f.nextVcn), vcn), bps, spc)
               else BitmapReads(fragments[k + 1..], f.nextVcn, realVcn, bps, spc)
  {
    assert fragments[k..][1..] == fragments[k + 1..];
  }

  lemma PerformAllFirst(disk: seq<u8>, buffer: seq<u8>, r: Read, rest: seq<Read>)
    ensures Perform(disk, buffer, r).Err? ==> PerformAll(disk, buffer, [r] + rest) == Err(Perform(disk, buffer, r).error)
    ensures Perform(disk, buffer, r).Ok? ==>
              PerformAll(disk, buffer, [r] + rest) == PerformAll(disk, Perform(disk, buffer, r).value, rest)
  {
    assert ([r] + rest)[1..] == rest;
  }

  /** A read that succeeds leaves the destination holding the bytes at the position, and every
      other byte of the buffer as it was. */
  lemma PerformCopies(disk: seq<u8>, buffer: seq<u8>, r: Read)
    requires Perform(disk, buffer, r).Ok?
    ensures var b := Perform(disk, buffer, r).value; var n := Wrap32(r.length);
            b[r.destination..r.destination + n] == disk[r.position..r.position + n]
            && (forall k :: 0 <= k < |buffer| && !(r.destination <= k < r.destination + n) ==> b[k] == buffer[k])
  {
  }

  // ---------------------------------------------------------------------------------------
  // The records in use.

  /** `BitmapMasks`: bit `i % 8` of a byte, least significant first. */
  const BitmapMasks: seq<u8> := [1, 2, 4, 8, 16, 32, 64, 128]

  /** The test of the scan loop, `bitmap[i >> 3] & BitmapMasks[i % 8]`: record `i` is in use
      when bit `i % 8` of byte `i / 8` of the bitmap is set. */
  predicate InUse(bitmap: seq<u8>, i: nat)
    requires i / 8 < |bitmap|
  {
    (bitmap[i / 8] / BitmapMasks[i % 8]) % 2 == 1
  }

  /** `maxInode`: the records the bitmap has bits for, `(uint)length * 8` in `uint` arithmetic,
      but no more than the `$DATA` stream of the $MFT holds. */
  function MaxInode(bitmapLength: nat, dataSize: u64, bytesPerMftRecord: u64): (r: u32)
    requires bytesPerMftRecord > 0
    ensures r == Wrap32(Wrap32(bitmapLength) * 8) || r == Wrap32(dataSize / bytesPerMftRecord)
    ensures r <= Wrap32(Wrap32(bitmapLength) * 8) && r <= Wrap32(dataSize / bytesPerMftRecord)
  {
    var bits := Wrap32(Wrap32(bitmapLength) * 8);
    var records := Wrap32(dataSize / bytesPerMftRecord);
    if bits > records then records else bits
  }

  /** Every record below `maxInode` has its bit in the bitmap, whatever the wrap-around. */
  lemma MaxInodeHasBits(bitmapLength: nat, dataSize: u64, bytesPerMftRecord: u64, i: nat)
    requires bytesPerMftRecord > 0 && i < MaxInode(bitmapLength, dataSize, bytesPerMftRecord)
    ensures i / 8 < bitmapLength
  {
    assert Wrap32(bitmapLength) <= bitmapLength;
    assert Wrap32(Wrap32(bitmapLength) * 8) <= Wrap32(bitmapLength) * 8;
  }

  // ---------------------------------------------------------------------------------------
  // The chunks of records.

  /** Where the walk over the fragments of the $MFT's `$DATA` stream stands: the fragment it
      looks at, the `NextVcn` of the fragment before, and the real (non-sparse) clusters of
      the fragments passed. */
  datatype Cursor = Cursor(index: nat, vcn: u64, realVcn: u64)

  /** The cursor once fragment `f` is passed: its real clusters are counted unless it is sparse. */
  function Passed(c: Cursor, f: Fragment): Cursor {
    Cursor(c.index + 1, f.nextVcn, if f.lcn != VIRTUALFRAGMENT then Sub64(Add64(c.realVcn, f.nextVcn), c.vcn) else c.realVcn)
  }

  /** `u1`: the record number, counted in real clusters, at which fragment `f` ends. */
  function EndInode(c: Cursor, f: Fragment, bps: u16, spc: u8, bytesPerMftRecord: u64): u64
    requires bytesPerMftRecord > 0
  {
    InBytes(Sub64(Add64(c.realVcn, f.nextVcn), c.vcn), bps, spc) / bytesPerMftRecord
  }

  /** The cursor after the first `i` fragments are passed one by one from the start. */
  function Accounted(fragments: seq<Fragment>, i: nat): (c: Cursor)
    requires i <= |fragments|
    ensures c.index == i
  {
    if i == 0 then Cursor(0, 0, 0) else Passed(Accounted(fragments, i - 1), fragments[i - 1])
  }

  /** The do-while of `ReadNextChunk` as written: its condition tests `fragment`, the fragment
      the loop started on, rather than the fragment it moved to. From a sparse fragment it
      passes the same fragment again and again up to the end of the list; from a real one it
      passes that one only, even when the next is sparse. */
  function SkipAsWritten(fragments: seq<Fragment>, f: Fragment, c: Cursor): (c': Cursor)
    requires c.index < |fragments|
    ensures c.index < c'.index <= |fragments|
    decreases |fragments| - c.index
  {
    var next := Passed(c, f);
    if next.index >= |fragments| then next
    else if f.lcn == VIRTUALFRAGMENT then SkipAsWritten(fragments, f, next)
    else next
  }

  /** The while loop of `ReadNextChunk` as written: the cursor and `u1` where it stops, either
      at the first fragment that ends past `nodeIndex` or at the end of the list. */
  function FindAsWritten(fragments: seq<Fragment>, nodeIndex: u32, c: Cursor, u1: u64,
                         bps: u16, spc: u8, bytesPerMftRecord: u64): (Cursor, u64)
    requires bytesPerMftRecord > 0
    decreases |fragments| - c.index
  {
    if c.index >= |fragments| then (c, u1)
    else
      var u := EndInode(c, fragments[c.index], bps, spc, bytesPerMftRecord);
      if u > nodeIndex then (c, u)
      else FindAsWritten(fragments, nodeIndex, SkipAsWritten(fragments, fragments[c.index], c), u, bps, spc, bytesPerMftRecord)
  }

  /** The walk as written never moves back, and when it finds a fragment, that fragment ends
      past `nodeIndex` and `u1` is its end, counted from the cursor the walk stops on. */
  lemma {:induction false} FindAsWrittenFound(fragments: seq<Fragment>, nodeIndex: u32, c: Cursor, u1: u64,
                                              bps: u16, spc: u8, bytesPerMftRecord: u64)
    requires bytesPerMftRecord > 0
    ensures var (c', u) := FindAsWritten(fragments, nodeIndex, c, u1, bps, spc, bytesPerMftRecord);
            c.index <= c'.index
            && (c'.index < |fragments| ==>
                  u > nodeIndex && u == EndInode(c', fragments[c'.index], bps, spc, bytesPerMftRecord))
            && (c.index <= |fragments| ==> c'.index <= |fragments|)
    decreases |fragments| - c.index
  {
    if c.index < |fragments| {
      var u := EndInode(c, fragments[c.index], bps, spc, bytesPerMftRecord);
      if u <= nodeIndex {
        FindAsWrittenFound(fragments, nodeIndex, SkipAsWritten(fragments, fragments[c.index], c), u,
                           bps, spc, bytesPerMftRecord);
      }
    }
  }

  /** The evidently intended do-while: pass the current fragment, then every sparse fragment
      that follows it. */
  function SkipIntended(fragments: seq<Fragment>, c: Cursor): (c': Cursor)
    requires c.index < |fragments|
    ensures c.index < c'.index <= |fragments|
    decreases |fragments| - c.index
  {
    var next := Passed(c, fragments[c.index]);
    if next.index >= |fragments| || fragments[next.index].lcn != VIRTUALFRAGMENT then next
    else SkipIntended(fragments, next)
  }

  /** The while loop with the intended do-while. */
  function FindIntended(fragments: seq<Fragment>, nodeIndex: u32, c: Cursor, u1: u64,
                        bps: u16, spc: u8, bytesPerMftRecord: u64): (Cursor, u64)
    requires bytesPerMftRecord > 0
    decreases |fragments| - c.index
  {
    if c.index >= |fragments| then (c, u1)
    else
      var u := EndInode(c, fragments[c.index], bps, spc, bytesPerMftRecord);
      if u > nodeIndex then (c, u)
      else FindIntended(fragments, nodeIndex, SkipIntended(fragments, c), u, bps, spc, bytesPerMftRecord)
  }

  /** The intended skip keeps the cursor's count of the fragments it passed, and stops on a real
      fragment or at the end of the list. */
  lemma {:induction false} SkipIntendedAccounts(fragments: seq<Fragment>, i: nat)
    requires i < |fragments|
    ensures var c := SkipIntended(fragments, Accounted(fragments, i));
            c == Accounted(fragments, c.index)
            && (c.index < |fragments| ==> fragments[c.index].lcn != VIRTUALFRAGMENT)
            && forall k :: i < k < c.index ==> fragments[k].lcn == VIRTUALFRAGMENT
    decreases |fragments| - i
  {
    var next := Passed(Accounted(fragments, i), fragments[i]);
    assert next == Accounted(fragments, i + 1);
    if !(next.index >= |fragments| || fragments[next.index].lcn != VIRTUALFRAGMENT) {
      SkipIntendedAccounts(fragments, i + 1);
    }
  }

  /** The intended walk, from a cursor that counts the fragments before it, stops at a cursor
      that counts the fragments before it too. When it finds a fragment, that fragment ends past
      `nodeIndex`, `u1` is its end, and it is real unless the walk did not move. */
  lemma {:induction false} FindIntendedAccounts(fragments: seq<Fragment>, nodeIndex: u32, i: nat, u1: u64,
                                                bps: u16, spc: u8, bytesPerMftRecord: u64)
    requires i <= |fragments| && bytesPerMftRecord > 0
    ensures var (c, u) := FindIntended(fragments, nodeIndex, Accounted(fragments, i), u1, bps, spc, bytesPerMftRecord);
            i <= c.index <= |fragments| && c == Accounted(fragments, c.index)
            && (c.index < |fragments| ==>
                  u > nodeIndex && u == EndInode(c, fragments[c.index], bps, spc, bytesPerMftRecord)
                  && (c.index == i || fragments[c.index].lcn != VIRTUALFRAGMENT))
    decreases |fragments| - i
  {
    if i < |fragments| {
      var u := EndInode(Accounted(fragments, i), fragments[i], bps, spc, bytesPerMftRecord);
      if u <= nodeIndex {
        SkipIntendedAccounts(fragments, i);
        var c := SkipIntended(fragments, Accounted(fragments, i));
        FindIntendedAccounts(fragments, nodeIndex, c.index, u, bps, spc, bytesPerMftRecord);
      }
    }
  }

  /** Without sparse fragments the loop as written and the intended one are the same walk. */
  lemma {:induction false} AsWrittenWithoutSparse(fragments: seq<Fragment>, nodeIndex: u32, c: Cursor, u1: u64,
                                                  bps: u16, spc: u8, bytesPerMftRecord: u64)
    requires bytesPerMftRecord > 0
    requires forall k :: 0 <= k < |fragments| ==> fragments[k].lcn != VIRTUALFRAGMENT
    ensures FindAsWritten(fragments, nodeIndex, c, u1, bps, spc, bytesPerMftRecord)
            == FindIntended(fragments, nodeIndex, c, u1, bps, spc, bytesPerMftRecord)
    decreases |fragments| - c.index
  {
    if c.index < |fragments| {
      var u := EndInode(c, fragments[c.index], bps, spc, bytesPerMftRecord);
      if u <= nodeIndex {
        assert SkipAsWritten(fragments, fragments[c.index], c) == SkipIntended(fragments, c);
        AsWrittenWithoutSparse(fragments, nodeIndex, SkipIntended(fragments, c), u, bps, spc, bytesPerMftRecord);
      }
    }
  }

  /** A real fragment passed from a cursor whose real clusters are all its clusters leaves a
      cursor of the same kind, at the fragment's `NextVcn`. */
  lemma PassedReal(c: Cursor, f: Fragment)
    requires c.realVcn == c.vcn && f.lcn != VIRTUALFRAGMENT
    ensures Passed(c, f) == Cursor(c.index + 1, f.nextVcn, f.nextVcn)
  {
    AddSubIsWrap(c.realVcn, f.nextVcn, c.vcn);
  }

  /** From such a cursor, the end of a fragment depends on the fragment alone. */
  lemma EndInodeFromEven(c: Cursor, f: Fragment, bps: u16, spc: u8, bytesPerMftRecord: u64)
    requires bytesPerMftRecord > 0 && c.realVcn == c.vcn
    ensures EndInode(c, f, bps, spc, bytesPerMftRecord) == InBytes(f.nextVcn, bps, spc) / bytesPerMftRecord
  {
    AddSubIsWrap(c.realVcn, f.nextVcn, c.vcn);
  }

  /** Without sparse fragments, every cluster passed is a real one. */
  lemma {:induction false} AccountedWithoutSparse(fragments: seq<Fragment>, i: nat)
    requires i <= |fragments|
    requires forall k :: 0 <= k < |fragments| ==> fragments[k].lcn != VIRTUALFRAGMENT
    ensures Accounted(fragments, i).realVcn == Accounted(fragments, i).vcn
  {
    if i > 0 {
      AccountedWithoutSparse(fragments, i - 1);
      PassedReal(Accounted(fragments, i - 1), fragments[i - 1]);
    }
  }

  /** Without sparse fragments, a walk that starts before fragment `k` on a cursor whose real
      clusters are all its clusters, and passes fragments that all end at or before `nodeIndex`,
      reaches fragment `k` on the cursor that counts the fragments before it. */
  lemma {:induction false} FindIntendedSkipsEnded(fragments: seq<Fragment>, nodeIndex: u32, c: Cursor, k: nat, u1: u64,
                                                  bps: u16, spc: u8, bytesPerMftRecord: u64)
    requires bytesPerMftRecord > 0
    requires forall i :: 0 <= i < |fragments| ==> fragments[i].lcn != VIRTUALFRAGMENT
    requires c.realVcn == c.vcn && c.index < k <= |fragments|
    requires forall i :: c.index <= i < k ==> EndInode(Accounted(fragments, i), fragments[i], bps, spc, bytesPerMftRecord) <= nodeIndex
    ensures FindIntended(fragments, nodeIndex, c, u1, bps, spc, bytesPerMftRecord)
            == FindIntended(fragments, nodeIndex, Accounted(fragments, k),
                            EndInode(Accounted(fragments, k - 1), fragments[k - 1], bps, spc, bytesPerMftRecord),
                            bps, spc, bytesPerMftRecord)
    decreases k - c.index
  {
    var j := c.index;
    var u := EndInode(c, fragments[j], bps, spc, bytesPerMftRecord);
    AccountedWithoutSparse(fragments, j);
    EndInodeFromEven(c, fragments[j], bps, spc, bytesPerMftRecord);
    EndInodeFromEven(Accounted(fragments, j), fragments[j], bps, spc, bytesPerMftRecord);
    PassedReal(c, fragments[j]);
    var next := Passed(c, fragments[j]);
    assert SkipIntended(fragments, c) == next;
    if j + 1 == k {
      PassedReal(Accounted(fragments, j), fragments[j]);
    } else {
      FindIntendedSkipsEnded(fragments, nodeIndex, next, k, u, bps, spc, bytesPerMftRecord);
    }
  }

  /** Where the walk stops does not depend on the `u1` it starts with, and neither does the `u1`
      it returns when it finds a fragment. */
  lemma {:induction false} FindIntendedIgnoresStart(fragments: seq<Fragment>, nodeIndex: u32, c: Cursor, u1: u64, u2: u64,
                                                    bps: u16, spc: u8, bytesPerMftRecord: u64)
    requires bytesPerMftRecord > 0
    ensures var a := FindIntended(fragments, nodeIndex, c, u1, bps, spc, bytesPerMftRecord);
            var b := FindIntended(fragments, nodeIndex, c, u2, bps, spc, bytesPerMftRecord);
            a.0 == b.0 && (a.0.index < |fragments| ==> a.1 == b.1)
    decreases |fragments| - c.index
  {
    if c.index < |fragments| {
      var u := EndInode(c, fragments[c.index], bps, spc, bytesPerMftRecord);
      if u <= nodeIndex {
        FindIntendedIgnoresStart(fragments, nodeIndex, SkipIntended(fragments, c), u, u, bps, spc, bytesPerMftRecord);
      }
    }
  }

  /** Without sparse fragments, every fragment the intended walk passes ends at or before
      `nodeIndex`. */
  lemma {:induction false} FindIntendedPassesEnded(fragments: seq<Fragment>, nodeIndex: u32, k: nat, u1: u64,
                                                   bps: u16, spc: u8, bytesPerMftRecord: u64)
    requires bytesPerMftRecord > 0 && k <= |fragments|
    requires forall i :: 0 <= i < |fragments| ==> fragments[i].lcn != VIRTUALFRAGMENT
    ensures var c := FindIntended(fragments, nodeIndex, Accounted(fragments, k), u1, bps, spc, bytesPerMftRecord).0;
            k <= c.index <= |fragments|
            && forall i :: k <= i < c.index ==> EndInode(Accounted(fragments, i), fragments[i], bps, spc, bytesPerMftRecord) <= nodeIndex
    decreases |fragments| - k
  {
    hide FindIntended, EndInode, Accounted, SkipIntended, Passed;
    var a := Accounted(fragments, k);
    FindIntendedAccounts(fragments, nodeIndex, k, u1, bps, spc, bytesPerMftRecord);
    FindIntendedStep(fragments, nodeIndex, a, u1, bps, spc, bytesPerMftRecord);
    if k < |fragments| {
      var u := EndInode(a, fragments[k], bps, spc, bytesPerMftRecord);
      if u <= nodeIndex {
        SkipIntendedWithoutSparse(fragments, k);
        FindIntendedPassesEnded(fragments, nodeIndex, k + 1, u, bps, spc, bytesPerMftRecord);
        var c := FindIntended(fragments, nodeIndex, Accounted(fragments, k + 1), u, bps, spc, bytesPerMftRecord).0;
        assert FindIntended(fragments, nodeIndex, a, u1, bps, spc, bytesPerMftRecord).0 == c;
        forall i | k <= i < c.index
          ensures EndInode(Accounted(fragments, i), fragments[i], bps, spc, bytesPerMftRecord) <= nodeIndex
        {
          if i > k {
            assert k + 1 <= i < c.index;
          }
        }
      }
    }
  }

  /** Without sparse fragments, the intended skip passes one fragment. */
  lemma SkipIntendedWithoutSparse(fragments: seq<Fragment>, k: nat)
    requires k < |fragments|
    requires forall i :: 0 <= i < |fragments| ==> fragments[i].lcn != VIRTUALFRAGMENT
    ensures SkipIntended(fragments, Accounted(fragments, k)) == Accounted(fragments, k + 1)
  {
  }

  /** One turn of the intended walk. */
  lemma FindIntendedStep(fragments: seq<Fragment>, nodeIndex: u32, c: Cursor, u1: u64,
                         bps: u16, spc: u8, bytesPerMftRecord: u64)
    requires bytesPerMftRecord > 0
    ensures c.index >= |fragments| ==> FindIntended(fragments, nodeIndex, c, u1, bps, spc, bytesPerMftRecord) == (c, u1)
    ensures c.index < |fragments| && EndInode(c, fragments[c.index], bps, spc, bytesPerMftRecord) > nodeIndex ==>
              FindIntended(fragments, nodeIndex, c, u1, bps, spc, bytesPerMftRecord)
              == (c, EndInode(c, fragments[c.index], bps, spc, bytesPerMftRecord))
    ensures c.index < |fragments| && EndInode(c, fragments[c.index], bps, spc, bytesPerMftRecord) <= nodeIndex ==>
              FindIntended(fragments, nodeIndex, c, u1, bps, spc, bytesPerMftRecord)
              == FindIntended(fragments, nodeIndex, SkipIntended(fragments, c),
                              EndInode(c, fragments[c.index], bps, spc, bytesPerMftRecord), bps, spc, bytesPerMftRecord)
  {
  }

  /** Without sparse fragments, the restart of the walk as written is harmless for a scan whose
      records only grow. Say the walk for record `m` continued from the fragment `k` that the walk
      before found, every fragment before it ending at or before `m`; for a later record `n`, the
      walk as written, restarting at fragment 0 with the `Vcn` and `RealVcn` that walk left, stops
      where continuing from the fragment found for `m` would, with the same `u1`. The fragments
      before the one found for `m` end at or before `n` in turn, so the same holds for the next
      chunk. */
  lemma RestartWithoutSparse(fragments: seq<Fragment>, m: u32, n: u32, k: nat,
                             bps: u16, spc: u8, bytesPerMftRecord: u64)
    requires bytesPerMftRecord > 0 && k <= |fragments| && m <= n
    requires forall i :: 0 <= i < |fragments| ==> fragments[i].lcn != VIRTUALFRAGMENT
    requires forall i :: 0 <= i < k ==> EndInode(Accounted(fragments, i), fragments[i], bps, spc, bytesPerMftRecord) <= m
    ensures var c := FindIntended(fragments, m, Accounted(fragments, k), 0, bps, spc, bytesPerMftRecord).0;
            c.index <= |fragments| && c == Accounted(fragments, c.index)
            && (forall i :: 0 <= i < c.index ==> EndInode(Accounted(fragments, i), fragments[i], bps, spc, bytesPerMftRecord) <= n)
            && var restarted := FindAsWritten(fragments, n, Cursor(0, c.vcn, c.realVcn), 0, bps, spc, bytesPerMftRecord);
               var continued := FindIntended(fragments, n, c, 0, bps, spc, bytesPerMftRecord);
               restarted.0 == continued.0 && (continued.0.index < |fragments| ==> restarted.1 == continued.1)
  {
    hide FindIntended, FindAsWritten, EndInode, Accounted;
    var c := FindIntended(fragments, m, Accounted(fragments, k), 0, bps, spc, bytesPerMftRecord).0;
    FindIntendedAccounts(fragments, m, k, 0, bps, spc, bytesPerMftRecord);
    FindIntendedPassesEnded(fragments, m, k, 0, bps, spc, bytesPerMftRecord);
    assert c == Accounted(fragments, c.index) && k <= c.index <= |fragments|;
    assert forall i :: 0 <= i < c.index ==> EndInode(Accounted(fragments, i), fragments[i], bps, spc, bytesPerMftRecord) <= n by {
      forall i | 0 <= i < c.index
        ensures EndInode(Accounted(fragments, i), fragments[i], bps, spc, bytesPerMftRecord) <= n
      {
        if i >= k {
          assert k <= i < c.index;
        }
      }
    }
    RestartFromAccounted(fragments, n, c.index, bps, spc, bytesPerMftRecord);
  }

  /** The restart for record `n` from the cursor that counts the fragments before `k`, when
      all of them end at or before `n`. */
  lemma RestartFromAccounted(fragments: seq<Fragment>, n: u32, k: nat, bps: u16, spc: u8, bytesPerMftRecord: u64)
    requires bytesPerMftRecord > 0 && k <= |fragments|
    requires forall i :: 0 <= i < |fragments| ==> fragments[i].lcn != VIRTUALFRAGMENT
    requires forall i :: 0 <= i < k ==> EndInode(Accounted(fragments, i), fragments[i], bps, spc, bytesPerMftRecord) <= n
    ensures var c := Accounted(fragments, k);
            var restarted := FindAsWritten(fragments, n, Cursor(0, c.vcn, c.realVcn), 0, bps, spc, bytesPerMftRecord);
            var continued := FindIntended(fragments, n, c, 0, bps, spc, bytesPerMftRecord);
            restarted.0 == continued.0 && (continued.0.index < |fragments| ==> restarted.1 == continued.1)
  {
    hide FindIntended, FindAsWritten, EndInode, Accounted;
    var c := Accounted(fragments, k);
    var r := Cursor(0, c.vcn, c.realVcn);
    AccountedWithoutSparse(fragments, k);
    AsWrittenWithoutSparse(fragments, n, r, 0, bps, spc, bytesPerMftRecord);
    if k > 0 {
      var e := EndInode(Accounted(fragments, k - 1), fragments[k - 1], bps, spc, bytesPerMftRecord);
      FindIntendedSkipsEnded(fragments, n, r, k, 0, bps, spc, bytesPerMftRecord);
      FindIntendedIgnoresStart(fragments, n, c, e, 0, bps, spc, bytesPerMftRecord);
    } else {
      assert r == c;
    }
  }

  /** An $MFT `$DATA` stream with a sparse fragment: one cluster at 100, one sparse cluster,
      then two clusters at 200; with 4096-byte clusters and 1024-byte records, records 0-3
      lie at cluster 100 and records 4-11 at clusters 200-201. */
  const SparseMft: seq<Fragment> := [Fragment(100, 1), Fragment(VIRTUALFRAGMENT, 2), Fragment(200, 4)]

  /** As written, the chunk for record 4 is taken from the sparse fragment. */
  lemma SparseMftAsWritten()
    ensures FindAsWritten(SparseMft, 4, Cursor(0, 0, 0), 0, 512, 8, 1024) == (Cursor(1, 1, 1), 8)
    ensures SparseMft[1].lcn == VIRTUALFRAGMENT
  {
    assert EndInode(Cursor(0, 0, 0), SparseMft[0], 512, 8, 1024) == 4;
    assert SkipAsWritten(SparseMft, SparseMft[0], Cursor(0, 0, 0)) == Cursor(1, 1, 1);
    assert EndInode(Cursor(1, 1, 1), SparseMft[1], 512, 8, 1024) == 8;
  }

  /** As written, the chunk for record 9 is never found. The next call starts again from
      fragment 0, since the index is passed by value, with `Vcn` and `RealVcn` as the call for
      record 4 left them; the walk then passes the sparse fragment until the end of the list,
      and the scan stops. */
  lemma SparseMftAsWrittenGivesUp()
    ensures FindAsWritten(SparseMft, 9, Cursor(0, 1, 1), 0, 512, 8, 1024).0.index == |SparseMft|
  {
    assert EndInode(Cursor(0, 1, 1), SparseMft[0], 512, 8, 1024) == 4;
    assert SkipAsWritten(SparseMft, SparseMft[0], Cursor(0, 1, 1)) == Cursor(1, 1, 1);
    assert EndInode(Cursor(1, 1, 1), SparseMft[1], 512, 8, 1024) == 8;
    assert SkipAsWritten(SparseMft, SparseMft[1], Cursor(2, 2, 1)) == Cursor(3, 2, 1);
    assert SkipAsWritten(SparseMft, SparseMft[1], Cursor(1, 1, 1)) == Cursor(3, 2, 1);
    assert FindAsWritten(SparseMft, 9, Cursor(1, 1, 1), 4, 512, 8, 1024)
        == FindAsWritten(SparseMft, 9, Cursor(3, 2, 1), 8, 512, 8, 1024);
  }

  /** The intended walk finds both records in the last fragment. */
  lemma SparseMftIntended()
    ensures FindIntended(SparseMft, 4, Cursor(0, 0, 0), 0, 512, 8, 1024) == (Cursor(2, 2, 1), 12)
    ensures FindIntended(SparseMft, 9, Cursor(0, 0, 0), 0, 512, 8, 1024) == (Cursor(2, 2, 1), 12)
  {
    assert EndInode(Cursor(0, 0, 0), SparseMft[0], 512, 8, 1024) == 4;
    assert SkipIntended(SparseMft, Cursor(1, 1, 1)) == Cursor(2, 2, 1);
    assert SkipIntended(SparseMft, Cursor(0, 0, 0)) == Cursor(2, 2, 1);
    assert EndInode(Cursor(2, 2, 1), SparseMft[2], 512, 8, 1024) == 12;
  }

  /** `BlockEnd` before the fragment is known: the records that fit the buffer from
      `nodeIndex` on, no more than the `$DATA` stream's `Size * 8`. */
  function ChunkLimit(nodeIndex: u32, bufferSize: u32, dataSize: u64, bytesPerMftRecord: u64): (r: u64)
    requires bytesPerMftRecord > 0
    ensures r <= nodeIndex + bufferSize / bytesPerMftRecord && r <= Mul64(dataSize, 8)
    ensures r == nodeIndex + bufferSize / bytesPerMftRecord || r == Mul64(dataSize, 8)
  {
    var records := bufferSize / bytesPerMftRecord;
    DivBounds(bufferSize, bytesPerMftRecord);
    var blockEnd: u64 := nodeIndex + records;
    if blockEnd > Mul64(dataSize, 8) then Mul64(dataSize, 8) else blockEnd
  }

  /** `BlockEnd`: no more than `ChunkLimit` and no more than the end `u1` of the fragment. */
  function ChunkEnd(nodeIndex: u32, bufferSize: u32, dataSize: u64, u1: u64, bytesPerMftRecord: u64): (r: u64)
    requires bytesPerMftRecord > 0
    ensures r <= nodeIndex + bufferSize / bytesPerMftRecord && r <= Mul64(dataSize, 8) && r <= u1
    ensures r == nodeIndex + bufferSize / bytesPerMftRecord || r == Mul64(dataSize, 8) || r == u1
  {
    var limit := ChunkLimit(nodeIndex, bufferSize, dataSize, bytesPerMftRecord);
    if limit >= u1 then u1 else limit
  }

  /** `position`: the bytes of fragment `f` from the start of the volume, less those of the real
      clusters before it, plus those of the records before `blockStart`. */
  function ChunkPosition(c: Cursor, f: Fragment, blockStart: u64, bps: u16, spc: u8, bytesPerMftRecord: u64): u64 {
    Add64(InBytes(Sub64(f.lcn, c.realVcn), bps, spc), Mul64(blockStart, bytesPerMftRecord))
  }

  /** The position lands in fragment `f` at the record's offset: added to the bytes of the real
      clusters before `f`, it is the byte of `f` on the volume plus the offset of the record. */
  lemma ChunkPositionInFragment(c: Cursor, f: Fragment, blockStart: u64, bps: u16, spc: u8, bytesPerMftRecord: u64)
    ensures Add64(ChunkPosition(c, f, blockStart, bps, spc, bytesPerMftRecord), InBytes(c.realVcn, bps, spc))
            == Add64(InBytes(f.lcn, bps, spc), Mul64(blockStart, bytesPerMftRecord))
  {
    hide Wrap64, InBytes, Add64, Sub64, Mul64;
    var r := c.realVcn;
    var a := InBytes(Sub64(f.lcn, r), bps, spc);
    var rb := InBytes(r, bps, spc);
    var m := Mul64(blockStart, bytesPerMftRecord);
    // the bytes before the fragment and the bytes from there to its start add up to its start
    assert Add64(a, rb) == InBytes(f.lcn, bps, spc) by {
      var cs: int := bps * spc;
      var x: int := (f.lcn - r) * cs;
      var y: int := r * cs;
      assert x + y == f.lcn * cs;
      InBytesIsWrap(Sub64(f.lcn, r), bps, spc);
      SubIsWrap(f.lcn, r);
      WrapOfWrapMul(f.lcn - r, cs);
      InBytesIsWrap(r, bps, spc);
      InBytesIsWrap(f.lcn, bps, spc);
      Add64IsWrap(a, rb);
      WrapAdd(x, rb);
      WrapAdd(y, x);
    }
    assert Add64(Add64(a, m), rb) == Wrap64(a as int + m + rb) by {
      Add64IsWrap(a, m);
      Add64IsWrap(Add64(a, m), rb);
      WrapAdd(a as int + m, rb);
    }
    assert Add64(Add64(a, rb), m) == Wrap64(a as int + m + rb) by {
      Add64IsWrap(a, rb);
      Add64IsWrap(Add64(a, rb), m);
      WrapAdd(a as int + rb, m);
    }
  }
}
