/** The update-sequence fixup of an MFT record. When NTFS writes a multi-sector record it saves
    the last word of every sector in the record's update sequence array (USA) and stores the
    update sequence number (USA[0]) in its place; a reader checks that every sector still ends
    with that number, which detects a torn write, and then puts the saved words back. */
module Fixup {
  import opened Common
  import opened Bytes
  import opened Structures

  /** The loop of the fixup from iteration `i` on, `index` being the word it inspects next. The
      array slots are read from the record as it stands, which the earlier iterations changed. */
  function FixupWords(rec: seq<u8>, usaOffset: nat, usaCount: nat, increment: u32, i: nat, index: u32): (r: (seq<u8>, Outcome))
    requires usaOffset + 2 * usaCount <= |rec|
    ensures |r.0| == |rec|
    decreases usaCount - i
  {
    if i >= usaCount then (rec, Pass)
    else if Wrap32(index * 2) >= |rec| then (rec, Fail(UsaDataMissing))
    else if 2 * index + 2 > |rec| then (rec, Fail(OutOfBounds))
    else if U16At(rec, 2 * index) != U16At(rec, usaOffset) then (rec, Fail(BadFixupSignature))
    else
      var slot := usaOffset + 2 * i;
      FixupWords(PutWord(rec, 2 * index, rec[slot], rec[slot + 1]), usaOffset, usaCount, increment, i + 1, Wrap32(index + increment))
  }

  /** The word `hi:lo` stored little-endian at `off`. */
  function PutWord(s: seq<u8>, off: nat, lo: u8, hi: u8): (r: seq<u8>)
    requires off + 2 <= |s|
    ensures |r| == |s|
  {
    s[off := lo][off + 1 := hi]
  }

  /** The record after the fixup, and whether it succeeded. A record that is not a FILE record is
      left alone. The source reads the array without checking that it lies inside the record;
      here an array that does not fit is refused up front with OutOfBounds. */
  function FixupSpec(rec: seq<u8>, bytesPerSector: u16): (r: (seq<u8>, Outcome))
    ensures |r.0| == |rec|
  {
    if |rec| < 4 then (rec, Fail(OutOfBounds))
    else if RecordTypeOf(rec) != RecordTypeFile then (rec, Pass)
    else if |rec| < 8 then (rec, Fail(OutOfBounds))
    else if UsaCountOf(rec) <= 1 then (rec, Pass)
    else if UsaOffsetOf(rec) + 2 * UsaCountOf(rec) > |rec| then (rec, Fail(OutOfBounds))
    else
      var increment := bytesPerSector / 2;
      FixupWords(rec, UsaOffsetOf(rec), UsaCountOf(rec), increment, 1, Wrap32(increment - 1))
  }

  /** `FixupRawMftdata` on the `len` bytes of `buffer` from `start`. */
  method FixupRawMftdata(buffer: array<u8>, start: nat, len: nat, bytesPerSector: u16) returns (o: Outcome)
    requires start + len <= buffer.Length
    modifies buffer
    ensures (buffer[start..start + len], o) == FixupSpec(old(buffer[start..start + len]), bytesPerSector)
    ensures buffer[..start] == old(buffer[..start])
    ensures buffer[start + len..] == old(buffer[start + len..])
  {
    var rec := buffer[start..start + len];
    if len < 4 {
      return Fail(OutOfBounds);
    }
    if RecordTypeOf(rec) != RecordTypeFile {
      return Pass;
    }
    if len < 8 {
      return Fail(OutOfBounds);
    }
    var usaOffset: nat := UsaOffsetOf(rec);
    var usaCount: nat := UsaCountOf(rec);
    if usaCount <= 1 {
      return Pass;
    }
    if usaOffset + 2 * usaCount > len {
      return Fail(OutOfBounds);
    }
    var increment: u32 := bytesPerSector / 2;
    o := FixupSectors(buffer, start, len, usaOffset, usaCount, increment);
  }

  /** The loop of `FixupRawMftdata`, over a record whose array lies inside it. */
  method FixupSectors(buffer: array<u8>, start: nat, len: nat, usaOffset: nat, usaCount: nat, increment: u32)
    returns (o: Outcome)
    requires start + len <= buffer.Length
    requires usaOffset + 2 * usaCount <= len
    modifies buffer
    ensures (buffer[start..start + len], o)
         == FixupWords(old(buffer[start..start + len]), usaOffset, usaCount, increment, 1, Wrap32(increment - 1))
    ensures buffer[..start] == old(buffer[..start])
    ensures buffer[start + len..] == old(buffer[start + len..])
  {
    hide FixupWords, PutWord;
    var index: u32 := Wrap32(increment - 1);
    var i := 1;
    while i < usaCount
      invariant 1 <= i
      invariant buffer[..start] == old(buffer[..start])
      invariant buffer[start + len..] == old(buffer[start + len..])
      invariant FixupWords(buffer[start..start + len], usaOffset, usaCount, increment, i, index)
             == FixupWords(old(buffer[start..start + len]), usaOffset, usaCount, increment, 1, Wrap32(increment - 1))
      decreases usaCount - i
    {
      var cur := buffer[start..start + len];
      FixupWordsStops(cur, usaOffset, usaCount, increment, i, index);
      if Wrap32(index * 2) >= len {
        return Fail(UsaDataMissing);
      }
      if 2 * index + 2 > len {
        return Fail(OutOfBounds);
      }
      if U16At(cur, 2 * index) != U16At(cur, usaOffset) {
        FixupWordsMismatch(cur, usaOffset, usaCount, increment, i, index);
        return Fail(BadFixupSignature);
      }
      var slot := usaOffset + 2 * i;
      var lo, hi := cur[slot], cur[slot + 1];
      var next := Wrap32(index + increment);
      FixupWordsStep(cur, usaOffset, usaCount, increment, i, index, PutWord(cur, 2 * index, lo, hi), next);
      ghost var before := buffer[..];
      buffer[start + 2 * index] := lo;
      buffer[start + 2 * index + 1] := hi;
      assert buffer[..] == before[start + 2 * index := lo][start + 2 * index + 1 := hi];
      WordWrite(before, buffer[..], start, len, 2 * index, lo, hi);
      i := i + 1;
      index := next;
    }
    FixupWordsStops(buffer[start..start + len], usaOffset, usaCount, increment, i, index);
    return Pass;
  }

  /** Where the loop stops without touching the record: past the last array slot, or on a word
      index outside the record. */
  lemma FixupWordsStops(cur: seq<u8>, usaOffset: nat, usaCount: nat, increment: u32, i: nat, index: u32)
    requires usaOffset + 2 * usaCount <= |cur|
    ensures i >= usaCount ==> FixupWords(cur, usaOffset, usaCount, increment, i, index) == (cur, Pass)
    ensures i < usaCount && Wrap32(index * 2) >= |cur| ==>
              FixupWords(cur, usaOffset, usaCount, increment, i, index) == (cur, Fail(UsaDataMissing))
    ensures i < usaCount && Wrap32(index * 2) < |cur| && 2 * index + 2 > |cur| ==>
              FixupWords(cur, usaOffset, usaCount, increment, i, index) == (cur, Fail(OutOfBounds))
  {
  }

  /** One iteration of the loop that passes its checks, leading to the record `next` and the
      word index `nextIndex`. */
  lemma FixupWordsStep(cur: seq<u8>, usaOffset: nat, usaCount: nat, increment: u32, i: nat, index: u32,
                       next: seq<u8>, nextIndex: u32)
    requires usaOffset + 2 * usaCount <= |cur|
    requires 1 <= i < usaCount
    requires Wrap32(index * 2) < |cur| && 2 * index + 2 <= |cur|
    requires U16At(cur, 2 * index) == U16At(cur, usaOffset)
    requires next == PutWord(cur, 2 * index, cur[usaOffset + 2 * i], cur[usaOffset + 2 * i + 1])
    requires nextIndex == Wrap32(index + increment)
    ensures FixupWords(cur, usaOffset, usaCount, increment, i, index)
         == FixupWords(next, usaOffset, usaCount, increment, i + 1, nextIndex)
  {
  }

  /** An iteration whose sector does not end with USA[0] stops the loop. */
  lemma FixupWordsMismatch(cur: seq<u8>, usaOffset: nat, usaCount: nat, increment: u32, i: nat, index: u32)
    requires usaOffset + 2 * usaCount <= |cur|
    requires 1 <= i < usaCount
    requires Wrap32(index * 2) < |cur| && 2 * index + 2 <= |cur|
    requires U16At(cur, 2 * index) != U16At(cur, usaOffset)
    ensures FixupWords(cur, usaOffset, usaCount, increment, i, index) == (cur, Fail(BadFixupSignature))
  {
  }

  /** Writing one word into a slice of a buffer is a `PutWord` on that slice. */
  lemma WordWrite(before: seq<u8>, after: seq<u8>, start: nat, len: nat, off: nat, lo: u8, hi: u8)
    requires start + len <= |before| && off + 2 <= len
    requires after == before[start + off := lo][start + off + 1 := hi]
    ensures after[start..start + len] == PutWord(before[start..start + len], off, lo, hi)
    ensures after[..start] == before[..start]
    ensures after[start + len..] == before[start + len..]
  {
  }
}
