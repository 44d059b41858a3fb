/** What the fixup does to a record whose update sequence array is laid out as NTFS lays it out:
    it checks the last word of sectors 1 .. UsaCount-1 in order, stops at the first that does not
    hold USA[0], and replaces each one that does with its saved word; nothing else changes. And
    its partner, the writer's side, which the fixup undoes. */
module FixupProperties {
  import opened Common
  import opened Bytes
  import opened Structures
  import opened Fixup

  /** An update sequence array: where it is, how many words it has (USA[0] and one saved word
      per sector), and the sector size in words. */
  datatype Usa = Usa(offset: nat, count: nat, increment: nat, length: nat)

  /** The array of a record of `bytesPerSector`-byte sectors, as its header describes it. */
  function HeaderUsa(rec: seq<u8>, bytesPerSector: u16): (u: Usa)
    requires |rec| >= 8
    ensures u.length == |rec|
  {
    Usa(UsaOffsetOf(rec), UsaCountOf(rec), bytesPerSector / 2, |rec|)
  }

  /** Word index of the last word of sector `k` (sectors counted from 1): the loop starts at
      `increment - 1` and steps by `increment`. */
  function TailWord(increment: nat, k: nat): int
    requires k >= 1
  {
    if k == 1 then increment - 1 else TailWord(increment, k - 1) + increment
  }

  /** The last word of sector `k` starts at byte `k * BytesPerSector - 2`. */
  lemma {:induction false} TailWordClosedForm(bytesPerSector: nat, k: nat)
    requires k >= 1 && bytesPerSector % 2 == 0
    ensures TailWord(bytesPerSector / 2, k) == k * (bytesPerSector / 2) - 1
    ensures 2 * TailWord(bytesPerSector / 2, k) == k * bytesPerSector - 2
  {
    var inc := bytesPerSector / 2;
    if k > 1 {
      TailWordClosedForm(bytesPerSector, k - 1);
      assert (k - 1) * inc + inc == k * inc;
    }
    assert 2 * (k * inc) == k * (2 * inc);
  }

  lemma {:induction false} TailWordGrows(increment: nat, j: nat, k: nat)
    requires 1 <= j < k
    ensures TailWord(increment, j) + increment <= TailWord(increment, k)
    decreases k
  {
    if j < k - 1 {
      TailWordGrows(increment, j, k - 1);
    }
  }

  lemma {:induction false} TailWordLow(increment: nat, k: nat)
    requires k >= 1
    ensures TailWord(increment, k) >= increment - 1
  {
    if k > 1 {
      TailWordGrows(increment, 1, k);
    }
  }

  /** The layout NTFS writes: at least one sector, the array after the 8 header bytes and before
      the last word of the first sector, and the last sector inside the record. */
  predicate Layout(u: Usa) {
    1 <= u.increment < 0x8000 && u.count >= 2 && 8 <= u.offset
    && u.offset + 2 * u.count <= 2 * (u.increment - 1) && 2 * u.increment <= u.length
    && 2 * TailWord(u.increment, u.count - 1) + 2 <= u.length
    && u.length < 0x8000_0000
  }

  /** An array laid out that way. */
  type Geometry = u: Usa | Layout(u) witness Usa(8, 2, 8, 16)

  /** The word index of the last word of sector `k`, as the `uint` the loop holds. */
  function TailIndex(u: Geometry, k: nat): (w: u32)
    requires 1 <= k <= u.count
    ensures w == TailWord(u.increment, k)
    ensures k < u.count ==> 2 * w + 2 <= u.length
    ensures 2 * w >= u.offset + 2 * u.count
  {
    TailWordBounds(u, k);
    TailWord(u.increment, k)
  }

  lemma {:induction false} TailWordBounds(u: Geometry, k: nat)
    requires 1 <= k <= u.count
    ensures 0 <= TailWord(u.increment, k) < TWO_32
    ensures k < u.count ==> 2 * TailWord(u.increment, k) + 2 <= u.length
    ensures 2 * TailWord(u.increment, k) >= u.offset + 2 * u.count
  {
    TailWordLow(u.increment, k);
    if k < u.count - 1 {
      TailWordGrows(u.increment, k, u.count - 1);
    }
    if k == u.count {
      TailWordGrows(u.increment, u.count - 1, k);
    }
  }

  /** Byte `i` belongs to the last word of one of sectors 1 .. k-1. */
  predicate InTails(u: Usa, i: nat, k: nat)
    requires k >= 1
    decreases k
  {
    k > 1 &&
    ((2 * TailWord(u.increment, k - 1) <= i <= 2 * TailWord(u.increment, k - 1) + 1) || InTails(u, i, k - 1))
  }

  lemma {:induction false} InTailsGrows(u: Usa, i: nat, j: nat, k: nat)
    requires 1 <= j <= k && InTails(u, i, j)
    ensures InTails(u, i, k)
    decreases k
  {
    if j < k {
      InTailsGrows(u, i, j, k - 1);
    }
  }

  /** Bytes before the last word of the first sector (the header and the array) are no tail. */
  lemma {:induction false} NotInTailsBelow(u: Usa, i: nat, k: nat)
    requires k >= 1 && u.increment >= 1 && i < 2 * (u.increment - 1)
    ensures !InTails(u, i, k)
    decreases k
  {
    if k > 1 {
      TailWordLow(u.increment, k - 1);
      NotInTailsBelow(u, i, k - 1);
    }
  }

  /** Bytes from the last word of sector `k` on are no tail of an earlier sector. */
  lemma {:induction false} NotInTailsAbove(u: Usa, i: nat, k: nat, j: nat)
    requires 1 <= j <= k && u.increment >= 1 && i >= 2 * TailWord(u.increment, k)
    ensures !InTails(u, i, j)
    decreases j
  {
    if j > 1 {
      TailWordGrows(u.increment, j - 1, k);
      NotInTailsAbove(u, i, k, j - 1);
    }
  }

  /** `rec` with the last words of sectors 1 .. k-1 replaced, in order, by the words the array
      holds for them (which `RestoredTailLow` and `RestoredTailHigh` show are the record's own array words). */
  function Restored(rec: seq<u8>, u: Geometry, k: nat): (r: seq<u8>)
    requires |rec| == u.length && 1 <= k <= u.count
    ensures |r| == |rec|
    decreases k
  {
    if k == 1 then rec
    else
      var p := Restored(rec, u, k - 1);
      var w := TailIndex(u, k - 1);
      var slot := u.offset + 2 * (k - 1);
      PutWord(p, 2 * w, p[slot], p[slot + 1])
  }

  /** A byte outside the tails already restored is still the record's own. */
  lemma {:induction false} RestoredElsewhere(rec: seq<u8>, u: Geometry, k: nat, i: nat)
    requires |rec| == u.length && 1 <= k <= u.count && i < |rec| && !InTails(u, i, k)
    ensures Restored(rec, u, k)[i] == rec[i]
    decreases k
  {
    if k > 1 {
      RestoredElsewhere(rec, u, k - 1, i);
    }
  }

  /** Each restored sector ends with the word the array saved for it: its low byte ... */
  lemma {:induction false} RestoredTailLow(rec: seq<u8>, u: Geometry, k: nat, j: nat)
    requires |rec| == u.length && 1 <= j < k <= u.count
    ensures Restored(rec, u, k)[2 * TailIndex(u, j)] == rec[u.offset + 2 * j]
    decreases k
  {
    hide Restored, PutWord, TailWord, InTails;
    if j == k - 1 {
      RestoredLastLow(rec, u, k);
    } else {
      TailWordGrows(u.increment, j, k - 1);
      RestoredTailLow(rec, u, k - 1, j);
      RestoredOtherByte(rec, u, k, 2 * TailIndex(u, j));
    }
  }

  /** ... and its high byte. */
  lemma {:induction false} RestoredTailHigh(rec: seq<u8>, u: Geometry, k: nat, j: nat)
    requires |rec| == u.length && 1 <= j < k <= u.count
    ensures Restored(rec, u, k)[2 * TailIndex(u, j) + 1] == rec[u.offset + 2 * j + 1]
    decreases k
  {
    hide Restored, PutWord, TailWord, InTails;
    if j == k - 1 {
      RestoredLastHigh(rec, u, k);
    } else {
      TailWordGrows(u.increment, j, k - 1);
      RestoredTailHigh(rec, u, k - 1, j);
      RestoredOtherByte(rec, u, k, 2 * TailIndex(u, j) + 1);
    }
  }

  /** The first sector from `k` on whose last word does not hold USA[0]; `count` if none. */
  function FirstMismatch(rec: seq<u8>, u: Geometry, k: nat): (m: nat)
    requires |rec| == u.length && 1 <= k <= u.count
    ensures k <= m <= u.count
    decreases u.count - k
  {
    if k == u.count then u.count
    else if U16At(rec, 2 * TailIndex(u, k)) != U16At(rec, u.offset) then k
    else FirstMismatch(rec, u, k + 1)
  }

  function OutcomeAt(u: Usa, m: nat): Outcome {
    if m == u.count then Pass else Fail(BadFixupSignature)
  }

  // Before sector `k` is handled, its last word, USA[0] and its array slot are the record's own.

  lemma {:induction false} RestoredTailUntouched(rec: seq<u8>, u: Geometry, k: nat)
    requires |rec| == u.length && 1 <= k < u.count
    ensures Restored(rec, u, k)[2 * TailIndex(u, k)] == rec[2 * TailIndex(u, k)]
    ensures Restored(rec, u, k)[2 * TailIndex(u, k) + 1] == rec[2 * TailIndex(u, k) + 1]
  {
    var w := TailIndex(u, k);
    NotInTailsAbove(u, 2 * w, k, k);
    RestoredElsewhere(rec, u, k, 2 * w);
    NotInTailsAbove(u, 2 * w + 1, k, k);
    RestoredElsewhere(rec, u, k, 2 * w + 1);
  }

  lemma {:induction false} RestoredArrayUntouched(rec: seq<u8>, u: Geometry, k: nat, i: nat)
    requires |rec| == u.length && 1 <= k <= u.count && u.offset <= i < u.offset + 2 * u.count
    ensures Restored(rec, u, k)[i] == rec[i]
  {
    NotInTailsBelow(u, i, k);
    RestoredElsewhere(rec, u, k, i);
  }

  // A sector that ends with USA[0] moves the restored prefix, the word index and the search for
  // a mismatch on by one sector.

  lemma {:induction false} RestoredNext(rec: seq<u8>, u: Geometry, k: nat)
    requires |rec| == u.length && 1 <= k < u.count
    ensures Restored(rec, u, k + 1)
         == PutWord(Restored(rec, u, k), 2 * TailIndex(u, k),
                    Restored(rec, u, k)[u.offset + 2 * k], Restored(rec, u, k)[u.offset + 2 * k + 1])
  {
  }

  lemma {:induction false} TailIndexNext(u: Geometry, k: nat)
    requires 1 <= k < u.count
    ensures TailIndex(u, k + 1) == Wrap32(TailIndex(u, k) + u.increment)
  {
  }

  lemma {:induction false} FirstMismatchNext(rec: seq<u8>, u: Geometry, k: nat)
    requires |rec| == u.length && 1 <= k < u.count
    requires U16At(rec, 2 * TailIndex(u, k)) == U16At(rec, u.offset)
    ensures FirstMismatch(rec, u, k) == FirstMismatch(rec, u, k + 1)
  {
  }

  /** Sector `k` is checked against the record's own bytes. */
  lemma {:induction false} CheckedAgainstRecord(rec: seq<u8>, u: Geometry, k: nat)
    requires |rec| == u.length && 1 <= k < u.count
    ensures Wrap32(TailIndex(u, k) * 2) == 2 * TailIndex(u, k)
    ensures U16At(Restored(rec, u, k), 2 * TailIndex(u, k)) == U16At(rec, 2 * TailIndex(u, k))
    ensures U16At(Restored(rec, u, k), u.offset) == U16At(rec, u.offset)
  {
    RestoredTailUntouched(rec, u, k);
    RestoredArrayUntouched(rec, u, k, u.offset);
    RestoredArrayUntouched(rec, u, k, u.offset + 1);
  }

  /** The loop, entered at sector `k` with the sectors before it restored, restores the sectors up
      to the first mismatch from `k` on and reports whether there was one. */
  predicate FixedFrom(rec: seq<u8>, u: Geometry, k: nat)
    requires |rec| == u.length && 1 <= k <= u.count
  {
    FixupWords(Restored(rec, u, k), u.offset, u.count, u.increment, k, TailIndex(u, k))
    == (Restored(rec, u, FirstMismatch(rec, u, k)), OutcomeAt(u, FirstMismatch(rec, u, k)))
  }

  lemma {:induction false} FixupFrom(rec: seq<u8>, u: Geometry, k: nat)
    requires |rec| == u.length && 1 <= k <= u.count
    ensures FixedFrom(rec, u, k)
    decreases u.count - k, 1
  {
    if k == u.count {
      FixupFromEnd(rec, u);
    } else if U16At(rec, 2 * TailIndex(u, k)) == U16At(rec, u.offset) {
      FixupFromPassing(rec, u, k);
    } else {
      FixupFromMismatch(rec, u, k);
    }
  }

  lemma {:induction false} FixupFromPassing(rec: seq<u8>, u: Geometry, k: nat)
    requires |rec| == u.length && 1 <= k < u.count
    requires U16At(rec, 2 * TailIndex(u, k)) == U16At(rec, u.offset)
    ensures FixedFrom(rec, u, k)
    decreases u.count - k, 0
  {
    hide FixedFrom, FixupWords, Restored, FirstMismatch, U16At;
    FixupFrom(rec, u, k + 1);
    FixupFromMatch(rec, u, k);
  }

  lemma {:induction false} FixupFromEnd(rec: seq<u8>, u: Geometry)
    requires |rec| == u.length
    ensures FixedFrom(rec, u, u.count)
  {
    assert FirstMismatch(rec, u, u.count) == u.count;
  }

  lemma {:induction false} FixupFromMatch(rec: seq<u8>, u: Geometry, k: nat)
    requires |rec| == u.length && 1 <= k < u.count
    requires U16At(rec, 2 * TailIndex(u, k)) == U16At(rec, u.offset)
    requires FixedFrom(rec, u, k + 1)
    ensures FixedFrom(rec, u, k)
  {
    RestoredStep(rec, u, k);
    FirstMismatchNext(rec, u, k);
  }

  /** A sector that passes the check: the loop restores its word and moves on to the next one. */
  lemma {:induction false} RestoredStep(rec: seq<u8>, u: Geometry, k: nat)
    requires |rec| == u.length && 1 <= k < u.count
    requires U16At(rec, 2 * TailIndex(u, k)) == U16At(rec, u.offset)
    ensures FixupWords(Restored(rec, u, k), u.offset, u.count, u.increment, k, TailIndex(u, k))
         == FixupWords(Restored(rec, u, k + 1), u.offset, u.count, u.increment, k + 1, TailIndex(u, k + 1))
  {
    CheckedAgainstRecord(rec, u, k);
    RestoredNext(rec, u, k);
    TailIndexNext(u, k);
    FixupWordsStep(Restored(rec, u, k), u.offset, u.count, u.increment, k, TailIndex(u, k),
                   Restored(rec, u, k + 1), TailIndex(u, k + 1));
  }

  lemma {:induction false} FixupFromMismatch(rec: seq<u8>, u: Geometry, k: nat)
    requires |rec| == u.length && 1 <= k < u.count
    requires U16At(rec, 2 * TailIndex(u, k)) != U16At(rec, u.offset)
    ensures FixupWords(Restored(rec, u, k), u.offset, u.count, u.increment, k, TailIndex(u, k))
         == (Restored(rec, u, FirstMismatch(rec, u, k)), OutcomeAt(u, FirstMismatch(rec, u, k)))
  {
    CheckedAgainstRecord(rec, u, k);
    assert FirstMismatch(rec, u, k) == k;
    FixupWordsMismatch(Restored(rec, u, k), u.offset, u.count, u.increment, k, TailIndex(u, k));
  }

  /** The fixup of a record laid out as NTFS lays it out: it succeeds exactly when every sector
      ends with USA[0]; it restores the last word of each sector up to the first one that does
      not, and then stops. */
  lemma {:induction false} FixupCharacterized(rec: seq<u8>, bytesPerSector: u16)
    requires |rec| >= 8 && RecordTypeOf(rec) == RecordTypeFile
    requires Layout(HeaderUsa(rec, bytesPerSector))
    ensures var u: Geometry := HeaderUsa(rec, bytesPerSector);
      FixupSpec(rec, bytesPerSector)
      == (Restored(rec, u, FirstMismatch(rec, u, 1)), OutcomeAt(u, FirstMismatch(rec, u, 1)))
  {
    var u: Geometry := HeaderUsa(rec, bytesPerSector);
    assert Wrap32(bytesPerSector / 2 - 1) == TailIndex(u, 1);
    FixupFrom(rec, u, 1);
    assert FixedFrom(rec, u, 1);
  }

  /** No byte changes except in the last word of one of sectors 1 .. UsaCount-1. */
  lemma {:induction false} FixupTouchesOnlyTails(rec: seq<u8>, bytesPerSector: u16, i: nat)
    requires |rec| >= 8 && RecordTypeOf(rec) == RecordTypeFile
    requires Layout(HeaderUsa(rec, bytesPerSector))
    requires i < |rec|
    requires FixupSpec(rec, bytesPerSector).0[i] != rec[i]
    ensures InTails(HeaderUsa(rec, bytesPerSector), i, UsaCountOf(rec))
  {
    var u: Geometry := HeaderUsa(rec, bytesPerSector);
    FixupCharacterized(rec, bytesPerSector);
    var m := FirstMismatch(rec, u, 1);
    if !InTails(u, i, m) {
      RestoredElsewhere(rec, u, m, i);
    }
    InTailsGrows(u, i, m, u.count);
  }


  /** The writer's side for sectors 1 .. k-1: USA[0] holds the update sequence number, and the
      last word of each sector is saved in the array and replaced by the number. */
  function ProtectUpTo(orig: seq<u8>, usn: u16, u: Geometry, k: nat): (p: seq<u8>)
    requires |orig| == u.length && 1 <= k <= u.count
    ensures |p| == |orig|
    decreases k
  {
    if k == 1 then TailWordBounds(u, u.count - 1); PutWord(orig, u.offset, usn % 256, usn / 256)
    else
      var p := ProtectUpTo(orig, usn, u, k - 1);
      var w := TailIndex(u, k - 1);
      var slot := u.offset + 2 * (k - 1);
      PutWord(PutWord(p, slot, orig[2 * w], orig[2 * w + 1]), 2 * w, usn % 256, usn / 256)
  }

  function Protect(orig: seq<u8>, usn: u16, u: Geometry): (p: seq<u8>)
    requires |orig| == u.length
    ensures |p| == |orig|
  {
    ProtectUpTo(orig, usn, u, u.count)
  }

  /** The writer leaves the update sequence number in USA[0]: its low byte ... */
  lemma {:induction false} ProtectUsnLow(orig: seq<u8>, usn: u16, u: Geometry, k: nat)
    requires |orig| == u.length && 1 <= k <= u.count
    ensures ProtectUpTo(orig, usn, u, k)[u.offset] == usn % 256
    decreases k
  {
    if k > 1 {
      ProtectUsnLow(orig, usn, u, k - 1);
    }
  }

  /** ... and its high byte. */
  lemma {:induction false} ProtectUsnHigh(orig: seq<u8>, usn: u16, u: Geometry, k: nat)
    requires |orig| == u.length && 1 <= k <= u.count
    ensures ProtectUpTo(orig, usn, u, k)[u.offset + 1] == usn / 256
    decreases k
  {
    if k > 1 {
      ProtectUsnHigh(orig, usn, u, k - 1);
    }
  }

  /** It leaves the number in the last word of every sector it protected, too: the low byte ... */
  lemma {:induction false} ProtectTailLow(orig: seq<u8>, usn: u16, u: Geometry, k: nat, j: nat)
    requires |orig| == u.length && 1 <= j < k <= u.count
    ensures ProtectUpTo(orig, usn, u, k)[2 * TailIndex(u, j)] == usn % 256
    decreases k
  {
    hide ProtectUpTo, PutWord, TailWord;
    if j < k - 1 {
      TailWordGrows(u.increment, j, k - 1);
      ProtectTailLow(orig, usn, u, k - 1, j);
      ProtectOtherByte(orig, usn, u, k, 2 * TailIndex(u, j));
    } else {
      ProtectTailWritten(orig, usn, u, k);
    }
  }

  /** ... and the high byte. */
  lemma {:induction false} ProtectTailHigh(orig: seq<u8>, usn: u16, u: Geometry, k: nat, j: nat)
    requires |orig| == u.length && 1 <= j < k <= u.count
    ensures ProtectUpTo(orig, usn, u, k)[2 * TailIndex(u, j) + 1] == usn / 256
    decreases k
  {
    hide ProtectUpTo, PutWord, TailWord;
    if j < k - 1 {
      TailWordGrows(u.increment, j, k - 1);
      ProtectTailHigh(orig, usn, u, k - 1, j);
      ProtectOtherByte(orig, usn, u, k, 2 * TailIndex(u, j) + 1);
    } else {
      ProtectTailWritten(orig, usn, u, k);
    }
  }

  /** It saves the word it replaced in the sector's array slot: the low byte ... */
  lemma {:induction false} ProtectSlotLow(orig: seq<u8>, usn: u16, u: Geometry, k: nat, j: nat)
    requires |orig| == u.length && 1 <= j < k <= u.count
    ensures ProtectUpTo(orig, usn, u, k)[u.offset + 2 * j] == orig[2 * TailIndex(u, j)]
    decreases k
  {
    hide ProtectUpTo, PutWord, TailWord;
    if j < k - 1 {
      ProtectSlotLow(orig, usn, u, k - 1, j);
      ProtectOtherByte(orig, usn, u, k, u.offset + 2 * j);
    } else {
      ProtectSlotWritten(orig, usn, u, k);
    }
  }

  /** ... and the high byte. */
  lemma {:induction false} ProtectSlotHigh(orig: seq<u8>, usn: u16, u: Geometry, k: nat, j: nat)
    requires |orig| == u.length && 1 <= j < k <= u.count
    ensures ProtectUpTo(orig, usn, u, k)[u.offset + 2 * j + 1] == orig[2 * TailIndex(u, j) + 1]
    decreases k
  {
    hide ProtectUpTo, PutWord, TailWord;
    if j < k - 1 {
      ProtectSlotHigh(orig, usn, u, k - 1, j);
      ProtectOtherByte(orig, usn, u, k, u.offset + 2 * j + 1);
    } else {
      ProtectSlotWritten(orig, usn, u, k);
    }
  }

  /** Protecting sector `k - 1` saves its last word in its array slot, ... */
  lemma ProtectSlotWritten(orig: seq<u8>, usn: u16, u: Geometry, k: nat)
    requires |orig| == u.length && 1 < k <= u.count
    ensures ProtectUpTo(orig, usn, u, k)[u.offset + 2 * (k - 1)] == orig[2 * TailIndex(u, k - 1)]
    ensures ProtectUpTo(orig, usn, u, k)[u.offset + 2 * (k - 1) + 1] == orig[2 * TailIndex(u, k - 1) + 1]
  {
  }

  /** ... leaves the update sequence number at the end of the sector ... */
  lemma ProtectTailWritten(orig: seq<u8>, usn: u16, u: Geometry, k: nat)
    requires |orig| == u.length && 1 < k <= u.count
    ensures ProtectUpTo(orig, usn, u, k)[2 * TailIndex(u, k - 1)] == usn % 256
    ensures ProtectUpTo(orig, usn, u, k)[2 * TailIndex(u, k - 1) + 1] == usn / 256
  {
  }

  /** ... and leaves the bytes outside that slot and that word as they were. */
  lemma ProtectOtherByte(orig: seq<u8>, usn: u16, u: Geometry, k: nat, i: nat)
    requires |orig| == u.length && 1 < k <= u.count && i < |orig|
    requires i != u.offset + 2 * (k - 1) && i != u.offset + 2 * (k - 1) + 1
    requires i != 2 * TailIndex(u, k - 1) && i != 2 * TailIndex(u, k - 1) + 1
    ensures ProtectUpTo(orig, usn, u, k)[i] == ProtectUpTo(orig, usn, u, k - 1)[i]
  {
  }

  /** Every other byte is the original's. */
  lemma {:induction false} ProtectElsewhere(orig: seq<u8>, usn: u16, u: Geometry, k: nat, i: nat)
    requires |orig| == u.length && 1 <= k <= u.count && i < |orig|
    requires !(u.offset <= i < u.offset + 2 * k) && !InTails(u, i, k)
    ensures ProtectUpTo(orig, usn, u, k)[i] == orig[i]
    decreases k
  {
    if k > 1 {
      ProtectElsewhere(orig, usn, u, k - 1, i);
    }
  }

  /** What a writer leaves in a record: the update sequence number in USA[0] and at the end of
      every sector. */
  predicate WriterTails(p: seq<u8>, usn: u16, u: Geometry)
    requires |p| == u.length
  {
    U16At(p, u.offset) == usn
    && forall j :: 1 <= j < u.count ==> U16At(p, 2 * TailIndex(u, j)) == usn
  }

  /** Every byte outside the array and the sector tails is `orig`'s. */
  predicate KeepsRest(p: seq<u8>, orig: seq<u8>, u: Geometry)
    requires |orig| == u.length && |p| == |orig|
  {
    forall i :: 0 <= i < |orig| && !(u.offset <= i < u.offset + 2 * u.count) && !InTails(u, i, u.count) ==>
      p[i] == orig[i]
  }

  lemma {:induction false} ProtectWritesTails(orig: seq<u8>, usn: u16, u: Geometry)
    requires |orig| == u.length
    ensures WriterTails(Protect(orig, usn, u), usn, u)
  {
    ProtectUsnLow(orig, usn, u, u.count);
    ProtectUsnHigh(orig, usn, u, u.count);
    forall j | 1 <= j < u.count
      ensures U16At(Protect(orig, usn, u), 2 * TailIndex(u, j)) == usn
    {
      ProtectTailLow(orig, usn, u, u.count, j);
      ProtectTailHigh(orig, usn, u, u.count, j);
    }
  }

  lemma {:induction false} ProtectKeepsRest(orig: seq<u8>, usn: u16, u: Geometry)
    requires |orig| == u.length
    ensures KeepsRest(Protect(orig, usn, u), orig, u)
  {
    forall i | 0 <= i < |orig| && !(u.offset <= i < u.offset + 2 * u.count) && !InTails(u, i, u.count)
      ensures Protect(orig, usn, u)[i] == orig[i]
    {
      ProtectElsewhere(orig, usn, u, u.count, i);
    }
  }

  /** The array of `p` holds, for every sector, the last word of that sector in `orig`. */
  predicate SavesTails(p: seq<u8>, orig: seq<u8>, u: Geometry)
    requires |orig| == u.length && |p| == |orig|
  {
    forall j :: 1 <= j < u.count ==>
      p[u.offset + 2 * j] == orig[2 * TailIndex(u, j)]
      && p[u.offset + 2 * j + 1] == orig[2 * TailIndex(u, j) + 1]
  }

  lemma {:induction false} ProtectSavesTails(orig: seq<u8>, usn: u16, u: Geometry)
    requires |orig| == u.length
    ensures SavesTails(Protect(orig, usn, u), orig, u)
  {
    forall j | 1 <= j < u.count
      ensures Protect(orig, usn, u)[u.offset + 2 * j] == orig[2 * TailIndex(u, j)]
      ensures Protect(orig, usn, u)[u.offset + 2 * j + 1] == orig[2 * TailIndex(u, j) + 1]
    {
      ProtectSlotLow(orig, usn, u, u.count, j);
      ProtectSlotHigh(orig, usn, u, u.count, j);
    }
  }

  /** Restoring a record whose array saved the tails of `orig` puts those tails back. */
  /** `SavesTails` for the sectors before `k`, one sector at a time. */
  predicate SavedBefore(p: seq<u8>, orig: seq<u8>, u: Geometry, k: nat)
    requires |orig| == u.length && |p| == |orig| && 1 <= k <= u.count
    decreases k
  {
    k == 1 ||
    (SavedBefore(p, orig, u, k - 1)
     && p[u.offset + 2 * (k - 1)] == orig[2 * TailIndex(u, k - 1)]
     && p[u.offset + 2 * (k - 1) + 1] == orig[2 * TailIndex(u, k - 1) + 1])
  }

  lemma {:induction false} SavesTailsBefore(p: seq<u8>, orig: seq<u8>, u: Geometry, k: nat)
    requires |orig| == u.length && |p| == |orig| && SavesTails(p, orig, u) && 1 <= k <= u.count
    ensures SavedBefore(p, orig, u, k)
    decreases k
  {
    if k > 1 {
      SavesTailsBefore(p, orig, u, k - 1);
      assert 1 <= k - 1 < u.count;
    }
  }

  lemma {:induction false} RestoredSaved(p: seq<u8>, orig: seq<u8>, u: Geometry, k: nat, i: nat)
    requires |orig| == u.length && |p| == |orig| && 1 <= k <= u.count && SavedBefore(p, orig, u, k)
    requires i < |orig|
    ensures Restored(p, u, k)[i] == if InTails(u, i, k) then orig[i] else p[i]
    decreases k
  {
    if k > 1 {
      var w := TailIndex(u, k - 1);
      if i == 2 * w || i == 2 * w + 1 {
        RestoredLastLow(p, u, k);
        RestoredLastHigh(p, u, k);
        assert InTails(u, i, k);
      } else {
        RestoredSaved(p, orig, u, k - 1, i);
        RestoredOtherByte(p, u, k, i);
      }
    }
  }

  /** The word restored last is the one in its array slot. */
  lemma {:induction false} RestoredLastLow(p: seq<u8>, u: Geometry, k: nat)
    requires |p| == u.length && 1 < k <= u.count
    ensures Restored(p, u, k)[2 * TailIndex(u, k - 1)] == p[u.offset + 2 * (k - 1)]
  {
    RestoredArrayUntouched(p, u, k - 1, u.offset + 2 * (k - 1));
  }

  lemma {:induction false} RestoredLastHigh(p: seq<u8>, u: Geometry, k: nat)
    requires |p| == u.length && 1 < k <= u.count
    ensures Restored(p, u, k)[2 * TailIndex(u, k - 1) + 1] == p[u.offset + 2 * (k - 1) + 1]
  {
    RestoredArrayUntouched(p, u, k - 1, u.offset + 2 * (k - 1) + 1);
  }

  /** Any other byte is as it was before that word was restored. */
  lemma {:induction false} RestoredOtherByte(p: seq<u8>, u: Geometry, k: nat, i: nat)
    requires |p| == u.length && 1 < k <= u.count && i < |p|
    requires i != 2 * TailIndex(u, k - 1) && i != 2 * TailIndex(u, k - 1) + 1
    ensures Restored(p, u, k)[i] == Restored(p, u, k - 1)[i]
    ensures InTails(u, i, k) == InTails(u, i, k - 1)
  {
  }

  /** The record's type and array header lie before the array, so they are kept. */
  lemma {:induction false} SameHeader(a: seq<u8>, b: seq<u8>)
    requires |a| >= 8 && |b| >= 8 && a[..8] == b[..8]
    ensures RecordTypeOf(a) == RecordTypeOf(b)
    ensures UsaOffsetOf(a) == UsaOffsetOf(b) && UsaCountOf(a) == UsaCountOf(b)
  {
    assert forall i :: 0 <= i < 8 ==> a[i] == b[i] by {
      forall i | 0 <= i < 8 ensures a[i] == b[i] {
        assert a[..8][i] == b[..8][i];
      }
    }
  }

  lemma {:induction false} KeepsHeader(p: seq<u8>, orig: seq<u8>, u: Geometry)
    requires |orig| == u.length && |p| == |orig| && KeepsRest(p, orig, u)
    ensures p[..8] == orig[..8]
  {
    forall i | 0 <= i < 8
      ensures p[i] == orig[i]
    {
      NotInTailsBelow(u, i, u.count);
    }
  }

  lemma {:induction false} WriterTailsMatch(p: seq<u8>, usn: u16, u: Geometry, k: nat)
    requires |p| == u.length && WriterTails(p, usn, u) && 1 <= k <= u.count
    ensures FirstMismatch(p, u, k) == u.count
    decreases u.count - k
  {
    if k < u.count {
      assert U16At(p, 2 * TailIndex(u, k)) == usn;
      WriterTailsMatch(p, usn, u, k + 1);
    }
  }

  /** Fixing up what a writer left succeeds and gives back every byte outside the array. */
  lemma {:induction false} FixupUndoesWriter(p: seq<u8>, orig: seq<u8>, usn: u16, bytesPerSector: u16)
    requires |orig| >= 8 && RecordTypeOf(orig) == RecordTypeFile
    requires Layout(HeaderUsa(orig, bytesPerSector))
    requires var u: Geometry := HeaderUsa(orig, bytesPerSector);
      |p| == |orig| && WriterTails(p, usn, u) && SavesTails(p, orig, u) && KeepsRest(p, orig, u)
    ensures var u: Geometry := HeaderUsa(orig, bytesPerSector);
      var r := FixupSpec(p, bytesPerSector);
      r.1 == Pass &&
      forall i :: 0 <= i < |orig| && !(u.offset <= i < u.offset + 2 * u.count) ==> r.0[i] == orig[i]
  {
    var u: Geometry := HeaderUsa(orig, bytesPerSector);
    KeepsHeader(p, orig, u);
    SameHeader(p, orig);
    FixupCharacterized(p, bytesPerSector);
    WriterTailsMatch(p, usn, u, 1);
    SavesTailsBefore(p, orig, u, u.count);
    forall i | 0 <= i < |orig| && !(u.offset <= i < u.offset + 2 * u.count)
      ensures Restored(p, u, u.count)[i] == orig[i]
    {
      RestoredSaved(p, orig, u, u.count, i);
    }
  }

  /** The round trip: protecting a record and fixing it up again gives back every byte outside
      the array, and the fixup succeeds. */
  lemma {:induction false} FixupUndoesProtect(orig: seq<u8>, usn: u16, bytesPerSector: u16)
    requires |orig| >= 8 && RecordTypeOf(orig) == RecordTypeFile
    requires Layout(HeaderUsa(orig, bytesPerSector))
    ensures var u: Geometry := HeaderUsa(orig, bytesPerSector);
      var r := FixupSpec(Protect(orig, usn, u), bytesPerSector);
      r.1 == Pass &&
      forall i :: 0 <= i < |orig| && !(u.offset <= i < u.offset + 2 * u.count) ==> r.0[i] == orig[i]
  {
    var u: Geometry := HeaderUsa(orig, bytesPerSector);
    ProtectWritesTails(orig, usn, u);
    ProtectSavesTails(orig, usn, u);
    ProtectKeepsRest(orig, usn, u);
    FixupUndoesWriter(Protect(orig, usn, u), orig, usn, bytesPerSector);
  }

  lemma {:induction false} MismatchFoundBy(rec: seq<u8>, u: Geometry, k: nat, i: nat)
    requires |rec| == u.length && 1 <= i <= k < u.count
    requires U16At(rec, 2 * TailIndex(u, k)) != U16At(rec, u.offset)
    ensures FirstMismatch(rec, u, i) <= k
    decreases k - i
  {
    if i < k {
      MismatchFoundBy(rec, u, k, i + 1);
    }
  }

  /** A record in which the last word of some sector differs from USA[0] is refused. */
  lemma {:induction false} FixupRefusesMismatch(rec: seq<u8>, bytesPerSector: u16, k: nat)
    requires |rec| >= 8 && RecordTypeOf(rec) == RecordTypeFile
    requires Layout(HeaderUsa(rec, bytesPerSector))
    requires 1 <= k < UsaCountOf(rec)
    requires var u: Geometry := HeaderUsa(rec, bytesPerSector);
      U16At(rec, 2 * TailIndex(u, k)) != U16At(rec, u.offset)
    ensures FixupSpec(rec, bytesPerSector).1 == Fail(BadFixupSignature)
  {
    var u: Geometry := HeaderUsa(rec, bytesPerSector);
    MismatchFoundBy(rec, u, k, 1);
    FixupCharacterized(rec, bytesPerSector);
  }

  /** A torn write: if one byte of the last word of some sector differs from what the writer
      left there, the fixup refuses the record. */
  lemma {:induction false} FixupDetectsTornSector(p: seq<u8>, usn: u16, bytesPerSector: u16, k: nat, b: nat, x: u8)
    requires |p| >= 8 && RecordTypeOf(p) == RecordTypeFile
    requires Layout(HeaderUsa(p, bytesPerSector))
    requires WriterTails(p, usn, HeaderUsa(p, bytesPerSector))
    requires 1 <= k < UsaCountOf(p) && b < 2
    requires x != p[2 * TailIndex(HeaderUsa(p, bytesPerSector), k) + b]
    ensures FixupSpec(p[2 * TailIndex(HeaderUsa(p, bytesPerSector), k) + b := x],
                      bytesPerSector).1
         == Fail(BadFixupSignature)
  {
    var u: Geometry := HeaderUsa(p, bytesPerSector);
    var w := TailIndex(u, k);
    var c := p[2 * w + b := x];
    assert c[..8] == p[..8];
    SameHeader(c, p);
    assert U16At(c, u.offset) == usn;
    assert U16At(p, 2 * w) == usn;
    assert U16At(c, 2 * w) != usn;
    FixupRefusesMismatch(c, bytesPerSector, k);
  }

  /** ... in particular in a record protected by the writer. */
  lemma {:induction false} FixupDetectsTornWrite(orig: seq<u8>, usn: u16, bytesPerSector: u16, k: nat, b: nat, x: u8)
    requires |orig| >= 8 && RecordTypeOf(orig) == RecordTypeFile
    requires Layout(HeaderUsa(orig, bytesPerSector))
    requires 1 <= k < UsaCountOf(orig) && b < 2
    requires var u: Geometry := HeaderUsa(orig, bytesPerSector);
      x != Protect(orig, usn, u)[2 * TailIndex(u, k) + b]
    ensures var u: Geometry := HeaderUsa(orig, bytesPerSector);
      FixupSpec(Protect(orig, usn, u)[2 * TailIndex(u, k) + b := x], bytesPerSector).1
      == Fail(BadFixupSignature)
  {
    var u: Geometry := HeaderUsa(orig, bytesPerSector);
    var p := Protect(orig, usn, u);
    ProtectWritesTails(orig, usn, u);
    ProtectKeepsRest(orig, usn, u);
    KeepsHeader(p, orig, u);
    SameHeader(p, orig);
    FixupDetectsTornSector(p, usn, bytesPerSector, k, b, x);
  }
}
