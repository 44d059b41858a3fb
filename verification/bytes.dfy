/** Little-endian integers in byte spans: the packed on-disk structures of NTFS store every
    multi-byte field least significant byte first. */
module Bytes {
  import opened Common

  function Pow2(k: nat): (r: nat)
    ensures r >= 1
  {
    if k == 0 then 1 else 2 * Pow2(k - 1)
  }

  lemma {:induction false} Pow2Add(a: nat, b: nat)
    ensures Pow2(a + b) == Pow2(a) * Pow2(b)
  {
    if a > 0 {
      Pow2Add(a - 1, b);
    }
  }

  lemma Pow2Monotone(a: nat, b: nat)
    requires a <= b
    ensures Pow2(a) <= Pow2(b)
  {
    Pow2Add(a, b - a);
  }

  /** The powers of two that bound the field widths of the source. */
  lemma Pow2Four()
    ensures Pow2(4) == 16
  {
    assert Pow2(1) == 2;
    assert Pow2(2) == 4;
    assert Pow2(3) == 8;
  }

  lemma Pow2Widths()
    ensures Pow2(8) == 0x100
    ensures Pow2(16) == 0x1_0000
    ensures Pow2(32) == TWO_32
    ensures Pow2(64) == TWO_64
  {
    Pow2Four();
    hide Pow2;
    Pow2Add(4, 4);
    Pow2Add(8, 8);
    Pow2Add(16, 16);
    Pow2Add(32, 32);
  }

  /** The unsigned value of a little-endian byte sequence. */
  function LeValue(s: seq<u8>): (n: nat)
    ensures n < Pow2(8 * |s|)
  {
    if |s| == 0 then 0
    else
      Pow2Add(8, 8 * (|s| - 1));
      Pow2Widths();
      s[0] + 256 * LeValue(s[1..])
  }

  /** The `width` little-endian bytes of `n`. */
  function LeBytes(n: nat, width: nat): (s: seq<u8>)
    requires n < Pow2(8 * width)
    ensures |s| == width
  {
    if width == 0 then []
    else
      LowByteSplit(n, width);
      [n % 256] + LeBytes(n / 256, width - 1)
  }

  /** Taking off the low byte of a `width`-byte value leaves a `width - 1`-byte value. */
  lemma LowByteSplit(n: nat, width: nat)
    requires width > 0 && n < Pow2(8 * width)
    ensures n / 256 < Pow2(8 * (width - 1))
    ensures n == n % 256 + 256 * (n / 256)
  {
    var p := Pow2(8 * (width - 1));
    assert Pow2(8 * width) == 256 * p by {
      Pow2Add(8, 8 * (width - 1));
      Pow2Widths();
      assert 8 * width == 8 + 8 * (width - 1);
    }
    DivBelow(n, 256, p);
  }

  lemma DivBelow(n: nat, d: nat, p: nat)
    requires d > 0 && n < d * p
    ensures n / d < p
    ensures n == n % d + d * (n / d)
  {
    var q := n / d;
    assert n == d * q + n % d;
    assert d * q < d * p;
    MulCancel(d, q, p);
  }

  lemma MulCancel(d: nat, a: nat, b: nat)
    requires d * a < d * b
    ensures a < b
  {
    if b <= a {
      MulMonoLeft(d, b, a);
    }
  }

  lemma MulMonoLeft(d: nat, a: nat, b: nat)
    requires a <= b
    ensures d * a <= d * b
  {
  }

  /** A low byte and a higher part recombine uniquely. */
  lemma ByteSplitUnique(b: nat, x: nat)
    requires b < 256
    ensures (b + 256 * x) % 256 == b && (b + 256 * x) / 256 == x
  {
  }

  lemma {:induction false} LeValueOfBytes(n: nat, width: nat)
    requires n < Pow2(8 * width)
    ensures LeValue(LeBytes(n, width)) == n
  {
    if width > 0 {
      LowByteSplit(n, width);
      LeValueOfBytes(n / 256, width - 1);
      var s := LeBytes(n, width);
      assert s[0] == n % 256;
      assert s[1..] == LeBytes(n / 256, width - 1);
      assert LeValue(s) == s[0] + 256 * LeValue(s[1..]);
    }
  }

  lemma {:induction false} LeBytesOfValue(s: seq<u8>)
    ensures LeBytes(LeValue(s), |s|) == s
  {
    if |s| > 0 {
      LeBytesOfValue(s[1..]);
      ByteSplitUnique(s[0], LeValue(s[1..]));
      assert LeValue(s) == s[0] + 256 * LeValue(s[1..]);
      var t := LeBytes(LeValue(s), |s|);
      assert t[0] == s[0];
      assert t[1..] == LeBytes(LeValue(s[1..]), |s| - 1);
    }
  }

  /** Appending a most significant byte: the step a byte-by-byte decoding loop takes. */
  lemma {:induction false} LeValueAppend(s: seq<u8>, b: u8)
    ensures LeValue(s + [b]) == LeValue(s) + b * Pow2(8 * |s|)
  {
    if |s| == 0 {
      assert (s + [b])[1..] == [];
    } else {
      var t := s[1..];
      assert (s + [b])[1..] == t + [b];
      LeValueAppend(t, b);
      var x: int := LeValue(t);
      var y: int := LeValue(t + [b]);
      var p: int := Pow2(8 * |t|);
      var bi: int := b;
      assert y == x + bi * p;
      assert Pow2(8 * |s|) == 256 * p by {
        Pow2Add(8, 8 * |t|);
        Pow2Widths();
        assert 8 * |s| == 8 + 8 * |t|;
      }
      assert LeValue(s + [b]) == s[0] + 256 * y;
      assert LeValue(s) == s[0] + 256 * x;
      MulDistributes(256, x, bi * p);
      MulCommutes(256, bi, p);
      assert LeValue(s + [b]) == LeValue(s) + bi * Pow2(8 * |s|);
    }
  }

  lemma MulCommutes(a: int, b: int, c: int)
    ensures a * (b * c) == b * (a * c)
  {
  }

  lemma MulDistributes(a: int, x: int, y: int)
    ensures a * (x + y) == a * x + a * y
  {
  }

  /** The unsigned little-endian field of `width` bytes at `off`. */
  function LeAt(s: seq<u8>, off: nat, width: nat): (n: nat)
    requires off + width <= |s|
    ensures n < Pow2(8 * width)
  {
    LeValue(s[off..off + width])
  }

  /** Splitting a little-endian value into its low `k` bytes and the rest. */
  lemma {:induction false} LeValueSplit(s: seq<u8>, k: nat)
    requires k <= |s|
    ensures LeValue(s) == LeValue(s[..k]) + Pow2(8 * k) * LeValue(s[k..])
  {
    if k == 0 {
      assert s[..0] == [];
      assert s[0..] == s;
    } else {
      LeValueSplit(s[1..], k - 1);
      assert s[1..][..k - 1] == s[..k][1..];
      assert s[1..][k - 1..] == s[k..];
      var a: int := LeValue(s[..k][1..]);
      var b: int := LeValue(s[k..]);
      var p: int := Pow2(8 * (k - 1));
      assert LeValue(s[1..]) == a + p * b;
      assert Pow2(8 * k) == 256 * p by {
        Pow2Add(8, 8 * (k - 1));
        Pow2Widths();
        assert 8 * k == 8 + 8 * (k - 1);
      }
      MulDistributes(256, a, p * b);
      MulAssociates(256, p, b);
    }
  }

  lemma MulAssociates(a: int, b: int, c: int)
    ensures a * (b * c) == (a * b) * c
  {
  }

  /** The unsigned 16-bit field at `off`. */
  function U16At(s: seq<u8>, off: nat): (n: u16)
    requires off + 2 <= |s|
  {
    s[off] as int + 0x100 * (s[off + 1] as int)
  }

  /** The unsigned 32-bit field at `off`, as its low and high halves. */
  function U32At(s: seq<u8>, off: nat): (n: u32)
    requires off + 4 <= |s|
  {
    U16At(s, off) + 0x1_0000 * U16At(s, off + 2)
  }

  /** The unsigned 64-bit field at `off`, as its low and high halves. */
  function U64At(s: seq<u8>, off: nat): (n: u64)
    requires off + 8 <= |s|
  {
    U32At(s, off) + TWO_32 * U32At(s, off + 4)
  }

  lemma U16AtIsLe(s: seq<u8>, off: nat)
    requires off + 2 <= |s|
    ensures U16At(s, off) == LeAt(s, off, 2)
  {
    var t := s[off..off + 2];
    assert t[1..][1..] == [];
    assert LeValue(t[1..]) == t[1] + 256 * LeValue(t[1..][1..]);
    assert LeValue(t) == t[0] + 256 * LeValue(t[1..]);
  }

  lemma U32AtIsLe(s: seq<u8>, off: nat)
    requires off + 4 <= |s|
    ensures U32At(s, off) == LeAt(s, off, 4)
  {
    var t := s[off..off + 4];
    LeValueSplit(t, 2);
    Pow2Widths();
    U16AtIsLe(s, off);
    U16AtIsLe(s, off + 2);
    assert t[..2] == s[off..off + 2];
    assert t[2..] == s[off + 2..off + 4];
  }

  lemma U64AtIsLe(s: seq<u8>, off: nat)
    requires off + 8 <= |s|
    ensures U64At(s, off) == LeAt(s, off, 8)
  {
    var t := s[off..off + 8];
    LeValueSplit(t, 4);
    Pow2Widths();
    U32AtIsLe(s, off);
    U32AtIsLe(s, off + 4);
    assert t[..4] == s[off..off + 4];
    assert t[4..] == s[off + 4..off + 8];
  }

  /** Writing `bytes` over `s` at `off`, leaving the rest of `s` as it was. */
  function Overwrite(s: seq<u8>, off: nat, bytes: seq<u8>): (r: seq<u8>)
    requires off + |bytes| <= |s|
    ensures |r| == |s|
    ensures r[off..off + |bytes|] == bytes
    ensures forall k :: 0 <= k < |s| && !(off <= k < off + |bytes|) ==> r[k] == s[k]
  {
    s[..off] + bytes + s[off + |bytes|..]
  }

  /** A field written with `LeBytes` reads back with `LeAt`. */
  lemma FieldRoundTrip(s: seq<u8>, off: nat, n: nat, width: nat)
    requires n < Pow2(8 * width)
    requires off + width <= |s|
    ensures LeAt(Overwrite(s, off, LeBytes(n, width)), off, width) == n
  {
    LeValueOfBytes(n, width);
  }

  /** Bitwise or of two naturals, bit by bit from the least significant. The flags of a node
      are kept as a `uint` and or-ed arithmetically. */
  function BitOr(a: nat, b: nat): nat
    decreases a + b
  {
    if a == 0 then b
    else if b == 0 then a
    else 2 * BitOr(a / 2, b / 2) + (if a % 2 == 1 || b % 2 == 1 then 1 else 0)
  }

  lemma {:induction false} BitOrBelow(a: nat, b: nat, n: nat)
    requires a < Pow2(n) && b < Pow2(n)
    ensures BitOr(a, b) < Pow2(n)
    decreases a + b
  {
    if a != 0 && b != 0 {
      BitOrBelow(a / 2, b / 2, n - 1);
    }
  }

  /** `a | b` on `uint`. */
  function Or32(a: u32, b: u32): (r: u32)
  {
    Pow2Widths();
    BitOrBelow(a, b, 32);
    BitOr(a, b)
  }

  /** Every bit set in `a` is set in `b`. */
  predicate Covers(a: nat, b: nat) {
    BitOr(a, b) == b
  }

  lemma {:induction false} BitOrAssociative(a: nat, b: nat, c: nat)
    ensures BitOr(BitOr(a, b), c) == BitOr(a, BitOr(b, c))
    decreases a + b + c
  {
    if a != 0 && b != 0 && c != 0 {
      BitOrAssociative(a / 2, b / 2, c / 2);
      BitOrHalves(a, b);
      BitOrHalves(b, c);
      BitOrHalves(BitOr(a, b), c);
      BitOrHalves(a, BitOr(b, c));
    }
  }

  /** The halves and parity of an or. */
  lemma BitOrHalves(a: nat, b: nat)
    ensures BitOr(a, b) / 2 == BitOr(a / 2, b / 2)
    ensures BitOr(a, b) % 2 == (if a % 2 == 1 || b % 2 == 1 then 1 else 0)
    ensures BitOr(a, b) == 0 <==> a == 0 && b == 0
  {
    if a != 0 && b != 0 {
      assert BitOr(a, b) == 2 * BitOr(a / 2, b / 2) + (if a % 2 == 1 || b % 2 == 1 then 1 else 0);
    }
  }

  lemma {:induction false} BitOrIdempotent(a: nat)
    ensures BitOr(a, a) == a
    decreases a
  {
    if a != 0 {
      BitOrIdempotent(a / 2);
    }
  }

  /** Or-ing more bits in keeps every bit already set. */
  lemma CoveredByOr(a: nat, b: nat)
    ensures Covers(a, BitOr(a, b))
  {
    BitOrAssociative(a, a, b);
    BitOrIdempotent(a);
  }

  lemma CoversTransitive(a: nat, b: nat, c: nat)
    requires Covers(a, b) && Covers(b, c)
    ensures Covers(a, c)
  {
    BitOrAssociative(a, b, c);
  }
}
