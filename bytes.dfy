/**
 * Byte- and bit-level conversions used by the register encoder and the block
 * store: Python's `int.to_bytes(n, len, 'big')`, struct's `'>I'`, bitarray's
 * most-significant-bit-first packing, and `|` on non-negative integers.
 */
module Bytes {
  import opened Errors

  type Byte = x: int | 0 <= x < 256

  function Pow(base: nat, n: nat): (r: nat)
    ensures base >= 1 ==> r >= 1
  {
    if n == 0 then 1 else base * Pow(base, n - 1)
  }

  /** `n` bits of value zero (the padding bitarray adds, a blank block's bytes are separate). */
  function ZeroBits(n: nat): (bits: seq<bool>)
    ensures |bits| == n && forall i :: 0 <= i < n ==> !bits[i]
  {
    seq(n, _ => false)
  }

  // ---------------------------------------------------------------- bytes

  /** The value of `bs` read most significant byte first. */
  function FromBigEndian(bs: seq<Byte>): (n: nat)
    ensures n < Pow(256, |bs|)
  {
    if bs == [] then 0 else FromBigEndian(bs[..|bs| - 1]) * 256 + bs[|bs| - 1]
  }

  /** The `len` bytes of `n`, most significant first; decoding them gives `n` back. */
  function BigEndian(n: nat, len: nat): (bs: seq<Byte>)
    requires n < Pow(256, len)
    ensures |bs| == len && FromBigEndian(bs) == n
  {
    if len == 0 then [] else BigEndian(n / 256, len - 1) + [n % 256]
  }

  /** Encoding is also a left inverse of decoding: no two byte strings of one length share a value. */
  lemma {:induction false} BigEndianOfValue(bs: seq<Byte>)
    ensures BigEndian(FromBigEndian(bs), |bs|) == bs
  {
    if bs != [] {
      var init, last := bs[..|bs| - 1], bs[|bs| - 1];
      BigEndianOfValue(init);
      DivMod256(FromBigEndian(init), last);
      assert init + [last] == bs;
    }
  }

  /** Dividing `256 x + d` by 256, with `d` a byte, gives back `x` and `d`. */
  lemma DivMod256(x: nat, d: nat)
    requires d < 256
    ensures (x * 256 + d) / 256 == x && (x * 256 + d) % 256 == d
  {
  }

  /** Dividing `2 x + d` by 2, with `d` a bit, gives back `x` and `d`. */
  lemma DivMod2(x: nat, d: nat)
    requires d < 2
    ensures (2 * x + d) / 2 == x && (2 * x + d) % 2 == d
  {
  }

  /** `int.to_bytes(n, len, 'big')`: OverflowError unless `0 <= n < 256^len`. */
  function ToBytes(n: int, len: nat): (r: Result<seq<Byte>>)
    ensures r.Ok? <==> 0 <= n < Pow(256, len)
    ensures r.Ok? ==> |r.value| == len && FromBigEndian(r.value) == n
  {
    if 0 <= n < Pow(256, len) then Ok(BigEndian(n, len)) else Err(OverflowError)
  }

  // ---------------------------------------------------------------- bits

  /** The value of a bit string read most significant bit first. */
  function ValueOf(bits: seq<bool>): (v: nat)
    ensures v < Pow(2, |bits|)
  {
    if bits == [] then 0
    else 2 * ValueOf(bits[..|bits| - 1]) + (if bits[|bits| - 1] then 1 else 0)
  }

  /** The `width` low bits of `v`, most significant first; reading them gives `v` back. */
  function BitsOf(v: nat, width: nat): (bits: seq<bool>)
    requires v < Pow(2, width)
    ensures |bits| == width && ValueOf(bits) == v
  {
    if width == 0 then [] else BitsOf(v / 2, width - 1) + [v % 2 == 1]
  }

  lemma {:induction false} BitsOfValue(bits: seq<bool>)
    ensures BitsOf(ValueOf(bits), |bits|) == bits
  {
    if bits != [] {
      var init := bits[..|bits| - 1];
      BitsOfValue(init);
      assert init + [bits[|bits| - 1]] == bits;
    }
  }

  /** Appending a bit doubles the value and adds the bit. */
  lemma ValueOfSnoc(s: seq<bool>, x: bool)
    ensures ValueOf(s + [x]) == 2 * ValueOf(s) + (if x then 1 else 0)
  {
    FrontLast(s, x);
  }

  /** Reading `a + b` reads `a` shifted left by the length of `b`, plus `b`. */
  lemma {:induction false} ValueOfAppend(a: seq<bool>, b: seq<bool>)
    ensures ValueOf(a + b) == ValueOf(a) * Pow(2, |b|) + ValueOf(b)
  {
    if b == [] {
      assert a + b == a;
    } else {
      var init, last := b[..|b| - 1], b[|b| - 1];
      ValueOfAppend(a, init);
      SplitLast(a, b);
      ValueOfSnoc(a + init, last);
      ValueOfSnoc(init, last);
      ShiftStep(ValueOf(a), Pow(2, |init|), ValueOf(init));
    }
  }

  lemma ShiftStep(v: nat, p: nat, w: nat)
    ensures 2 * (v * p + w) == v * (2 * p) + 2 * w
  {
  }

  /** Subtracting `b p` from `a p` leaves `(a - b) p`. */
  lemma Distrib(a: int, b: int, p: int)
    ensures a * p - b * p == (a - b) * p
  {
  }

  lemma {:induction false} MulAtLeast(x: nat, p: nat)
    requires 1 <= x
    ensures p <= x * p
  {
    if x > 1 {
      MulAtLeast(x - 1, p);
      assert x * p == (x - 1) * p + p;
    }
  }

  /** A remainder below the modulus is what `%` gives back. */
  lemma ModOfSum(q: nat, r: nat, p: nat)
    requires r < p
    ensures (q * p + r) % p == r
  {
    var m := q * p + r;
    var d, s := m / p, m % p;
    assert m == d * p + s;
    Distrib(d, q, p);
    if d > q {
      MulAtLeast(d - q, p);
      assert false;
    } else if d < q {
      MulAtLeast(q - d, p);
      Distrib(q, d, p);
      assert false;
    }
  }

  /** The last `k` bits of a string read as its value modulo 2^k. */
  lemma LowBits(bits: seq<bool>, k: nat)
    requires k <= |bits|
    ensures ValueOf(bits[|bits| - k..]) == ValueOf(bits) % Pow(2, k)
  {
    var head, tail := bits[..|bits| - k], bits[|bits| - k..];
    assert head + tail == bits;
    ValueOfAppend(head, tail);
    ModOfSum(ValueOf(head), ValueOf(tail), Pow(2, k));
  }

  lemma {:induction false} BitsOfZero(width: nat)
    ensures BitsOf(0, width) == ZeroBits(width)
  {
    if width > 0 {
      BitsOfZero(width - 1);
    }
  }

  /** A byte string as bits, each byte most significant bit first (bitarray.frombytes). */
  function BytesToBits(bs: seq<Byte>): (bits: seq<bool>)
    ensures |bits| == 8 * |bs|
  {
    if bs == [] then [] else BytesToBits(bs[..|bs| - 1]) + BitsOf(bs[|bs| - 1], 8)
  }

  lemma {:induction false} BytesToBitsAppend(a: seq<Byte>, b: seq<Byte>)
    ensures BytesToBits(a + b) == BytesToBits(a) + BytesToBits(b)
  {
    if b == [] {
      assert a + b == a;
      assert BytesToBits(a) + [] == BytesToBits(a);
    } else {
      var init, last := b[..|b| - 1], b[|b| - 1];
      BytesToBitsAppend(a, init);
      SplitLast(a, b);
      BytesToBitsSnoc(a + init, last);
      BytesToBitsSnoc(init, last);
      Assoc(BytesToBits(a), BytesToBits(init), BytesToBits([last]));
    }
  }

  lemma Assoc<T>(x: seq<T>, y: seq<T>, z: seq<T>)
    ensures (x + y) + z == x + (y + z)
  {
  }

  /** A non-empty `b` is its front followed by its last element, also after a prefix `a`. */
  lemma SplitLast<T>(a: seq<T>, b: seq<T>)
    requires b != []
    ensures b == b[..|b| - 1] + [b[|b| - 1]]
    ensures a + b == (a + b[..|b| - 1]) + [b[|b| - 1]]
  {
  }

  /** The front and the last element of `p + [x]` are `p` and `x`. */
  lemma FrontLast<T>(p: seq<T>, x: T)
    ensures (p + [x])[..|p|] == p && (p + [x])[|p|] == x && [x][..0] == []
  {
  }

  /** Appending a byte appends its eight bits. */
  lemma BytesToBitsSnoc(p: seq<Byte>, b: Byte)
    ensures BytesToBits(p + [b]) == BytesToBits(p) + BytesToBits([b])
  {
    FrontLast(p, b);
    FrontLast([], b);
  }

  /** The bits of a byte string read as its big-endian value. */
  lemma {:induction false} ValueOfBytes(bs: seq<Byte>)
    ensures ValueOf(BytesToBits(bs)) == FromBigEndian(bs)
  {
    if bs != [] {
      var init, last := bs[..|bs| - 1], bs[|bs| - 1];
      ValueOfBytes(init);
      assert Pow(2, 8) == 256;
      ValueOfAppend(BytesToBits(init), BitsOf(last, 8));
    }
  }

  /** Bits missing to make `n` bits a whole number of bytes. */
  function PadLength(n: nat): (p: nat)
    ensures p < 8 && (n + p) % 8 == 0
  {
    (8 - n % 8) % 8
  }

  /** Eight bits read as a number are a byte whose bits they are. */
  lemma ByteOfBits(bits: seq<bool>)
    requires |bits| == 8
    ensures Pow(2, 8) == 256 && ValueOf(bits) < 256 && BitsOf(ValueOf(bits), 8) == bits
  {
    assert Pow(2, 8) == 256;
    BitsOfValue(bits);
  }

  /** Packs a whole number of bytes' worth of bits, eight at a time, MSB first. */
  function PackAligned(bits: seq<bool>): (bs: seq<Byte>)
    requires |bits| % 8 == 0
    ensures |bs| == |bits| / 8 && BytesToBits(bs) == bits
  {
    if bits == [] then []
    else
      Div8Step(|bits|);
      var p := PackAligned(bits[..|bits| - 8]);
      PackStep(bits, p);
      p + [ValueOf(bits[|bits| - 8..])]
  }

  /** Packing all but the last eight bits, then the byte those eight bits read as, packs all of them. */
  lemma PackStep(bits: seq<bool>, p: seq<Byte>)
    requires 8 <= |bits| && BytesToBits(p) == bits[..|bits| - 8]
    ensures ValueOf(bits[|bits| - 8..]) < 256
    ensures BytesToBits(p + [ValueOf(bits[|bits| - 8..])]) == bits
  {
    var init, last := bits[..|bits| - 8], bits[|bits| - 8..];
    ByteOfBits(last);
    var b: Byte := ValueOf(last);
    BytesToBitsSnoc(p, b);
    FrontLast([], b);
    Halves(bits, |bits| - 8);
  }

  /** A sequence is its first n elements followed by the rest. */
  lemma Halves<T>(s: seq<T>, n: nat)
    requires n <= |s|
    ensures s[..n] + s[n..] == s
  {
  }

  /** A non-zero multiple of 8 less 8 is a multiple of 8 with one byte fewer. */
  lemma Div8Step(n: nat)
    requires 0 < n && n % 8 == 0
    ensures 8 <= n && (n - 8) % 8 == 0 && (n - 8) / 8 + 1 == n / 8
  {
  }

  /** bitarray.tobytes(): eight bits to a byte, MSB first, the last byte padded with zero bits. */
  function PackBits(bits: seq<bool>): (bs: seq<Byte>)
    ensures |bs| == (|bits| + 7) / 8
    ensures BytesToBits(bs) == bits + ZeroBits(PadLength(|bits|))
  {
    PackAligned(bits + ZeroBits(PadLength(|bits|)))
  }

  // ---------------------------------------------------------------- bitwise or

  /** Python's `a | b` on non-negative integers; never below either operand. */
  function BitOr(a: nat, b: nat): (r: nat)
    ensures a <= r && b <= r
    decreases a + b
  {
    if a == 0 then b
    else if b == 0 then a
    else 2 * BitOr(a / 2, b / 2) + (if a % 2 == 1 || b % 2 == 1 then 1 else 0)
  }

  /** `r` is the bitwise or of the equally long bit strings `a` and `b`. */
  predicate OrOf(r: seq<bool>, a: seq<bool>, b: seq<bool>) {
    && |r| == |a| == |b|
    && forall i :: 0 <= i < |r| ==> r[i] == (a[i] || b[i])
  }

  lemma OrSnoc(r: seq<bool>, a: seq<bool>, b: seq<bool>, x: bool, y: bool, z: bool)
    requires OrOf(r, a, b) && x == (y || z)
    ensures OrOf(r + [x], a + [y], b + [z])
  {
    var r', a', b' := r + [x], a + [y], b + [z];
    forall i | 0 <= i < |r'|
      ensures r'[i] == (a'[i] || b'[i])
    {
      if i < |r| {
        assert r'[i] == r[i] && a'[i] == a[i] && b'[i] == b[i];
      }
    }
  }

  /** Or-ing with a string of zeros leaves the other operand unchanged. */
  lemma OrZero(a: seq<bool>, b: seq<bool>)
    requires |a| == |b| && (a == ZeroBits(|a|) || b == ZeroBits(|b|))
    ensures a == ZeroBits(|a|) ==> OrOf(b, a, b)
    ensures b == ZeroBits(|b|) ==> OrOf(a, a, b)
  {
  }

  /** When `r` is `2 h + d`, its `width` bits are the `width - 1` bits of `h` followed by bit `d`. */
  lemma BitsOfSnoc(r: nat, h: nat, d: nat, width: nat)
    requires 0 < width && h < Pow(2, width - 1) && d < 2 && r == 2 * h + d
    ensures r < Pow(2, width)
    ensures BitsOf(r, width) == BitsOf(h, width - 1) + [d == 1]
  {
    DivMod2(h, d);
  }

  /** `a | b` keeps the width of its operands, and bit `i` of it is set exactly when bit `i` of `a` or of `b` is. */
  lemma {:induction false} BitOrBits(a: nat, b: nat, width: nat)
    requires a < Pow(2, width) && b < Pow(2, width)
    ensures BitOr(a, b) < Pow(2, width)
    ensures OrOf(BitsOf(BitOr(a, b), width), BitsOf(a, width), BitsOf(b, width))
  {
    if width == 0 {
    } else if a == 0 || b == 0 {
      BitsOfZero(width);
      OrZero(BitsOf(a, width), BitsOf(b, width));
    } else {
      assert Pow(2, width) == 2 * Pow(2, width - 1);
      BitOrBits(a / 2, b / 2, width - 1);
      BitOrStep(a, b, width);
    }
  }

  /** The low bit of `a | b` is the or of the operands' low bits, the others are `a / 2 | b / 2`. */
  lemma BitOrStep(a: nat, b: nat, width: nat)
    requires 0 < width && 0 < a < Pow(2, width) && 0 < b < Pow(2, width)
    requires a / 2 < Pow(2, width - 1) && b / 2 < Pow(2, width - 1)
    requires BitOr(a / 2, b / 2) < Pow(2, width - 1)
    requires OrOf(BitsOf(BitOr(a / 2, b / 2), width - 1), BitsOf(a / 2, width - 1), BitsOf(b / 2, width - 1))
    ensures BitOr(a, b) < Pow(2, width)
    ensures OrOf(BitsOf(BitOr(a, b), width), BitsOf(a, width), BitsOf(b, width))
  {
    var h, bit := BitOr(a / 2, b / 2), if a % 2 == 1 || b % 2 == 1 then 1 else 0;
    BitOrLow(a, b);
    BitsOfSnoc(BitOr(a, b), h, bit, width);
    BitsOfLow(a, width);
    BitsOfLow(b, width);
    OrSnoc(BitsOf(h, width - 1), BitsOf(a / 2, width - 1), BitsOf(b / 2, width - 1),
           bit == 1, a % 2 == 1, b % 2 == 1);
  }

  lemma BitOrLow(a: nat, b: nat)
    requires 0 < a && 0 < b
    ensures BitOr(a, b) == 2 * BitOr(a / 2, b / 2) + (if a % 2 == 1 || b % 2 == 1 then 1 else 0)
  {
  }

  /** The last of the `width` bits of `v` is its low bit, the others are the bits of `v / 2`. */
  lemma BitsOfLow(v: nat, width: nat)
    requires 0 < width && v < Pow(2, width) && v / 2 < Pow(2, width - 1)
    ensures BitsOf(v, width) == BitsOf(v / 2, width - 1) + [v % 2 == 1]
  {
  }
}
