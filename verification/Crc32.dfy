/** FrameProtocol::CalculateCrc32, proved against polynomial division over GF(2). */
module Crc32 {
  import opened Bytes
  import opened Gf2

  const POLY: Uint32 := 0xEDB8_8320
  const ALL_ONES: Uint32 := 0xFFFF_FFFF

  function Shift(r: Uint32): Uint32 {
    if r % 2 == 1 then Xor32(r / 2, POLY) else r / 2
  }

  function ShiftN(r: Uint32, n: nat): Uint32
    decreases n, r
  {
    if n == 0 then r else ShiftN(Shift(r), n - 1)
  }

  /** The register after a byte string. */
  function Register(r: Uint32, data: seq<Byte>): Uint32
    decreases |data|
  {
    if data == [] then r else Register(ShiftN(Xor32(r, data[0]), 8), data[1..])
  }

  function Crc(data: seq<Byte>): Uint32 {
    ALL_ONES - Register(ALL_ONES, data)
  }

  /** crc ^ byte, crc >> 1, crc & 1 and ~crc of the source are Xor32, / 2, % 2 and ALL_ONES - crc. */
  method CalculateCrc32(data: seq<Byte>) returns (checksum: Uint32)
    ensures checksum == Crc(data)
  {
    if |data| == 0 {
      return 0;
    }
    var crc := ALL_ONES;
    for i := 0 to |data|
      invariant Register(crc, data[i..]) == Register(ALL_ONES, data)
    {
      ghost var next := ShiftN(Xor32(crc, data[i]), 8);
      assert Register(next, data[i + 1..]) == Register(ALL_ONES, data) by {
        assert data[i..][0] == data[i] && data[i..][1..] == data[i + 1..];
      }
      crc := Xor32(crc, data[i]);
      for j := 0 to 8
        invariant ShiftN(crc, 8 - j) == next
      {
        ghost var shifted := Shift(crc);
        assert ShiftN(shifted, 8 - (j + 1)) == next;
        if crc % 2 == 1 {
          crc := Xor32(crc / 2, POLY);
        } else {
          crc := crc / 2;
        }
        assert crc == shifted;
      }
    }
    checksum := ALL_ONES - crc;
  }

  // ----- the message as a bit stream, and the register as a polynomial

  function Bit(n: nat, i: nat): bool
    decreases i
  {
    if i == 0 then n % 2 == 1 else Bit(n / 2, i - 1)
  }

  /** The k low bits of a number, least significant first. */
  function BitsOf(n: nat, k: nat): (bits: Poly)
    ensures |bits| == k && forall i :: 0 <= i < k ==> bits[i] == Bit(n, i)
  {
    seq(k, i requires 0 <= i < k => Bit(n, i))
  }

  /** The bits of a message in the order in which they are transmitted. */
  function Bits(data: seq<Byte>): (bits: Poly)
    ensures |bits| == 8 * |data|
  {
    if data == [] then [] else BitsOf(data[0], 8) + Bits(data[1..])
  }

  /** The register is reflected: its low bit is the coefficient of x^31. */
  function Coefficients(r: Uint32): (p: Poly)
    ensures |p| == 32
  {
    BitsOf(r, 32)
  }

  /** G(x) of section 3.2.9 of IEEE 802.3. */
  function Ieee8023(): (g: Poly)
    ensures |g| == 33 && g[0] && g[32]
  {
    seq(33, i => 32 - i in {32, 26, 23, 22, 16, 12, 11, 10, 8, 7, 5, 4, 2, 1, 0})
  }

  /** The k bits of n, low bit first, are the coefficients of G(x) below x^k. */
  predicate MatchesTail(n: nat, k: nat)
    decreases k, n
  {
    k == 0 ||
    (((n % 2 == 1) <==> k - 1 in {26, 23, 22, 16, 12, 11, 10, 8, 7, 5, 4, 2, 1, 0}) && MatchesTail(n / 2, k - 1))
  }

  lemma {:induction false} MatchedBit(n: nat, k: nat, i: nat)
    requires i < k <= 32 && MatchesTail(n, k)
    ensures Bit(n, i) <==> k - 1 - i in {26, 23, 22, 16, 12, 11, 10, 8, 7, 5, 4, 2, 1, 0}
    decreases i
  {
    if i > 0 {
      MatchedBit(n / 2, k - 1, i - 1);
    }
  }

  lemma {:induction false} HighHalfMatches()
    ensures MatchesTail(0xEDB8, 16)
  {
    assert MatchesTail(0xE, 4);
    assert MatchesTail(0xED, 8);
    assert MatchesTail(0xEDB, 12);
  }

  lemma {:induction false} PolyMatches()
    ensures MatchesTail(POLY, 32)
  {
    HighHalfMatches();
    assert MatchesTail(0xE_DB88, 20);
    assert MatchesTail(0xED_B883, 24);
    assert MatchesTail(0xEDB_8832, 28);
  }

  lemma {:induction false} PolyIsIeee8023()
    ensures Ieee8023()[1..] == Coefficients(POLY)
  {
    PolyMatches();
    forall i | 0 <= i < 32 ensures Ieee8023()[1..][i] == Coefficients(POLY)[i] {
      MatchedBit(POLY, 32, i);
    }
  }

  lemma {:induction false} BitXor(a: nat, b: nat, i: nat)
    ensures Bit(XorNat(a, b), i) <==> Bit(a, i) != Bit(b, i)
    decreases i
  {
    XorHalves(a, b);
    if i > 0 {
      BitXor(a / 2, b / 2, i - 1);
    }
  }

  lemma {:induction false} BitsOfXor(a: nat, b: nat, k: nat)
    ensures BitsOf(XorNat(a, b), k) == Xor(BitsOf(a, k), BitsOf(b, k))
  {
    forall i | 0 <= i < k ensures Bit(XorNat(a, b), i) <==> Bit(a, i) != Bit(b, i) {
      BitXor(a, b, i);
    }
  }

  lemma {:induction false} SameBits(a: nat, b: nat, k: nat)
    requires a < Pow2(k) && b < Pow2(k) && forall i :: 0 <= i < k ==> Bit(a, i) == Bit(b, i)
    ensures a == b
    decreases k
  {
    if k > 0 {
      forall i | 0 <= i < k - 1 ensures Bit(a / 2, i) == Bit(b / 2, i) {
        assert Bit(a, i + 1) == Bit(b, i + 1);
      }
      SameBits(a / 2, b / 2, k - 1);
      assert Bit(a, 0) == Bit(b, 0);
    }
  }

  lemma {:induction false} BitsOfInjective(a: nat, b: nat, k: nat)
    requires a < Pow2(k) && b < Pow2(k) && BitsOf(a, k) == BitsOf(b, k)
    ensures a == b
  {
    forall i | 0 <= i < k ensures Bit(a, i) == Bit(b, i) {
      assert BitsOf(a, k)[i] == BitsOf(b, k)[i];
    }
    SameBits(a, b, k);
  }

  /** A number below 2^k has no bits beyond the k-th. */
  lemma {:induction false} HighBit(n: nat, k: nat, i: nat)
    requires n < Pow2(k) && k <= i
    ensures !Bit(n, i)
    decreases i
  {
    if k > 0 {
      HighBit(n / 2, k - 1, i - 1);
    } else if i > 0 {
      HighBit(0, 0, i - 1);
    }
  }

  lemma {:induction false} HalfBits(r: Uint32)
    ensures BitsOf(r / 2, 32) == Coefficients(r)[1..] + [false]
  {
    Pow2Words();
    HighBit(r, 32, 32);
    var l, x := BitsOf(r / 2, 32), Coefficients(r)[1..] + [false];
    forall i | 0 <= i < 32 ensures l[i] == x[i] {
      assert Bit(r, i + 1) == Bit(r / 2, i);
    }
  }

  lemma {:induction false} ShiftIsClock(r: Uint32)
    ensures Coefficients(Shift(r)) == Clock(Coefficients(r), false, Ieee8023())
  {
    HalfBits(r);
    PolyIsIeee8023();
    assert Coefficients(r)[0] == Bit(r, 0);
    if r % 2 == 1 {
      BitsOfXor(r / 2, POLY, 32);
    } else {
      assert Xor(BitsOf(r / 2, 32), Zeros(32)) == BitsOf(r / 2, 32);
    }
  }

  lemma {:induction false} ShiftNIsFeed(r: Uint32, n: nat)
    ensures Coefficients(ShiftN(r, n)) == Feed(Coefficients(r), Zeros(n), Ieee8023())
    decreases n
  {
    if n > 0 {
      ShiftIsClock(r);
      ShiftNIsFeed(Shift(r), n - 1);
      assert Zeros(n)[1..] == Zeros(n - 1);
    }
  }

  /** A byte added to the register and then shifted through is its eight bits, fed one at a time. */
  lemma {:induction false} ByteIsFeed(r: Uint32, b: Byte)
    ensures Coefficients(ShiftN(Xor32(r, b), 8)) == Feed(Coefficients(r), BitsOf(b, 8), Ieee8023())
  {
    Pow2Words();
    forall i | 8 <= i < 32 ensures !Bit(b, i) {
      HighBit(b, 8, i);
    }
    assert Coefficients(b) == BitsOf(b, 8) + Zeros(24);
    BitsOfXor(r, b, 32);
    FeedAhead(Coefficients(r), BitsOf(b, 8), Ieee8023());
    ShiftNIsFeed(Xor32(r, b), 8);
  }

  lemma {:induction false} RegisterIsFeed(r: Uint32, data: seq<Byte>)
    ensures Coefficients(Register(r, data)) == Feed(Coefficients(r), Bits(data), Ieee8023())
    decreases |data|
  {
    if data != [] {
      ByteIsFeed(r, data[0]);
      RegisterIsFeed(ShiftN(Xor32(r, data[0]), 8), data[1..]);
      FeedConcat(Coefficients(r), BitsOf(data[0], 8), Bits(data[1..]), Ieee8023());
    }
  }

  // ----- the checksum is the one of section 3.2.9 of IEEE 802.3

  lemma {:induction false} BitNot(r: nat, k: nat, i: nat)
    requires r < Pow2(k) && i < k
    ensures Bit(Pow2(k) - 1 - r, i) <==> !Bit(r, i)
    decreases i
  {
    var n := Pow2(k) - 1 - r;
    assert n / 2 == Pow2(k - 1) - 1 - r / 2 && n % 2 != r % 2;
    if i > 0 {
      BitNot(r / 2, k - 1, i - 1);
    }
  }

  /** The message bits, 32 zeros after them, and the first 32 bits of all that complemented. */
  function Ieee8023Dividend(data: seq<Byte>): (p: Poly)
    ensures |p| == 8 * |data| + 32
  {
    var m := Bits(data) + Zeros(32);
    Complement(m[..32]) + m[32..]
  }

  lemma {:induction false} ComplementedRegister(r: Uint32)
    ensures Coefficients(ALL_ONES - r) == Complement(Coefficients(r))
  {
    Pow2Words();
    forall i | 0 <= i < 32 ensures Bit(ALL_ONES - r, i) <==> !Bit(r, i) {
      BitNot(r, 32, i);
    }
  }

  lemma {:induction false} StartRegister()
    ensures Coefficients(ALL_ONES) == Complement(Zeros(32))
  {
    forall i | 0 <= i < 32 ensures !Bit(0, i) {
      HighBit(0, 0, i);
    }
    ComplementedRegister(0);
    assert Coefficients(0) == Zeros(32);
  }

  lemma {:induction false} PresetOnes(m: Poly)
    ensures Preset(Complement(Zeros(32)), m) == Complement((m + Zeros(32))[..32]) + (m + Zeros(32))[32..]
  {
    var ones, mz := Complement(Zeros(32)), m + Zeros(32);
    var l, r := Preset(ones, m), Complement(mz[..32]) + mz[32..];
    forall i | 0 <= i < |l| ensures l[i] == r[i] {
      assert l[i] == ((ones + Zeros(|m|))[i] != mz[i]);
    }
  }

  lemma {:induction false} RegisterIsRemainder(data: seq<Byte>)
    ensures Coefficients(Register(ALL_ONES, data)) == Rem(Ieee8023Dividend(data), Ieee8023())
  {
    StartRegister();
    RegisterIsFeed(ALL_ONES, data);
    FeedIsRem(Complement(Zeros(32)), Bits(data), Ieee8023());
    PresetOnes(Bits(data));
  }

  lemma {:induction false} ComplementTwice(p: Poly)
    ensures Complement(Complement(p)) == p
  {
  }

  lemma {:induction false} CrcFromRemainder(data: seq<Byte>)
    ensures Complement(Coefficients(Crc(data))) == Rem(Ieee8023Dividend(data), Ieee8023())
  {
    var reg := Register(ALL_ONES, data);
    var c := Coefficients(reg);
    ComplementedRegister(reg);
    assert Coefficients(Crc(data)) == Complement(c);
    ComplementTwice(c);
    RegisterIsRemainder(data);
  }

  /** The checksum is the complemented remainder, for every message, and nothing else is the remainder. */
  lemma {:induction false} CrcIsIeee8023(data: seq<Byte>, r: Poly)
    ensures IsRemainder(Ieee8023Dividend(data), Ieee8023(), r) <==> r == Complement(Coefficients(Crc(data)))
  {
    CrcFromRemainder(data);
    RemIsTheRemainder(Ieee8023Dividend(data), Ieee8023(), r);
  }

  // ----- error detection

  lemma {:induction false} BitsXor(a: seq<Byte>, b: seq<Byte>)
    requires |a| == |b|
    ensures Bits(XorBytes(a, b)) == Xor(Bits(a), Bits(b))
    decreases |a|
  {
    if a != [] {
      BitsOfXor(a[0], b[0], 8);
      BitsXor(a[1..], b[1..]);
      assert XorBytes(a, b)[1..] == XorBytes(a[1..], b[1..]);
    }
  }

  /** The register is a linear function of its start value and the message. */
  lemma {:induction false} RegisterLinear(r: Uint32, r': Uint32, a: seq<Byte>, b: seq<Byte>)
    requires |a| == |b|
    ensures Register(Xor32(r, r'), XorBytes(a, b)) == Xor32(Register(r, a), Register(r', b))
  {
    var l, x := Register(Xor32(r, r'), XorBytes(a, b)), Xor32(Register(r, a), Register(r', b));
    RegisterIsFeed(Xor32(r, r'), XorBytes(a, b));
    RegisterIsFeed(r, a);
    RegisterIsFeed(r', b);
    BitsXor(a, b);
    BitsOfXor(r, r', 32);
    BitsOfXor(Register(r, a), Register(r', b), 32);
    FeedLinear(Coefficients(r), Coefficients(r'), Bits(a), Bits(b), Ieee8023());
    Pow2Words();
    BitsOfInjective(l, x, 32);
  }

  lemma {:induction false} BitsSlice(data: seq<Byte>, i: nat)
    requires i <= |data|
    ensures Bits(data)[..8 * i] == Bits(data[..i]) && Bits(data)[8 * i..] == Bits(data[i..])
    decreases i
  {
    if i > 0 {
      var rest, first := data[1..], data[..i];
      assert first[1..] == rest[..i - 1] && rest[i - 1..] == data[i..] && first[0] == data[0];
      BitsSlice(rest, i - 1);
      CutBehind(BitsOf(data[0], 8), Bits(rest), 8 * (i - 1));
    }
  }

  lemma {:induction false} CutBehind(h: Poly, t: Poly, k: nat)
    requires k <= |t|
    ensures (h + t)[..|h| + k] == h + t[..k] && (h + t)[|h| + k..] == t[k..]
  {
  }

  lemma {:induction false} BitsInjective(a: seq<Byte>, b: seq<Byte>)
    requires |a| == |b| && Bits(a) == Bits(b)
    ensures a == b
    decreases |a|
  {
    if a != [] {
      BitsSlice(a, 1);
      BitsSlice(b, 1);
      BitsInjective(a[1..], b[1..]);
      assert a[..1] == [a[0]] && b[..1] == [b[0]];
      assert Bits([a[0]]) == BitsOf(a[0], 8) && Bits([b[0]]) == BitsOf(b[0], 8);
      Pow2Words();
      BitsOfInjective(a[0], b[0], 8);
    }
  }

  /** a and b differ, but only in 32 consecutive bits of the transmission order, from bit i on. */
  predicate BitBurst(a: seq<Byte>, b: seq<Byte>, i: nat) {
    |a| == |b| && a != b && i <= 8 * |a| &&
    Bits(a)[..i] == Bits(b)[..i] && (i + 32 <= 8 * |a| ==> Bits(a)[i + 32..] == Bits(b)[i + 32..])
  }

  /** No burst of up to 32 bits leaves the checksum as it was. */
  lemma {:induction false} BurstChangesCrc(a: seq<Byte>, b: seq<Byte>, i: nat)
    requires BitBurst(a, b, i)
    ensures Crc(a) != Crc(b)
  {
    var j := if i + 32 <= 8 * |a| then i + 32 else 8 * |a|;
    if Bits(a) == Bits(b) {
      BitsInjective(a, b);
    }
    Gf2.BurstDetected(Coefficients(ALL_ONES), Bits(a), Bits(b), i, j, Ieee8023());
    RegisterIsFeed(ALL_ONES, a);
    RegisterIsFeed(ALL_ONES, b);
  }
}
