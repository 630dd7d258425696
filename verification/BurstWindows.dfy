/**
 * Damage to four consecutive bytes of a frame. The checksum is sent most significant byte first although
 * the register is reflected, so one window that reaches into the checksum is not safe; all others are.
 */
module BurstWindows {
  import opened Bytes
  import opened Channel
  import opened Gf2
  import opened Crc32
  import opened FrameProtocol
  import opened FrameDamage
  import opened StreamReceiver

  // ----- the coefficients that a register has after some clocks, in terms of the bits clocked out

  function Clocked(s: Poly, n: nat): (s': Poly)
    requires |s| == 32
    ensures |s'| == 32
  {
    Feed(s, Zeros(n), Ieee8023())
  }

  function Out(s: Poly, n: nat): bool
    requires |s| == 32
  {
    Clocked(s, n)[0]
  }

  /** The generator has a coefficient here, the high one left out. */
  predicate Tap(j: int) {
    LowTap(j) || HighTap(j)
  }

  predicate LowTap(j: int) {
    j == 5 || j == 8 || j == 9 || j == 15 || j == 19 || j == 20 || j == 21
  }

  predicate HighTap(j: int) {
    j == 23 || j == 24 || j == 26 || j == 27 || j == 29 || j == 30 || j == 31
  }

  lemma {:induction false} TapIsCoefficient(j: nat)
    requires j < 32
    ensures Tap(j) <==> Ieee8023()[j + 1]
  {
  }

  lemma {:induction false} ClockOnce(s: Poly, n: nat, j: nat)
    requires |s| == 32 && j < 32
    ensures Clocked(s, n + 1)[j] <==> ((j < 31 && Clocked(s, n)[j + 1]) != (Out(s, n) && Tap(j)))
  {
    var g, r := Ieee8023(), Clocked(s, n);
    assert Zeros(n + 1) == Zeros(n) + [false];
    FeedConcat(s, Zeros(n), [false], g);
    assert [false][1..] == [];
    assert Clocked(s, n + 1) == Clock(r, false, g);
    TapIsCoefficient(j);
    assert Clock(r, false, g)[j] == ((r[1..] + [false])[j] != Scale(r[0] != false, g[1..])[j]);
  }

  /** The m-th bit clocked out, of the first n. */
  predicate T(s: Poly, n: nat, m: int)
    requires |s| == 32
  {
    0 <= m < n && Out(s, m)
  }

  /** What the first n bits clocked out have added to coefficient j. */
  predicate Row(s: Poly, n: nat, j: int)
    requires |s| == 32
  {
    LowRow(s, n, j + n - 1) != HighRow(s, n, j + n - 1)
  }

  predicate LowRow(s: Poly, n: nat, k: int)
    requires |s| == 32
  {
    T(s, n, k - 5) != (T(s, n, k - 8) != (T(s, n, k - 9) != (T(s, n, k - 15) != (T(s, n, k - 19)
      != (T(s, n, k - 20) != T(s, n, k - 21))))))
  }

  predicate HighRow(s: Poly, n: nat, k: int)
    requires |s| == 32
  {
    T(s, n, k - 23) != (T(s, n, k - 24) != (T(s, n, k - 26) != (T(s, n, k - 27) != (T(s, n, k - 29)
      != (T(s, n, k - 30) != T(s, n, k - 31))))))
  }

  lemma {:induction false} LowRowStep(s: Poly, n: nat, j: nat)
    requires |s| == 32 && n > 0
    ensures LowRow(s, n, j + n - 1) <==> (LowRow(s, n - 1, j + n - 1) != (Out(s, n - 1) && LowTap(j)))
  {
  }

  lemma {:induction false} HighRowStep(s: Poly, n: nat, j: nat)
    requires |s| == 32 && n > 0
    ensures HighRow(s, n, j + n - 1) <==> (HighRow(s, n - 1, j + n - 1) != (Out(s, n - 1) && HighTap(j)))
  {
  }

  /** The same, clock by clock. */
  function Added(s: Poly, n: nat, j: nat): bool
    requires |s| == 32
    decreases n
  {
    if n == 0 then false else Added(s, n - 1, j + 1) != (Out(s, n - 1) && Tap(j))
  }

  lemma {:induction false} RowStep(s: Poly, n: nat, j: nat)
    requires |s| == 32 && n > 0
    ensures Row(s, n, j) <==> (Row(s, n - 1, j + 1) != (Out(s, n - 1) && Tap(j)))
  {
    LowRowStep(s, n, j);
    HighRowStep(s, n, j);
  }

  lemma {:induction false} NoRowYet(s: Poly, j: nat)
    requires |s| == 32
    ensures !Row(s, 0, j)
  {
  }

  lemma {:induction false} AddedIsRow(s: Poly, n: nat, j: nat)
    requires |s| == 32
    ensures Added(s, n, j) <==> Row(s, n, j)
    decreases n
  {
    if n == 0 {
      NoRowYet(s, j);
    } else {
      AddedIsRow(s, n - 1, j + 1);
      RowStep(s, n, j);
    }
  }

  lemma {:induction false} NothingAdded(s: Poly, n: nat, j: nat)
    requires |s| == 32 && j >= 32
    ensures !Added(s, n, j)
    decreases n
  {
    if n > 0 {
      NothingAdded(s, n - 1, j + 1);
    }
  }

  lemma {:induction false} ClockedIsAdded(s: Poly, n: nat, j: nat)
    requires |s| == 32 && j < 32
    ensures Clocked(s, n)[j] <==> ((j + n < 32 && s[j + n]) != Added(s, n, j))
    decreases n
  {
    if n > 0 {
      ClockOnce(s, n - 1, j);
      if j < 31 {
        ClockedIsAdded(s, n - 1, j + 1);
      } else {
        NothingAdded(s, n - 1, 32);
      }
    }
  }

  lemma {:induction false} ClockedIs(s: Poly, n: nat, j: nat)
    requires |s| == 32 && j < 32
    ensures Clocked(s, n)[j] <==> ((j + n < 32 && s[j + n]) != Row(s, n, j))
  {
    ClockedIsAdded(s, n, j);
    AddedIsRow(s, n, j);
  }

  lemma {:induction false} Pass(s: Poly, n: nat)
    requires |s| == 32 && n < 32
    ensures Out(s, n) <==> s[n] != Row(s, n, 0)
  {
    ClockedIs(s, n, 0);
  }

  lemma {:induction false} NoRow(s: Poly, n: nat, j: int)
    requires |s| == 32 && forall m :: 0 <= m < n ==> !Out(s, m)
    ensures !Row(s, n, j)
  {
    assert forall m :: !T(s, n, m);
  }

  // ----- one or three covered bytes and the high bytes of the checksum

  lemma {:induction false} LowBits(x: nat, k: nat, j: nat)
    requires j < k
    ensures !Bit(ShiftLeft(x, k), j)
    decreases j
  {
    if j > 0 {
      LowBits(x, k - 1, j - 1);
    }
  }

  /** s has its bits in the first n coefficients, and after n clocks none of the first n is left. */
  predicate Straddles(s: Poly, n: nat)
    requires |s| == 32 && n <= 32
  {
    (forall j :: n <= j < 32 ==> !s[j]) && (forall j :: 0 <= j < n ==> !Clocked(s, n)[j])
  }

  lemma {:induction false} Rows(s: Poly, n: nat)
    requires |s| == 32 && n <= 24 && Straddles(s, n)
    ensures forall j :: 0 <= j < n ==> !Row(s, n, j)
  {
    forall j | 0 <= j < n ensures !Row(s, n, j) {
      ClockedIs(s, n, j);
    }
  }

  lemma {:induction false} Solve8(s: Poly)
    requires |s| == 32 && forall j :: 0 <= j < 8 ==> !Row(s, 8, j)
    ensures forall m :: 0 <= m < 8 ==> !Out(s, m)
  {
    assert !Row(s, 8, 0) && !Row(s, 8, 1) && !Row(s, 8, 2) && !Row(s, 8, 3);
    assert !Row(s, 8, 4) && !Row(s, 8, 5) && !Row(s, 8, 6) && !Row(s, 8, 7);
  }

  // Of the 24 bits clocked out, the first 16 are sums of the last 8: a chain of equivalences of odd length is a sum.

  predicate High(s: Poly)
    requires |s| == 32
  {
    && (Out(s, 15) <==> Out(s, 16) <==> Out(s, 17) <==> Out(s, 19) <==>
        (Out(s, 20) <==> Out(s, 22) <==> Out(s, 23) <==> false))
    && (Out(s, 14) <==> Out(s, 17) <==> Out(s, 18) <==> Out(s, 20) <==> Out(s, 21) <==> Out(s, 23))
    && (Out(s, 13) <==> Out(s, 16) <==> Out(s, 17) <==> Out(s, 19) <==>
        (Out(s, 20) <==> Out(s, 22) <==> Out(s, 23) <==> false))
    && (Out(s, 12) <==> Out(s, 17) <==> Out(s, 18) <==> Out(s, 20) <==> Out(s, 21) <==> Out(s, 23))
    && (Out(s, 11) <==> Out(s, 16) <==> Out(s, 17) <==> Out(s, 19) <==> Out(s, 20) <==> Out(s, 22))
    && (Out(s, 10) <==> Out(s, 17) <==> Out(s, 18) <==> Out(s, 20) <==>
        (Out(s, 21) <==> Out(s, 22) <==> Out(s, 23) <==> false))
    && (Out(s, 9) <==> Out(s, 16) <==> Out(s, 17) <==> Out(s, 19) <==>
        (Out(s, 20) <==> Out(s, 21) <==> Out(s, 22) <==> Out(s, 23)))
    && (Out(s, 8) <==> Out(s, 17) <==> Out(s, 18) <==> Out(s, 21) <==> Out(s, 23) <==> false)
  }

  predicate Low(s: Poly)
    requires |s| == 32
  {
    && (Out(s, 7) <==> Out(s, 16) <==> Out(s, 17) <==> Out(s, 20) <==> Out(s, 22) <==> false)
    && (Out(s, 6) <==> Out(s, 17) <==> Out(s, 20) <==> Out(s, 21) <==> Out(s, 22) <==> false)
    && (Out(s, 5) <==> Out(s, 16) <==> Out(s, 19) <==> Out(s, 20) <==> Out(s, 21) <==> Out(s, 23))
    && (Out(s, 4) <==> Out(s, 16) <==> Out(s, 17) <==> Out(s, 18))
    && (Out(s, 3) <==> Out(s, 19) <==> Out(s, 20) <==> Out(s, 22))
    && (Out(s, 2) <==> Out(s, 18) <==> Out(s, 19) <==> Out(s, 21) <==> Out(s, 23) <==> false)
    && (Out(s, 1) <==> Out(s, 17) <==> Out(s, 18) <==> Out(s, 20) <==> Out(s, 22) <==> Out(s, 23))
    && (Out(s, 0) <==> Out(s, 16) <==> Out(s, 17) <==> Out(s, 19) <==>
        (Out(s, 21) <==> Out(s, 22) <==> Out(s, 23) <==> false))
  }

  lemma {:induction false} HighOuts(s: Poly)
    requires |s| == 32 && forall j :: 0 <= j < 24 ==> !Row(s, 24, j)
    ensures High(s)
  {
    assert !Row(s, 24, 23) && !Row(s, 24, 22) && !Row(s, 24, 21) && !Row(s, 24, 20);
    assert !Row(s, 24, 19) && !Row(s, 24, 18) && !Row(s, 24, 17) && !Row(s, 24, 16);
  }

  lemma {:induction false} LowOuts(s: Poly)
    requires |s| == 32 && High(s) && forall j :: 0 <= j < 24 ==> !Row(s, 24, j)
    ensures Low(s)
  {
    assert !Row(s, 24, 15) && !Row(s, 24, 14) && !Row(s, 24, 13) && !Row(s, 24, 12);
    assert !Row(s, 24, 11) && !Row(s, 24, 10) && !Row(s, 24, 9) && !Row(s, 24, 8);
  }

  lemma {:induction false} Solve24(s: Poly)
    requires |s| == 32 && forall j :: 0 <= j < 24 ==> !Row(s, 24, j)
    ensures forall m :: 0 <= m < 24 ==> !Out(s, m)
  {
    HighOuts(s);
    LowOuts(s);
    assert !Row(s, 24, 7) && !Row(s, 24, 6) && !Row(s, 24, 5) && !Row(s, 24, 4);
    assert !Row(s, 24, 3) && !Row(s, 24, 2) && !Row(s, 24, 1) && !Row(s, 24, 0);
  }

  /** Nothing but zeros comes out only if nothing but zeros was there. */
  lemma {:induction false} StraddleIsZero(s: Poly, n: nat)
    requires |s| == 32 && (n == 8 || n == 24) && Straddles(s, n)
    ensures forall m :: 0 <= m < n ==> !s[m]
  {
    Rows(s, n);
    if n == 8 {
      Solve8(s);
    } else {
      Solve24(s);
    }
    assert forall m :: 0 <= m < n ==> !Out(s, m);
    forall m: nat | m < n ensures !s[m] {
      Pass(s, m);
      NoRow(s, m, 0);
    }
  }

  // ----- from bytes to coefficients and back

  lemma {:induction false} ZeroBits(k: nat)
    ensures Bits(Zeroes(k)) == Zeros(8 * k)
    decreases k
  {
    if k > 0 {
      ZeroBits(k - 1);
      assert Zeroes(k)[1..] == Zeroes(k - 1);
      forall i | 0 <= i < 8 ensures !Bit(0, i) {
        HighBit(0, 0, i);
      }
    }
  }

  /** A register of zeros stays one while zeros pass through it. */
  lemma {:induction false} LeadingZeroes(k: nat, data: seq<Byte>)
    ensures Register(0, Zeroes(k) + data) == Register(0, data)
    decreases k
  {
    var all := Zeroes(k) + data;
    if k == 0 {
      assert all == data;
    } else {
      assert all[1..] == Zeroes(k - 1) + data;
      ZeroShifts(8);
      LeadingZeroes(k - 1, data);
    }
  }

  lemma {:induction false} ZeroShifts(n: nat)
    ensures ShiftN(0, n) == 0
    decreases n
  {
    if n > 0 {
      ZeroShifts(n - 1);
    }
  }

  /** Up to four bytes, as the start of a register. */
  function Start(data: seq<Byte>): (s: Poly)
    requires |data| <= 4
    ensures |s| == 32
  {
    Bits(data) + Zeros(32 - 8 * |data|)
  }

  lemma {:induction false} RegisterIsClocked(data: seq<Byte>)
    requires |data| <= 4
    ensures Coefficients(Register(0, data)) == Clocked(Start(data), 8 * |data|)
  {
    var u := Bits(data);
    RegisterIsFeed(0, data);
    ZeroRegister();
    assert |u| == 8 * |data|;
    FeedStart(u, 8 * |data|);
  }

  lemma {:induction false} FeedStart(u: Poly, n: nat)
    requires |u| == n <= 32
    ensures Feed(Zeros(32), u, Ieee8023()) == Clocked(u + Zeros(32 - n), n)
  {
    FeedFromZero(u, Ieee8023());
  }

  lemma {:induction false} ZeroRegister()
    ensures Coefficients(0) == Zeros(32)
  {
    forall i | 0 <= i < 32 ensures !Bit(0, i) {
      HighBit(0, 0, i);
    }
  }

  /** A field whose last n bytes are zero. */
  lemma {:induction false} FieldShift(high: seq<Byte>, n: nat)
    ensures GetNat(high + Zeroes(n)) == ShiftLeft(GetNat(high), 8 * n)
    decreases n
  {
    if n == 0 {
      assert high + Zeroes(n) == high;
    } else {
      FieldShift(high, n - 1);
      OneMoreZero(high, n);
      AppendByte(high + Zeroes(n - 1), 0);
      ShiftByte(GetNat(high), 8 * (n - 1));
    }
  }

  lemma {:induction false} OneMoreZero(s: seq<Byte>, n: nat)
    requires n > 0
    ensures s + Zeroes(n) == (s + Zeroes(n - 1)) + [0]
  {
  }

  lemma {:induction false} ShiftByte(x: nat, k: nat)
    ensures ShiftLeft(x, k + 8) == 256 * ShiftLeft(x, k)
  {
    assert ShiftLeft(x, k + 2) == 4 * ShiftLeft(x, k) && ShiftLeft(x, k + 4) == 4 * ShiftLeft(x, k + 2);
    assert ShiftLeft(x, k + 6) == 4 * ShiftLeft(x, k + 4) && ShiftLeft(x, k + 8) == 4 * ShiftLeft(x, k + 6);
  }

  /** No other pattern than zero on n = 1 or 3 bytes has its register in the 4 - n bytes above n bytes of zero. */
  lemma {:induction false} NoOddStraddle(data: seq<Byte>, high: seq<Byte>)
    requires (|data| == 1 || |data| == 3) && |high| == 4 - |data|
    requires Register(0, data) == GetNat(high + Zeroes(|data|))
    ensures data == Zeroes(|data|) && high == Zeroes(|high|)
  {
    var n, s := 8 * |data|, Start(data);
    RegisterIsClocked(data);
    FieldShift(high, |data|);
    forall j | 0 <= j < n ensures !Clocked(s, n)[j] {
      LowBits(GetNat(high), n, j);
      assert Coefficients(Register(0, data))[j] == Bit(Register(0, data), j);
    }
    StraddleIsZero(s, n);
    ZeroBits(|data|);
    assert Bits(data) == Zeros(n) by {
      forall m | 0 <= m < n ensures !Bits(data)[m] {
        assert s[m] == Bits(data)[m];
      }
    }
    BitsInjective(data, Zeroes(|data|));
    assert data + [] == data && Zeroes(|data|) + [] == Zeroes(|data|);
    LeadingZeroes(|data|, []);
    ZeroField(high, |data|);
  }

  lemma {:induction false} ZeroField(high: seq<Byte>, n: nat)
    requires GetNat(high + Zeroes(n)) == 0
    ensures high == Zeroes(|high|)
  {
    var all := high + Zeroes(n);
    PutGet(all);
    ZeroesAreZero(|all|);
    PutGet(Zeroes(|all|));
    assert forall i :: 0 <= i < |high| ==> high[i] == all[i];
  }

  // ----- the two bytes that do straddle

  lemma {:induction false} BadStart(s: Poly)
    requires s == Start([0x61, 0xD8])
    ensures s[0] && !s[1] && !s[2] && !s[3] && !s[4] && s[5] && s[6] && !s[7]
    ensures !s[8] && !s[9] && !s[10] && s[11] && s[12] && !s[13] && s[14] && s[15]
    ensures forall j :: 16 <= j < 32 ==> !s[j]
  {
    var data: seq<Byte> := [0x61, 0xD8];
    assert data[1..] == [0xD8] && Bits([0xD8]) == BitsOf(0xD8, 8) + Bits([]);
    assert Bits(data) == BitsOf(0x61, 8) + BitsOf(0xD8, 8);
  }

  /** The bits clocked out of 0x61 0xD8. */
  predicate BadOuts(s: Poly)
    requires |s| == 32
  {
    && Out(s, 0) && !Out(s, 1) && !Out(s, 2) && !Out(s, 3) && !Out(s, 4) && Out(s, 5) && !Out(s, 6) && !Out(s, 7)
    && !Out(s, 8) && Out(s, 9) && Out(s, 10) && !Out(s, 11) && Out(s, 12) && !Out(s, 13) && !Out(s, 14) && Out(s, 15)
  }

  lemma {:induction false} BadPasses(s: Poly)
    requires s == Start([0x61, 0xD8])
    ensures BadOuts(s)
  {
    BadStart(s);
    Pass(s, 0); Pass(s, 1); Pass(s, 2); Pass(s, 3); Pass(s, 4); Pass(s, 5); Pass(s, 6); Pass(s, 7);
    Pass(s, 8); Pass(s, 9); Pass(s, 10); Pass(s, 11); Pass(s, 12); Pass(s, 13); Pass(s, 14); Pass(s, 15);
  }

  /** 0x61 0xD8 leaves the register with 0xF4 0xEE in its two high bytes and nothing in the low ones. */
  lemma {:induction false} BadRegister()
    ensures Register(0, [0x61, 0xD8]) == 0xF4EE_0000
  {
    var data: seq<Byte> := [0x61, 0xD8];
    var s, r := Start(data), Register(0, data);
    RegisterIsClocked(data);
    BadPasses(s);
    BadLow(s);
    BadHigh(s);
    Pow2Words();
    forall j | 0 <= j < 32 ensures Bit(r, j) == Bit(0xF4EE_0000, j) {
      assert Coefficients(r)[j] == Bit(r, j);
      BadStart(s);
      ClockedIs(s, 16, j);
      BadBit(j);
    }
    SameBits(r, 0xF4EE_0000, 32);
  }

  lemma {:induction false} BadLow(s: Poly)
    requires |s| == 32 && BadOuts(s)
    ensures forall j :: 0 <= j < 16 ==> !Row(s, 16, j)
  {
    assert !Row(s, 16, 0) && !Row(s, 16, 1) && !Row(s, 16, 2) && !Row(s, 16, 3);
    assert !Row(s, 16, 4) && !Row(s, 16, 5) && !Row(s, 16, 6) && !Row(s, 16, 7);
    assert !Row(s, 16, 8) && !Row(s, 16, 9) && !Row(s, 16, 10) && !Row(s, 16, 11);
    assert !Row(s, 16, 12) && !Row(s, 16, 13) && !Row(s, 16, 14) && !Row(s, 16, 15);
  }

  predicate HighBitSet(j: int) {
    j in {17, 18, 19, 21, 22, 23, 26, 28, 29, 30, 31}
  }

  lemma {:induction false} BadHigh(s: Poly)
    requires |s| == 32 && BadOuts(s)
    ensures forall j :: 16 <= j < 32 ==> (Row(s, 16, j) <==> HighBitSet(j))
  {
    assert !Row(s, 16, 16) && Row(s, 16, 17) && Row(s, 16, 18) && Row(s, 16, 19);
    assert !Row(s, 16, 20) && Row(s, 16, 21) && Row(s, 16, 22) && Row(s, 16, 23);
    assert !Row(s, 16, 24) && !Row(s, 16, 25) && Row(s, 16, 26) && !Row(s, 16, 27);
    assert Row(s, 16, 28) && Row(s, 16, 29) && Row(s, 16, 30) && Row(s, 16, 31);
  }

  lemma {:induction false} BadBit(j: nat)
    requires j < 32
    ensures Bit(0xF4EE_0000, j) <==> HighBitSet(j)
  {
    if j >= 16 {
      BitShift(0xF4EE, 16, j);
      HighHalf(j - 16);
    } else {
      LowBits(0xF4EE, 16, j);
    }
    assert ShiftLeft(0xF4EE, 16) == 0xF4EE_0000 by {
      Pow2Words();
      ShiftLeftIsTimes(0xF4EE, 16);
    }
  }

  lemma {:induction false} HighHalf(i: nat)
    requires i < 16
    ensures Bit(0xF4EE, i) <==> HighBitSet(16 + i)
  {
    assert !Bit(0xF4EE, 0) && Bit(0xF4EE, 1) && Bit(0xF4EE, 2) && Bit(0xF4EE, 3);
    assert !Bit(0xF4EE, 4) && Bit(0xF4EE, 5) && Bit(0xF4EE, 6) && Bit(0xF4EE, 7);
    assert !Bit(0xF4, 0) && !Bit(0xF4, 1) && Bit(0xF4, 2) && !Bit(0xF4, 3);
    assert Bit(0xF4, 4) && Bit(0xF4, 5) && Bit(0xF4, 6) && Bit(0xF4, 7);
    assert !Bit(0xF4EE, 8) && !Bit(0xF4EE, 9) && Bit(0xF4EE, 10) && !Bit(0xF4EE, 11);
    assert Bit(0xF4EE, 12) && Bit(0xF4EE, 13) && Bit(0xF4EE, 14) && Bit(0xF4EE, 15);
  }

  lemma {:induction false} BitShift(x: nat, k: nat, j: nat)
    requires j >= k
    ensures Bit(ShiftLeft(x, k), j) == Bit(x, j - k)
    decreases k
  {
    if k > 0 {
      BitShift(x, k - 1, j - 1);
    }
  }

  // ----- which windows are safe

  lemma {:induction false} XorTwice(a: Byte, b: Byte)
    ensures XorByte(a, XorByte(a, b)) == b && (XorByte(a, b) == 0 <==> a == b)
  {
    Pow2Words();
    var x, y := XorByte(a, b), XorByte(a, XorByte(a, b));
    forall i | 0 <= i < 8 ensures Bit(y, i) == Bit(b, i) {
      BitXor(a, b, i);
      BitXor(a, x, i);
    }
    SameBits(y, b, 8);
    XorZero(a);
    if a == b {
      forall i | 0 <= i < 8 ensures Bit(x, i) == Bit(0, i) {
        BitXor(a, b, i);
        HighBit(0, 0, i);
      }
      SameBits(x, 0, 8);
    }
  }

  /** The pattern that turns the printed frame into d. */
  lemma {:induction false} PatternOf(f: TransportFrame, d: seq<Byte>) returns (e: seq<Byte>)
    requires Sendable(f) && |d| == |Print(f)|
    ensures |e| == |d| && XorBytes(Print(f), e) == d
    ensures forall k :: 0 <= k < |d| ==> (e[k] == 0 <==> d[k] == Print(f)[k])
  {
    var p := Print(f);
    e := XorBytes(p, d);
    forall k | 0 <= k < |d| ensures XorByte(p[k], e[k]) == d[k] && (e[k] == 0 <==> d[k] == p[k]) {
      XorTwice(p[k], d[k]);
    }
  }

  /** Nowhere but in the window does the pattern have anything. */
  predicate Within(e: seq<Byte>, i: nat) {
    forall k :: 0 <= k < |e| && !(i <= k < i + 4) ==> e[k] == 0
  }

  lemma {:induction false} PatternParts(e: seq<Byte>, m: nat, n: nat)
    requires n <= 4 && |e| == m + 4 && m >= 14 && Within(e, m - n)
    ensures Covered(e) == Zeroes(m - n) + e[m - n..m] && Field(e) == e[m..m + 4 - n] + Zeroes(n)
    ensures e[..8] == Zeroes(8)
  {
  }

  lemma {:induction false} PatternIsZero(e: seq<Byte>, m: nat, n: nat)
    requires n <= 4 && |e| == m + 4 && m >= 14 && Within(e, m - n)
    requires e[m - n..m] == Zeroes(n) && e[m..m + 4 - n] == Zeroes(4 - n)
    ensures forall k :: 0 <= k < |e| ==> e[k] == 0
  {
    forall k | m - n <= k < m - n + 4 ensures e[k] == 0 {
      assert if k < m then e[k] == e[m - n..m][k - (m - n)] else e[k] == e[m..m + 4 - n][k - m];
    }
  }

  lemma {:induction false} UnnoticedIsZero(e: seq<Byte>, m: nat, n: nat)
    requires (n == 1 || n == 3) && |e| == m + 4 && m >= 14 && Within(e, m - n) && Unnoticed(e)
    ensures forall k :: 0 <= k < |e| ==> e[k] == 0
  {
    PatternParts(e, m, n);
    LeadingZeroes(m - n, e[m - n..m]);
    NoOddStraddle(e[m - n..m], e[m..m + 4 - n]);
    PatternIsZero(e, m, n);
  }

  lemma {:induction false} NothingChanged(p: seq<Byte>, d: seq<Byte>, e: seq<Byte>)
    requires |p| == |d| == |e| && forall k :: 0 <= k < |d| ==> (e[k] == 0 <==> d[k] == p[k])
    ensures (forall k :: 0 <= k < |e| ==> e[k] == 0) ==> d == p
  {
  }

  /** A window of n = 1 or 3 covered bytes and the rest of the four in the checksum is safe. */
  lemma {:induction false} OddStraddleRejected(f: TransportFrame, d: seq<Byte>, n: nat)
    requires Sendable(f) && (n == 1 || n == 3) && ByteWindow(f, d, 14 + |f.payload| - n)
    ensures Parse(d) == Err(CrcMismatch)
  {
    var m := 14 + |f.payload|;
    var e := PatternOf(f, d);
    PatternParts(e, m, n);
    PatternDecides(f, e);
    NothingChanged(Print(f), d, e);
    if Unnoticed(e) {
      UnnoticedIsZero(e, m, n);
    }
  }

  /** The pattern that no frame notices: the last two covered bytes and the first two of the checksum. */
  function BadPattern(m: nat): (e: seq<Byte>)
    requires m >= 14
    ensures |e| == m + 4 && Within(e, m - 2)
  {
    Zeroes(m - 2) + [0x61, 0xD8, 0xF4, 0xEE, 0, 0]
  }

  /** It turns every frame into another one that the parser accepts. */
  lemma {:induction false} EvenStraddleAccepted(f: TransportFrame)
    requires Sendable(f)
    ensures var d := XorBytes(Print(f), BadPattern(14 + |f.payload|));
      ByteWindow(f, d, 12 + |f.payload|) && Parse(d).Ok?
  {
    var m, p := 14 + |f.payload|, Print(f);
    var e := BadPattern(m);
    var d := XorBytes(p, e);
    BadUnnoticed(m);
    PatternDecides(f, e);
    forall k | 0 <= k < |p| ensures e[k] == 0 <==> d[k] == p[k] {
      XorFixes(p[k], e[k]);
    }
    assert e[m - 2] == 0x61 && e[8] == 0;
    DamagedParse(f, d);
  }

  lemma {:induction false} BadUnnoticed(m: nat)
    requires m >= 14
    ensures Unnoticed(BadPattern(m)) && BadPattern(m)[..8] == Zeroes(8)
  {
    var e := BadPattern(m);
    PatternParts(e, m, 2);
    assert e[m - 2..m] == [0x61, 0xD8] && e[m..m + 2] == [0xF4, 0xEE];
    BadRegister();
    LeadingZeroes(m - 2, [0x61, 0xD8]);
    FieldShift([0xF4, 0xEE], 2);
    BadFieldValue();
  }

  lemma {:induction false} XorFixes(a: Byte, b: Byte)
    ensures XorByte(a, b) == a <==> b == 0
  {
    XorTwice(a, b);
    XorTwice(a, 0);
    XorZero(a);
    XorTwice(a, a);
  }

  lemma {:induction false} BadFieldValue()
    ensures ShiftLeft(GetNat([0xF4, 0xEE]), 16) == 0xF4EE_0000
  {
    var s: seq<Byte> := [0xF4, 0xEE];
    assert s[..1] == [0xF4] && s[..1][..0] == [];
    assert GetNat(s[..1]) == 0xF4 && GetNat(s) == 0xF4EE;
    Pow2Words();
    ShiftLeftIsTimes(0xF4EE, 16);
  }

  /**
   * Four consecutive bytes anywhere between the length and the end of the frame: whatever happens to them is
   * noticed, except in the one window that is half covered and half checksum, which is unsafe for every frame.
   */
  lemma {:induction false} FourByteWindows(f: TransportFrame, i: nat)
    requires Sendable(f) && 8 <= i <= 14 + |f.payload|
    ensures (forall d :: ByteWindow(f, d, i) ==> Parse(d) == Err(CrcMismatch)) <==> i != 12 + |f.payload|
  {
    var m := 14 + |f.payload|;
    if i == m - 2 {
      EvenStraddleAccepted(f);
    } else {
      forall d | ByteWindow(f, d, i) ensures Parse(d) == Err(CrcMismatch) {
        if i + 4 <= m {
          FourBytesRejected(f, d, i);
        } else if i == m {
          FieldWindow(f, d);
        } else {
          OddStraddleRejected(f, d, m - i);
        }
      }
    }
  }

  lemma {:induction false} FieldWindow(f: TransportFrame, d: seq<Byte>)
    requires Sendable(f) && ByteWindow(f, d, 14 + |f.payload|)
    ensures Parse(d) == Err(CrcMismatch)
  {
    assert d[..8] == Print(f)[..8] && Covered(d) == Covered(Print(f));
    FieldDamageRejected(f, d);
  }

  /** Changed at most within four consecutive bytes behind the length, and not in the unsafe window. */
  predicate SafelyDamaged(f: TransportFrame, d: seq<Byte>)
    requires Sendable(f)
  {
    exists i :: 8 <= i <= 14 + |f.payload| && i != 12 + |f.payload| && ByteWindow(f, d, i)
  }

  /**
   * On the stream, any number of frames may be damaged in a safe window each. For every chunking each of them costs
   * one checksum error and the others arrive in their places.
   */
  lemma {:induction false} WindowContained(fs: seq<TransportFrame>, spans: seq<seq<Byte>>, chunks: seq<seq<Byte>>)
    requires AllSendable(fs) && |spans| == |fs| && Concat(chunks) == Concat(spans)
    requires forall i :: 0 <= i < |fs| ==> spans[i] == Print(fs[i]) || SafelyDamaged(fs[i], spans[i])
    ensures Receive([], chunks)
         == Drained(seq(|fs|, i requires 0 <= i < |fs| =>
                      if spans[i] == Print(fs[i]) then FrameReceived(Framed(fs[i]))
                      else Error(FrameRejected(CrcMismatch))), [], true)
  {
    forall i | 0 <= i < |fs| && spans[i] != Print(fs[i])
      ensures FramingKept(fs[i], spans[i]) && Parse(spans[i]) == Err(CrcMismatch)
    {
      var at :| 8 <= at <= 14 + |fs[i].payload| && at != 12 + |fs[i].payload| && ByteWindow(fs[i], spans[i], at);
      FourByteWindows(fs[i], at);
    }
    DamageContained(fs, spans, chunks);
  }
}
