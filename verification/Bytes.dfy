/** Bytes, fixed-width unsigned integers, and the big-endian encoding every wire format of the system uses. */
module Bytes {

  type Byte = x: int | 0 <= x < 256
  type Uint32 = x: int | 0 <= x < 0x1_0000_0000
  type Uint64 = x: int | 0 <= x < 0x1_0000_0000_0000_0000

  datatype Option<+T> = None | Some(value: T)
  datatype Result<+T, +E> = Ok(value: T) | Err(error: E)

  /** The number of values that k bytes can hold. */
  function Radix(k: nat): (r: nat)
    ensures r > 0
  {
    if k == 0 then 1 else 256 * Radix(k - 1)
  }

  /** The unsigned value of a big-endian byte string. */
  function GetNat(s: seq<Byte>): (v: nat) {
    if s == [] then 0 else GetNat(s[..|s| - 1]) * 256 + s[|s| - 1]
  }

  lemma {:induction false} AppendByte(s: seq<Byte>, b: Byte)
    ensures GetNat(s + [b]) == GetNat(s) * 256 + b
  {
    assert (s + [b])[..|s|] == s;
  }

  /** The k low-order bytes of v, most significant first. */
  function PutNat(v: nat, k: nat): (s: seq<Byte>)
    ensures |s| == k
  {
    if k == 0 then [] else PutNat(v / 256, k - 1) + [v % 256]
  }

  lemma {:induction false} GetPut(v: nat, k: nat)
    requires v < Radix(k)
    ensures GetNat(PutNat(v, k)) == v
  {
    if k > 0 {
      GetPut(v / 256, k - 1);
      assert PutNat(v, k)[..k - 1] == PutNat(v / 256, k - 1);
    }
  }

  lemma {:induction false} PutGet(s: seq<Byte>)
    ensures GetNat(s) < Radix(|s|)
    ensures PutNat(GetNat(s), |s|) == s
  {
    if s != [] {
      PutGet(s[..|s| - 1]);
    }
  }

  /** Splitting a byte string splits its value at the matching power of 256. */
  lemma {:induction false} GetConcat(a: seq<Byte>, b: seq<Byte>)
    ensures GetNat(a + b) == GetNat(a) * Radix(|b|) + GetNat(b)
  {
    if b == [] {
      assert a + b == a;
    } else {
      var m := b[..|b| - 1];
      GetConcat(a, m);
      assert (a + b)[..|a + b| - 1] == a + m;
      assert GetNat(a) * Radix(|b|) == GetNat(a) * Radix(|m|) * 256;
    }
  }

  /** The byte-by-byte form in which the sources write and read 32-bit fields. */
  lemma {:induction false} Put4(v: Uint32)
    ensures PutNat(v, 4) == [v / 0x100_0000 % 256, v / 0x1_0000 % 256, v / 0x100 % 256, v % 256]
    ensures GetNat(PutNat(v, 4)) == v
  {
    assert v / 256 / 256 == v / 0x1_0000 && v / 0x1_0000 / 256 == v / 0x100_0000;
    assert PutNat(v / 256, 3) == PutNat(v / 0x1_0000, 2) + [v / 256 % 256];
    assert PutNat(v / 0x1_0000, 2) == PutNat(v / 0x100_0000, 1) + [v / 0x1_0000 % 256];
    assert PutNat(v / 0x100_0000, 1) == [v / 0x100_0000 % 256];
    assert Radix(1) == 256 && Radix(2) == 0x1_0000 && Radix(3) == 0x100_0000;
    GetPut(v, 4);
  }

  lemma {:induction false} Get4(s: seq<Byte>)
    requires |s| == 4
    ensures GetNat(s) == s[0] as int * 0x100_0000 + s[1] as int * 0x1_0000 + s[2] as int * 0x100 + s[3]
    ensures PutNat(GetNat(s), 4) == s
  {
    PutGet(s);
    var t, u, w := s[..3], s[..2], s[..1];
    assert t[..2] == u && u[..1] == w && w[..0] == [];
    assert GetNat(w) == s[0];
    assert GetNat(u) == s[0] as int * 256 + s[1];
    assert GetNat(t) == (s[0] as int * 256 + s[1]) * 256 + s[2];
  }

  function Zeroes(n: nat): (s: seq<Byte>)
    ensures |s| == n
  {
    seq(n, _ => 0)
  }

  lemma {:induction false} ZeroesAreZero(n: nat)
    ensures GetNat(Zeroes(n)) == 0
  {
    if n > 0 {
      ZeroesAreZero(n - 1);
      assert Zeroes(n)[..n - 1] == Zeroes(n - 1);
    }
  }

  lemma {:induction false} Associative<T>(a: seq<T>, b: seq<T>, c: seq<T>)
    ensures (a + b) + c == a + (b + c)
  {
  }

  // ----- bitwise exclusive or of unsigned integers

  function Pow2(k: nat): (r: nat)
    ensures r > 0
  {
    if k == 0 then 1 else 2 * Pow2(k - 1)
  }

  function XorNat(a: nat, b: nat): (x: nat)
    decreases a + b
  {
    if a == 0 then b
    else if b == 0 then a
    else 2 * XorNat(a / 2, b / 2) + (if a % 2 == b % 2 then 0 else 1)
  }

  lemma {:induction false} XorBound(a: nat, b: nat, k: nat)
    requires a < Pow2(k) && b < Pow2(k)
    ensures XorNat(a, b) < Pow2(k)
  {
    if a != 0 && b != 0 {
      XorBound(a / 2, b / 2, k - 1);
    }
  }

  lemma {:induction false} Pow2Words()
    ensures Pow2(8) == 0x100 && Pow2(16) == 0x1_0000 && Pow2(32) == 0x1_0000_0000
  {
    assert Pow2(12) == 16 * Pow2(8) && Pow2(16) == 16 * Pow2(12) && Pow2(20) == 16 * Pow2(16);
    assert Pow2(24) == 16 * Pow2(20) && Pow2(28) == 16 * Pow2(24) && Pow2(32) == 16 * Pow2(28);
  }

  function XorByte(a: Byte, b: Byte): (x: Byte) {
    Pow2Words(); XorBound(a, b, 8);
    XorNat(a, b)
  }

  function Xor32(a: Uint32, b: Uint32): (x: Uint32) {
    Pow2Words(); XorBound(a, b, 32);
    XorNat(a, b)
  }

  function XorBytes(a: seq<Byte>, b: seq<Byte>): (x: seq<Byte>)
    requires |a| == |b|
    ensures |x| == |a| && forall i :: 0 <= i < |a| ==> x[i] == XorByte(a[i], b[i])
  {
    seq(|a|, i requires 0 <= i < |a| => XorByte(a[i], b[i]))
  }

  function ShiftLeft(a: nat, k: nat): nat
    decreases k, a
  {
    if k == 0 then a else 2 * ShiftLeft(a, k - 1)
  }

  lemma {:induction false} XorSplit(a: nat, c: nat, b: nat, d: nat, k: nat)
    requires c < Pow2(k) && d < Pow2(k)
    ensures XorNat(ShiftLeft(a, k) + c, ShiftLeft(b, k) + d) == ShiftLeft(XorNat(a, b), k) + XorNat(c, d)
    decreases k
  {
    if k > 0 {
      var x, y := ShiftLeft(a, k) + c, ShiftLeft(b, k) + d;
      HalfShift(a, c, k);
      HalfShift(b, d, k);
      XorSplit(a, c / 2, b, d / 2, k - 1);
      LowBitBack(x, y, c, d, XorNat(a, b), k);
    }
  }

  lemma {:induction false} LowBitBack(x: nat, y: nat, c: nat, d: nat, high: nat, k: nat)
    requires k > 0 && x % 2 == c % 2 && y % 2 == d % 2
    requires XorNat(x / 2, y / 2) == ShiftLeft(high, k - 1) + XorNat(c / 2, d / 2)
    ensures XorNat(x, y) == ShiftLeft(high, k) + XorNat(c, d)
  {
    XorHalves(x, y);
    XorHalves(c, d);
  }

  lemma {:induction false} HalfShift(a: nat, c: nat, k: nat)
    requires k > 0
    ensures (ShiftLeft(a, k) + c) / 2 == ShiftLeft(a, k - 1) + c / 2 && (ShiftLeft(a, k) + c) % 2 == c % 2
  {
  }

  lemma {:induction false} ShiftLeftIsTimes(a: nat, k: nat)
    ensures ShiftLeft(a, k) == a * Pow2(k)
    decreases k
  {
    if k > 0 {
      ShiftLeftIsTimes(a, k - 1);
    }
  }

  lemma {:induction false} XorHalves(a: nat, b: nat)
    ensures XorNat(a, b) == 2 * XorNat(a / 2, b / 2) + (if a % 2 == b % 2 then 0 else 1)
  {
  }

  /** The exclusive or of two big-endian fields, byte by byte, is that of their values. */
  lemma {:induction false} GetXor(a: seq<Byte>, b: seq<Byte>)
    requires |a| == |b|
    ensures GetNat(XorBytes(a, b)) == XorNat(GetNat(a), GetNat(b))
    decreases |a|
  {
    if a != [] {
      var n := |a| - 1;
      GetXor(a[..n], b[..n]);
      assert XorBytes(a, b)[..n] == XorBytes(a[..n], b[..n]);
      XorLowByte(GetNat(a[..n]), a[n], GetNat(b[..n]), b[n]);
    }
  }

  lemma {:induction false} XorLowByte(a: nat, c: Byte, b: nat, d: Byte)
    ensures XorNat(a * 256 + c, b * 256 + d) == XorNat(a, b) * 256 + XorByte(c, d)
  {
    Pow2Words();
    ShiftLeftIsTimes(a, 8);
    ShiftLeftIsTimes(b, 8);
    ShiftLeftIsTimes(XorNat(a, b), 8);
    XorSplit(a, c, b, d, 8);
  }

  /** memcpy or System.arraycopy to an offset. */
  method Copy(buffer: array<Byte>, offset: nat, bytes: seq<Byte>)
    requires offset + |bytes| <= buffer.Length
    modifies buffer
    ensures buffer[..offset + |bytes|] == old(buffer[..offset]) + bytes
  {
    forall i | 0 <= i < |bytes| {
      buffer[offset + i] := bytes[i];
    }
  }
}
