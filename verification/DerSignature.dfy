/** CryptoEngine: signatures arrive in DER or raw form and are verified as two right-aligned 32-byte integers. */
module DerSignature {
  import opened Bytes

  // ----- what the conversion means

  /** The contents of the two integers, found by their length bytes. */
  predicate TwoIntegers(der: seq<Byte>) {
    && 8 <= |der| <= 139 && der[0] == 0x30
    && der[2] == 0x02 && 5 + der[3] < |der|
    && der[4 + der[3]] == 0x02 && 6 + der[3] + der[5 + der[3]] <= |der|
  }

  function RContent(der: seq<Byte>): seq<Byte>
    requires TwoIntegers(der)
  {
    der[4..4 + der[3]]
  }

  function SContent(der: seq<Byte>): seq<Byte>
    requires TwoIntegers(der)
  {
    der[6 + der[3]..6 + der[3] + der[5 + der[3]]]
  }

  /** r and s as 32-byte numbers, if there are two integers and each of them fits. */
  function Converted(der: seq<Byte>): (raw: Option<seq<Byte>>)
    ensures raw.Some? ==> |raw.value| == 64
  {
    if TwoIntegers(der) then Fitting(RContent(der), SContent(der)) else None
  }

  function Fitting(r: seq<Byte>, s: seq<Byte>): (raw: Option<seq<Byte>>)
    ensures raw.Some? ==> |raw.value| == 64
  {
    if GetNat(r) < Radix(32) && GetNat(s) < Radix(32) then Some(PutNat(GetNat(r), 32) + PutNat(GetNat(s), 32)) else None
  }

  // ----- stripping and aligning keep the value

  lemma {:induction false} LeadingByte(c: seq<Byte>)
    requires c != []
    ensures GetNat(c) == c[0] as int * Radix(|c| - 1) + GetNat(c[1..])
    ensures GetNat(c[1..]) < Radix(|c| - 1)
  {
    assert c == [c[0]] + c[1..];
    GetConcat([c[0]], c[1..]);
    assert GetNat([c[0]]) == c[0] by {
      assert [c[0]][..0] == [];
    }
    PutGet(c[1..]);
  }

  lemma {:induction false} RadixGrows(a: nat, b: nat)
    requires a <= b
    ensures Radix(a) <= Radix(b)
    decreases b
  {
    if a < b {
      RadixGrows(a, b - 1);
    }
  }

  /** A number that still has more than n bytes after stripping does not fit into n. */
  lemma {:induction false} TooWide(c: seq<Byte>, n: nat)
    requires |c| > n && c[0] != 0
    ensures GetNat(c) >= Radix(n)
  {
    LeadingByte(c);
    RadixGrows(n, |c| - 1);
    AtLeast(c[0], Radix(|c| - 1));
  }

  lemma {:induction false} AtLeast(b: nat, m: nat)
    requires b >= 1
    ensures b * m >= m
  {
  }

  lemma {:induction false} ZeroPrefix(n: nat, c: seq<Byte>)
    ensures GetNat(Zeroes(n) + c) == GetNat(c)
    decreases |c|
  {
    var zc := Zeroes(n) + c;
    if c == [] {
      ZeroesAreZero(n);
      assert zc == Zeroes(n);
    } else {
      assert zc[..|zc| - 1] == Zeroes(n) + c[..|c| - 1];
      ZeroPrefix(n, c[..|c| - 1]);
    }
  }

  lemma {:induction false} RightAligned(c: seq<Byte>, n: nat)
    requires |c| <= n
    ensures Zeroes(n - |c|) + c == PutNat(GetNat(c), n)
  {
    ZeroPrefix(n - |c|, c);
    PutGet(Zeroes(n - |c|) + c);
  }

  lemma {:induction false} NarrowFits(c: seq<Byte>, n: nat)
    requires |c| <= n
    ensures GetNat(c) < Radix(n)
  {
    PutGet(c);
    RadixGrows(|c|, n);
  }

  lemma {:induction false} DropZero(der: seq<Byte>, start: nat, len: nat)
    requires start + len <= |der| && len > 0 && der[start] == 0
    ensures GetNat(der[start + 1..start + len]) == GetNat(der[start..start + len])
  {
    var c := der[start..start + len];
    LeadingByte(c);
    assert c[1..] == der[start + 1..start + len];
  }

  /** while (len > 32 && bytes[0] == 0) { bytes++; len--; } */
  method StripZeros(der: seq<Byte>, from: nat, length: nat) returns (start: nat, len: nat)
    requires from + length <= |der|
    ensures from <= start && start + len == from + length && (len > 32 ==> der[start] != 0)
    ensures GetNat(der[start..start + len]) == GetNat(der[from..from + length])
  {
    start, len := from, length;
    while len > 32 && der[start] == 0
      invariant from <= start && start + len == from + length
      invariant GetNat(der[start..start + len]) == GetNat(der[from..from + length])
    {
      DropZero(der, start, len);
      start, len := start + 1, len - 1;
    }
  }

  /** What is left has the same value, and more than 32 bytes exactly if the value does not fit. */
  method Strip(der: seq<Byte>, from: nat, length: nat) returns (start: nat, len: nat)
    requires from + length <= |der|
    ensures from <= start && start + len == from + length
    ensures GetNat(der[start..start + len]) == GetNat(der[from..from + length])
    ensures len > 32 <==> GetNat(der[from..from + length]) >= Radix(32)
  {
    start, len := StripZeros(der, from, length);
    var c := der[start..start + len];
    if len > 32 {
      TooWide(c, 32);
    } else {
      NarrowFits(c, 32);
    }
  }

  /**
   * The second length byte is read without a check of its index. beyond stands for whatever the memory
   * behind the signature holds; the outcome does not depend on it.
   */
  method ConvertDerToRawRSignature(der: seq<Byte>, beyond: Byte) returns (raw: Option<seq<Byte>>)
    ensures raw == Converted(der)
    ensures raw.Some? ==> 8 <= |der| <= 139 && der[0] == 0x30 && der[2] == 0x02
  {
    if |der| < 8 || |der| > 139 {
      return None;
    }
    if der[0] != 0x30 {
      return None;
    }
    var idx := 2;
    if idx >= |der| || der[idx] != 0x02 {
      return None;
    }
    idx := idx + 1;
    var rLen: nat := der[idx];
    idx := idx + 1;
    if idx + rLen > |der| {
      return None;
    }
    var rBytes := idx;
    idx := idx + rLen;
    if idx >= |der| || der[idx] != 0x02 {
      return None;
    }
    idx := idx + 1;
    var sLen: nat := if idx < |der| then der[idx] else beyond;
    idx := idx + 1;
    if idx + sLen > |der| {
      return None;
    }
    var sBytes := idx;
    raw := AlignIntegers(der, rBytes, rLen, sBytes, sLen);
  }

  /** The two integers without their leading zeros, if they then fit. */
  method AlignIntegers(der: seq<Byte>, r: nat, rLength: nat, s: nat, sLength: nat) returns (raw: Option<seq<Byte>>)
    requires r + rLength <= |der| && s + sLength <= |der|
    ensures raw == Fitting(der[r..r + rLength], der[s..s + sLength])
  {
    var rBytes, rLen := Strip(der, r, rLength);
    var sBytes, sLen := Strip(der, s, sLength);
    if rLen > 32 || sLen > 32 {
      return None;
    }
    var rsOut := Align(der[rBytes..rBytes + rLen], der[sBytes..sBytes + sLen]);
    return Some(rsOut);
  }

  /** The two halves, filled from the right. */
  method Align(r: seq<Byte>, s: seq<Byte>) returns (raw: seq<Byte>)
    requires |r| <= 32 && |s| <= 32
    ensures raw == PutNat(GetNat(r), 32) + PutNat(GetNat(s), 32)
  {
    var rsOut := new Byte[64](_ => 0);
    forall i | 0 <= i < |r| {
      rsOut[32 - |r| + i] := r[i];
    }
    forall i | 0 <= i < |s| {
      rsOut[32 + (32 - |s|) + i] := s[i];
    }
    RightAligned(r, 32);
    RightAligned(s, 32);
    assert rsOut[..32] == Zeroes(32 - |r|) + r;
    assert rsOut[32..] == Zeroes(32 - |s|) + s;
    assert rsOut[..] == rsOut[..32] + rsOut[32..];
    raw := rsOut[..];
  }

  /**
   * Which bytes are converted: a sequence tag, any length byte, and two integers that lie within the signature and fit
   * into 32 bytes each, whatever follows them. Each half of the result has the unsigned value of its integer.
   */
  lemma {:induction false} ValuesKept(der: seq<Byte>)
    ensures Converted(der).Some? <==>
      && 8 <= |der| <= 139 && der[0] == 0x30
      && der[2] == 0x02 && 4 + der[3] + 1 < |der|
      && der[4 + der[3]] == 0x02 && 6 + der[3] + der[5 + der[3]] <= |der|
      && GetNat(der[4..4 + der[3]]) < Radix(32)
      && GetNat(der[6 + der[3]..6 + der[3] + der[5 + der[3]]]) < Radix(32)
    ensures Converted(der).Some? ==>
      && GetNat(Converted(der).value[..32]) == GetNat(der[4..4 + der[3]])
      && GetNat(Converted(der).value[32..]) == GetNat(der[6 + der[3]..6 + der[3] + der[5 + der[3]]])
  {
    if Converted(der).Some? {
      var r, s := GetNat(RContent(der)), GetNat(SContent(der));
      GetPut(r, 32);
      GetPut(s, 32);
      assert Converted(der).value[..32] == PutNat(r, 32) && Converted(der).value[32..] == PutNat(s, 32);
    }
  }

  // ----- DER, sections 8.3 and 8.9 of X.690

  /** The least number of bytes that hold v and a sign bit. */
  function Width(v: nat): (k: nat)
    ensures k >= 1 && 2 * v < Radix(k) && (k == 1 || 2 * v >= Radix(k - 1))
  {
    if 2 * v < 256 then 1
    else
      var k := Width(v / 256);
      WidthStep(v / 256, v % 256, Radix(k - 1)); 1 + k
  }

  lemma {:induction false} WidthStep(high: nat, low: Byte, q: nat)
    ensures 2 * high < 256 * q ==> 2 * (256 * high + low) < 256 * (256 * q)
    ensures 2 * high >= q ==> 2 * (256 * high + low) >= 256 * q
  {
    assert 2 * high < 256 * q ==> high < 128 * q;
  }

  lemma {:induction false} WidthBound(v: nat, n: nat)
    requires v < Radix(n)
    ensures Width(v) <= n + 1
  {
    if 2 * v >= 256 {
      WidthBound(v / 256, n - 1);
    }
  }

  function DerInteger(v: nat): (s: seq<Byte>)
    requires Width(v) <= 33
    ensures |s| == 2 + Width(v)
  {
    [0x02, Width(v)] + PutNat(v, Width(v))
  }

  /** SEQUENCE { r INTEGER, s INTEGER } */
  function DerSequence(r: nat, s: nat): (d: seq<Byte>)
    requires Width(r) <= 33 && Width(s) <= 33
    ensures 8 <= |d| == 6 + Width(r) + Width(s) <= 72
  {
    [0x30, |DerInteger(r)| + |DerInteger(s)|] + DerInteger(r) + DerInteger(s)
  }

  function Der(r: nat, s: nat): (d: seq<Byte>)
    requires r < Radix(32) && s < Radix(32)
    ensures 8 <= |d| == 6 + Width(r) + Width(s) <= 72
  {
    WidthBound(r, 32);
    WidthBound(s, 32);
    DerSequence(r, s)
  }

  /** Two encoded integers behind a two-byte header. */
  lemma {:induction false} Integers(length: Byte, a: seq<Byte>, b: seq<Byte>)
    requires |a| >= 3 && a[0] == 0x02 && a[1] == |a| - 2 && |b| >= 3 && b[0] == 0x02 && b[1] == |b| - 2
    requires |a| + |b| <= 137
    ensures var d := [0x30, length] + a + b;
      TwoIntegers(d) && d[3] == a[1] && RContent(d) == a[2..] && SContent(d) == b[2..]
  {
    var d := [0x30, length] + a + b;
    var k := |a| - 2;
    assert d[2] == a[0] && d[3] == a[1] && d[4 + k] == b[0] && d[5 + k] == b[1];
  }

  lemma {:induction false} DerFields(r: nat, s: nat)
    requires Width(r) <= 33 && Width(s) <= 33
    ensures var d := DerSequence(r, s);
      TwoIntegers(d) && d[3] == Width(r) && d[4 + d[3]] == 0x02
      && RContent(d) == PutNat(r, Width(r)) && SContent(d) == PutNat(s, Width(s))
  {
    var a, b := DerInteger(r), DerInteger(s);
    Integers(|a| + |b|, a, b);
    assert a[2..] == PutNat(r, Width(r)) && b[2..] == PutNat(s, Width(s));
  }

  /** Every pair of numbers below 2^256 comes out of its DER form. */
  lemma {:induction false} DerConverts(r: nat, s: nat)
    requires r < Radix(32) && s < Radix(32)
    ensures Converted(Der(r, s)) == Some(PutNat(r, 32) + PutNat(s, 32))
  {
    WidthBound(r, 32);
    WidthBound(s, 32);
    DerFields(r, s);
    GetPut(r, Width(r));
    GetPut(s, Width(s));
  }

  // ----- the dispatch of VerifySignature

  /** The form in which a signature reaches the verifier. */
  function RawSignature(signature: seq<Byte>): (raw: Option<seq<Byte>>)
    ensures raw.Some? ==> |raw.value| == 64
  {
    if |signature| == 64 then Some(signature) else Converted(signature)
  }

  /** A DER signature reaches the verifier as what it means exactly when it is not 64 bytes long. */
  lemma {:induction false} DispatchIsRight(r: nat, s: nat)
    requires r < Radix(32) && s < Radix(32)
    ensures RawSignature(Der(r, s)) == Some(PutNat(r, 32) + PutNat(s, 32)) <==> Width(r) + Width(s) != 58
  {
    DerConverts(r, s);
    if Width(r) + Width(s) == 58 {
      NoCoincidence(r, s);
    }
  }

  /**
   * A DER form of 64 bytes is never also the raw form: the top byte of r is not a sequence tag, or
   * the second integer tag lies in the leading zeros of s.
   */
  lemma {:induction false} NoCoincidence(r: nat, s: nat)
    requires r < Radix(32) && s < Radix(32) && Width(r) + Width(s) == 58
    ensures Der(r, s) != PutNat(r, 32) + PutNat(s, 32)
  {
    WidthBound(r, 32);
    WidthBound(s, 32);
    if Width(r) == 32 {
      TagInZeros(r, s, 32);
    } else {
      TagInFront(r, s, 32);
    }
  }

  lemma {:induction false} TagInFront(r: nat, s: nat, n: nat)
    requires 0 < n && r < Radix(n) && Width(r) != n && Width(r) <= 33 && Width(s) <= 33
    ensures DerSequence(r, s) != PutNat(r, n) + PutNat(s, n)
  {
    TopByte(r, n - 1);
    assert (PutNat(r, n) + PutNat(s, n))[0] == PutNat(r, n)[0];
  }

  lemma {:induction false} TagInZeros(r: nat, s: nat, n: nat)
    requires n == 32 && Width(r) == n && Width(s) == 26
    ensures DerSequence(r, s) != PutNat(r, n) + PutNat(s, n)
  {
    DerFields(r, s);
    LeadingZero(s, 26, n, 4);
    assert (PutNat(r, n) + PutNat(s, n))[36] == PutNat(s, n)[4];
  }

  lemma {:induction false} LeadingZero(v: nat, k: nat, n: nat, i: nat)
    requires v < Radix(k) && i + k < n
    ensures PutNat(v, n)[i] == 0
  {
    GetPut(v, k);
    RightAligned(PutNat(v, k), n);
  }

  lemma {:induction false} TopByte(v: nat, k: nat)
    requires v < Radix(k + 1) && Width(v) != k + 1
    ensures PutNat(v, k + 1)[0] != 0x30
  {
    var p := PutNat(v, k + 1);
    GetPut(v, k + 1);
    LeadingByte(p);
    if Width(v) <= k {
      RadixGrows(Width(v), k);
      if p[0] > 0 {
        AtLeast(p[0], Radix(k));
      }
    } else {
      RadixGrows(k + 1, Width(v) - 1);
    }
  }

  lemma {:induction false} WidthIs(v: nat, k: nat)
    requires k > 1 && Radix(k - 1) <= 2 * v < Radix(k)
    ensures Width(v) == k
  {
    if Width(v) < k {
      RadixGrows(Width(v), k - 1);
    } else if Width(v) > k {
      RadixGrows(k, Width(v) - 1);
    }
  }

  lemma {:induction false} PowerWidth(k: nat)
    ensures 0 < Radix(k) < Radix(k + 1) && Width(Radix(k)) == k + 1
  {
    if k > 0 {
      WidthIs(Radix(k), k + 1);
    }
  }

  lemma {:induction false} PowerFits(k: nat, n: nat)
    requires k < n
    ensures 0 < Radix(k) < Radix(n) && Width(Radix(k)) == k + 1
  {
    PowerWidth(k);
    RadixGrows(k + 1, n);
  }

  /** There are such signatures. */
  lemma {:induction false} DispatchCanFail(k: nat) returns (r: nat, s: nat)
    requires 25 <= k < 32
    ensures 0 < r < Radix(32) && 0 < s < Radix(32)
    ensures RawSignature(Der(r, s)) == Some(Der(r, s)) && Der(r, s) != PutNat(r, 32) + PutNat(s, 32)
  {
    r, s := Radix(k), Radix(56 - k);
    PowerFits(k, 32);
    PowerFits(56 - k, 32);
    NoCoincidence(r, s);
  }
}
