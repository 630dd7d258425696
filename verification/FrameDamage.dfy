/** What the parser makes of a frame that was damaged in transit, its magic and its length excepted. */
module FrameDamage {
  import opened Bytes
  import opened Crc32
  import opened FrameProtocol

  predicate KeepsFraming(f: TransportFrame, d: seq<Byte>)
    requires Sendable(f)
  {
    |d| == |Print(f)| && d[..8] == Print(f)[..8]
  }

  /** The bytes that the checksum covers, and the checksum field. */
  function Covered(d: seq<Byte>): seq<Byte>
    requires |d| >= 18
  {
    d[..|d| - 4]
  }

  function Field(d: seq<Byte>): (s: seq<Byte>)
    requires |d| >= 18
    ensures |s| == 4
  {
    d[|d| - 4..]
  }

  lemma {:induction false} DamagedHeader(f: TransportFrame, d: seq<Byte>)
    requires Sendable(f) && KeepsFraming(f, d)
    ensures GetNat(d[..4]) == FRAME_MAGIC && GetNat(d[4..8]) == |f.payload| && Print(f)[8] == f.messageType.Code()
  {
    var p := Print(f);
    assert p + [] == p;
    PrintedFields(f, []);
    assert d[..4] == d[..8][..4] == p[..8][..4] == p[..4];
    assert d[4..8] == d[..8][4..] == p[..8][4..] == p[4..8];
    Put4(FRAME_MAGIC);
    Put4(|f.payload|);
  }

  /** The parser gets as far as the checksum, and the checksum decides. */
  lemma {:induction false} DamagedParse(f: TransportFrame, d: seq<Byte>)
    requires Sendable(f) && KeepsFraming(f, d)
    ensures Parse(d) == Err(CrcMismatch) <==> Crc(Covered(d)) != GetNat(Field(d))
    ensures Parse(d) != Err(CrcMismatch) && d[8] == Print(f)[8] ==> Parse(d).Ok?
  {
    DamagedHeader(f, d);
    ChecksumDecides(d, |f.payload|);
    TypeOfOwnCode(f.messageType);
  }

  lemma {:induction false} ChecksumDecides(d: seq<Byte>, n: nat)
    requires |d| == 18 + n && n <= MAX_PAYLOAD_SIZE && GetNat(d[..4]) == FRAME_MAGIC && GetNat(d[4..8]) == n
    ensures Parse(d) == Err(CrcMismatch) <==> Crc(Covered(d)) != GetNat(Field(d))
    ensures Crc(Covered(d)) == GetNat(Field(d)) && TypeOfCode(d[8]).Some? ==> Parse(d).Ok?
  {
    assert d[14 + n..18 + n] == Field(d);
  }

  lemma {:induction false} PrintChecks(f: TransportFrame)
    requires Sendable(f)
    ensures Crc(Covered(Print(f))) == GetNat(Field(Print(f)))
  {
    assert Print(f) + [] == Print(f);
    PrintedFields(f, []);
    assert Print(f)[14 + |f.payload|..18 + |f.payload|] == Field(Print(f));
    Put4(Crc(Header(f) + f.payload));
  }

  /** A burst of up to 32 bits in the covered bytes is always noticed. */
  lemma {:induction false} BurstRejected(f: TransportFrame, d: seq<Byte>, i: nat)
    requires Sendable(f) && KeepsFraming(f, d)
    requires Field(d) == Field(Print(f)) && BitBurst(Covered(Print(f)), Covered(d), i)
    ensures Parse(d) == Err(CrcMismatch)
  {
    PrintChecks(f);
    DamagedParse(f, d);
    BurstChangesCrc(Covered(Print(f)), Covered(d), i);
  }

  /** d is the printed frame but for some of the four bytes from position i on. */
  predicate ByteWindow(f: TransportFrame, d: seq<Byte>, i: nat)
    requires Sendable(f)
  {
    var p := Print(f);
    |d| == |p| && d != p && forall k :: 0 <= k < |p| && !(i <= k < i + 4) ==> d[k] == p[k]
  }

  lemma {:induction false} WindowIsBurst(a: seq<Byte>, b: seq<Byte>, i: nat)
    requires |a| == |b| && a != b && i <= |a|
    requires forall k :: 0 <= k < |a| && !(i <= k < i + 4) ==> a[k] == b[k]
    ensures BitBurst(a, b, 8 * i)
  {
    BitsSlice(a, i);
    BitsSlice(b, i);
    assert a[..i] == b[..i];
    if i + 4 <= |a| {
      BitsSlice(a, i + 4);
      BitsSlice(b, i + 4);
      assert a[i + 4..] == b[i + 4..];
    }
  }

  /** Whatever happens to four consecutive bytes between the length and the checksum, the parser rejects the frame. */
  lemma {:induction false} FourBytesRejected(f: TransportFrame, d: seq<Byte>, i: nat)
    requires Sendable(f) && ByteWindow(f, d, i) && 8 <= i && i + 4 <= 14 + |f.payload|
    ensures KeepsFraming(f, d) && Parse(d) == Err(CrcMismatch)
  {
    var p, m := Print(f), 14 + |f.payload|;
    assert d[..8] == p[..8] && Field(d) == Field(p);
    Rejoin(d);
    Rejoin(p);
    WindowIsBurst(Covered(p), Covered(d), i);
    BurstRejected(f, d, 8 * i);
  }

  /** So is any change to the checksum field alone. */
  lemma {:induction false} FieldDamageRejected(f: TransportFrame, d: seq<Byte>)
    requires Sendable(f) && KeepsFraming(f, d)
    requires Covered(d) == Covered(Print(f)) && d != Print(f)
    ensures Parse(d) == Err(CrcMismatch)
  {
    PrintChecks(f);
    DamagedParse(f, d);
    PutGet(Field(d));
    PutGet(Field(Print(f)));
    Rejoin(d);
    Rejoin(Print(f));
  }

  lemma {:induction false} Rejoin(d: seq<Byte>)
    requires |d| >= 18
    ensures d == Covered(d) + Field(d)
  {
  }

  // ----- which damage is noticed depends on the damage alone

  /** The error pattern e, read as a frame of its own, checks out without presetting and complementing. */
  predicate Unnoticed(e: seq<Byte>)
    requires |e| >= 18
  {
    Register(0, Covered(e)) == GetNat(Field(e))
  }

  lemma {:induction false} XorZero(a: nat)
    ensures XorNat(a, 0) == a && XorNat(0, a) == a
  {
  }

  lemma {:induction false} XorCancels(a: nat, b: nat, c: nat, k: nat)
    requires a < Pow2(k) && b < Pow2(k) && c < Pow2(k) && XorNat(a, b) == XorNat(a, c)
    ensures b == c
  {
    forall i | 0 <= i < k ensures Bit(b, i) == Bit(c, i) {
      BitXor(a, b, i);
      BitXor(a, c, i);
    }
    SameBits(b, c, k);
  }

  lemma {:induction false} XorOfComplement(r: Uint32, x: Uint32)
    ensures XorNat(ALL_ONES - r, x) == ALL_ONES - Xor32(r, x)
  {
    Pow2Words();
    XorBound(ALL_ONES - r, x, 32);
    var left, right := XorNat(ALL_ONES - r, x), ALL_ONES - Xor32(r, x);
    forall i | 0 <= i < 32 ensures Bit(left, i) == Bit(right, i) {
      BitXor(ALL_ONES - r, x, i);
      BitXor(r, x, i);
      BitNot(r, 32, i);
      BitNot(Xor32(r, x), 32, i);
    }
    SameBits(left, right, 32);
  }

  /** Adding a pattern to a message adds the pattern's register to the checksum. */
  lemma {:induction false} CrcOfXor(a: seq<Byte>, e: seq<Byte>)
    requires |a| == |e|
    ensures Crc(XorBytes(a, e)) == Xor32(Crc(a), Register(0, e))
  {
    var x, r, p := XorBytes(a, e), Register(ALL_ONES, a), Register(0, e);
    RegisterLinear(ALL_ONES, 0, a, e);
    XorZero(ALL_ONES);
    assert Crc(x) == ALL_ONES - Xor32(r, p);
    XorOfComplement(r, p);
  }

  /** Whichever frame it hits, a pattern is noticed or not on its own account. */
  lemma {:induction false} PatternDecides(f: TransportFrame, e: seq<Byte>)
    requires Sendable(f) && |e| == |Print(f)| && e[..8] == Zeroes(8)
    ensures KeepsFraming(f, XorBytes(Print(f), e))
    ensures Parse(XorBytes(Print(f), e)) == Err(CrcMismatch) <==> !Unnoticed(e)
  {
    var p := Print(f);
    var d := XorBytes(p, e);
    forall i | 0 <= i < 8 ensures d[i] == p[i] {
      assert e[i] == e[..8][i];
      XorZero(p[i]);
    }
    assert d[..8] == p[..8];
    DamagedParse(f, d);
    PrintChecks(f);
    assert Covered(d) == XorBytes(Covered(p), Covered(e));
    assert Field(d) == XorBytes(Field(p), Field(e));
    CrcOfXor(Covered(p), Covered(e));
    GetXor(Field(p), Field(e));
    PutGet(Field(e));
    Pow2Words();
    assert Radix(4) == 0x1_0000_0000 by { Put4Radix(); }
    if XorNat(Crc(Covered(p)), Register(0, Covered(e))) == XorNat(Crc(Covered(p)), GetNat(Field(e))) {
      XorCancels(Crc(Covered(p)), Register(0, Covered(e)), GetNat(Field(e)), 32);
    }
  }

  lemma {:induction false} Put4Radix()
    ensures Radix(4) == 0x1_0000_0000
  {
    assert Radix(1) == 256 && Radix(2) == 0x1_0000 && Radix(3) == 0x100_0000;
  }
}
