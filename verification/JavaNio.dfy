/** java.nio.ByteBuffer in big-endian order, as far as the phone uses it, and Kotlin's signed integers. */
module JavaNio {
  import opened Bytes

  type Int8 = x: int | -0x80 <= x < 0x80
  type Int16 = x: int | -0x8000 <= x < 0x8000
  type Int32 = x: int | -0x8000_0000 <= x < 0x8000_0000
  type Int64 = x: int | -0x8000_0000_0000_0000 <= x < 0x8000_0000_0000_0000

  /** v is the value of a signed integer of k bytes. */
  predicate Fits(v: int, k: nat) {
    0 <= 2 * v + Radix(k) < 2 * Radix(k)
  }

  /** The k-byte two's complement integer with the bits of v. */
  function Signed(v: nat, k: nat): int {
    if 2 * v < Radix(k) then v else v - Radix(k)
  }

  /** The bits of a k-byte two's complement integer. */
  function Unsigned(v: int, k: nat): (u: nat)
    requires Fits(v, k)
  {
    if v < 0 then v + Radix(k) else v
  }

  lemma {:induction false} Radices()
    ensures Radix(1) == 0x100 && Radix(2) == 0x1_0000 && Radix(4) == 0x1_0000_0000
    ensures Radix(8) == 0x1_0000_0000_0000_0000
  {
    assert Radix(3) == 0x100_0000 && Radix(5) == 0x100_0000_0000 && Radix(6) == 0x1_0000_0000_0000;
    assert Radix(7) == 0x100_0000_0000_0000;
  }

  lemma {:induction false} SignedUnsigned(v: int, u: nat, k: nat)
    requires Fits(v, k) && u < Radix(k)
    ensures Signed(Unsigned(v, k), k) == v
    ensures Fits(Signed(u, k), k) && Unsigned(Signed(u, k), k) == u
  {
  }

  function Signed8(b: Byte): (v: Int8) {
    Radices();
    Signed(b, 1)
  }

  function Signed32(u: Uint32): (v: Int32) {
    Radices();
    Signed(u, 4)
  }

  function Signed64(u: Uint64): (v: Int64) {
    Radices();
    Signed(u, 8)
  }

  /** The big-endian form of a signed integer. */
  function PutSigned(v: int, k: nat): (s: seq<Byte>)
    requires Fits(v, k)
    ensures |s| == k
  {
    PutNat(Unsigned(v, k), k)
  }

  function GetSigned(s: seq<Byte>): int {
    Signed(GetNat(s), |s|)
  }

  lemma {:induction false} PutGetSigned(v: int, s: seq<Byte>, k: nat)
    requires Fits(v, k) && |s| == k
    ensures GetSigned(PutSigned(v, k)) == v
    ensures Fits(GetSigned(s), k) && PutSigned(GetSigned(s), k) == s
  {
    GetPut(Unsigned(v, k), k);
    PutGet(s);
  }

  function GetInt(s: seq<Byte>): (v: Int32)
    requires |s| == 4
    ensures v == GetSigned(s)
  {
    Radices();
    PutGetSigned(0, s, 4);
    GetSigned(s)
  }

  /** The bytes of the backing array and the position; a buffer never changes its size. */
  class ByteBuffer {
    var content: seq<Byte>
    var position: nat

    constructor Allocate(n: nat)
      ensures content == Zeroes(n) && position == 0
    {
      content := Zeroes(n);
      position := 0;
    }

    constructor Wrap(data: seq<Byte>)
      ensures content == data && position == 0
    {
      content := data;
      position := 0;
    }

    method Put(s: seq<Byte>)
      requires position + |s| <= |content|
      modifies this
      ensures position == old(position) + |s| && |content| == old(|content|)
      ensures content[..position] == old(content[..position]) + s
      ensures content[position..] == old(content[position + |s|..])
    {
      var before, after := content[..position], content[position + |s|..];
      content := before + s + after;
      position := position + |s|;
      assert content[..position] == before + s && content[position..] == after;
    }

    /** putShort, putInt and putLong. */
    method PutInteger(v: int, k: nat)
      requires position + k <= |content| && Fits(v, k)
      modifies this
      ensures position == old(position) + k && |content| == old(|content|)
      ensures content[..position] == old(content[..position]) + PutSigned(v, k)
      ensures content[position..] == old(content[position + k..])
    {
      Put(PutSigned(v, k));
    }

    method Get(n: nat) returns (s: seq<Byte>)
      requires position + n <= |content|
      modifies this`position
      ensures position == old(position) + n && s == content[old(position)..position]
    {
      s := content[position..position + n];
      position := position + n;
    }

    method GetByte() returns (b: Int8)
      requires position < |content|
      modifies this`position
      ensures position == old(position) + 1 && b == Signed8(content[old(position)])
    {
      b := Signed8(content[position]);
      position := position + 1;
    }

    /** getShort, getInt and getLong. */
    method GetInteger(k: nat) returns (v: int)
      requires position + k <= |content|
      modifies this`position
      ensures position == old(position) + k && v == GetSigned(content[old(position)..position]) && Fits(v, k)
    {
      var s := Get(k);
      v := GetSigned(s);
      PutGetSigned(0, s, k);
    }
  }
}
