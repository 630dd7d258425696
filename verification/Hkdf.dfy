/** HKDF (RFC 5869) as the agent's HkdfEngine and the phone's HkdfManager compute it. */
module Hkdf {
  import opened Bytes

  const HASH_LEN: nat := 32

  /** HMAC-SHA-256 as a provider offers it: it has no use for an empty key and may fail, with an empty result. */
  type Hmac = (seq<Byte>, seq<Byte>) -> seq<Byte>

  ghost predicate IsHmac(mac: Hmac) {
    forall key: seq<Byte>, data: seq<Byte> ::
      && (mac(key, data) == [] || |mac(key, data)| == HASH_LEN)
      && (key == [] ==> mac(key, data) == [])
  }

  ghost predicate NeverFails(mac: Hmac) {
    forall key: seq<Byte>, data: seq<Byte> :: key != [] ==> |mac(key, data)| == HASH_LEN
  }

  // ----- section 2.3 of RFC 5869

  function Block(mac: Hmac, prk: seq<Byte>, info: seq<Byte>, i: nat): seq<Byte>
    requires i <= 255
  {
    if i == 0 then [] else mac(prk, Block(mac, prk, info, i - 1) + info + [i])
  }

  /** T = T(1) | T(2) | ... | T(n) */
  function BlocksUpTo(mac: Hmac, prk: seq<Byte>, info: seq<Byte>, n: nat): seq<Byte>
    requires n <= 255
  {
    if n == 0 then [] else BlocksUpTo(mac, prk, info, n - 1) + Block(mac, prk, info, n)
  }

  /** n = ceil(length / HashLen) */
  function BlockCount(length: nat): (n: nat)
    ensures HASH_LEN * n >= length && (n > 0 ==> HASH_LEN * (n - 1) < length)
  {
    (length + HASH_LEN - 1) / HASH_LEN
  }

  /** OKM is the first octets of T, for a provider that does not fail. */
  predicate IsOkm(okm: seq<Byte>, mac: Hmac, prk: seq<Byte>, info: seq<Byte>, length: nat)
    requires length <= 255 * HASH_LEN
  {
    okm <= BlocksUpTo(mac, prk, info, BlockCount(length)) && |okm| == length
  }

  // ----- the stream of blocks that the loops produce; their one-byte counter wraps

  function LoopBlock(mac: Hmac, prk: seq<Byte>, info: seq<Byte>, i: nat): seq<Byte> {
    if i == 0 then [] else mac(prk, LoopBlock(mac, prk, info, i - 1) + info + [i % 256])
  }

  function LoopStream(mac: Hmac, prk: seq<Byte>, info: seq<Byte>, n: nat): seq<Byte> {
    if n == 0 then [] else LoopStream(mac, prk, info, n - 1) + LoopBlock(mac, prk, info, n)
  }

  predicate AllBlocks(mac: Hmac, prk: seq<Byte>, info: seq<Byte>, n: nat) {
    n == 0 || (AllBlocks(mac, prk, info, n - 1) && LoopBlock(mac, prk, info, n) != [])
  }

  lemma {:induction false} StreamLength(mac: Hmac, prk: seq<Byte>, info: seq<Byte>, n: nat)
    requires IsHmac(mac) && AllBlocks(mac, prk, info, n)
    ensures |LoopStream(mac, prk, info, n)| == HASH_LEN * n
    decreases n
  {
    if n > 0 {
      StreamLength(mac, prk, info, n - 1);
    }
  }

  lemma {:induction false} MissingBlock(mac: Hmac, prk: seq<Byte>, info: seq<Byte>, i: nat, n: nat)
    requires !AllBlocks(mac, prk, info, i) && i <= n
    ensures !AllBlocks(mac, prk, info, n)
    decreases n
  {
    if i < n {
      MissingBlock(mac, prk, info, i, n - 1);
    }
  }

  lemma {:induction false} StreamPrefix(mac: Hmac, prk: seq<Byte>, info: seq<Byte>, m: nat, n: nat)
    requires m <= n
    ensures LoopStream(mac, prk, info, m) <= LoopStream(mac, prk, info, n)
    decreases n
  {
    if m < n {
      StreamPrefix(mac, prk, info, m, n - 1);
    }
  }

  /** What expanding yields: nothing if a block is missing. */
  ghost function Expanded(mac: Hmac, prk: seq<Byte>, info: seq<Byte>, outLen: nat): (okm: seq<Byte>)
    requires IsHmac(mac)
    ensures okm == [] || |okm| == outLen
  {
    var n := BlockCount(outLen);
    if AllBlocks(mac, prk, info, n)
    then StreamLength(mac, prk, info, n); LoopStream(mac, prk, info, n)[..outLen]
    else []
  }

  lemma {:induction false} EmptyKeyExpands(mac: Hmac, info: seq<Byte>, outLen: nat)
    requires IsHmac(mac)
    ensures Expanded(mac, [], info, outLen) == []
  {
    if outLen > 0 {
      assert LoopBlock(mac, [], info, 1) == [];
      MissingBlock(mac, [], info, 1, BlockCount(outLen));
    }
  }

  /** At most n of the bytes. */
  function Cut(s: seq<Byte>, n: nat): (c: seq<Byte>)
    ensures c <= s && |c| <= n
  {
    if |s| <= n then s else s[..n]
  }

  /** One turn of either loop. */
  lemma {:induction false} NextBlock(mac: Hmac, prk: seq<Byte>, info: seq<Byte>, i: nat, outLen: nat)
    requires IsHmac(mac) && AllBlocks(mac, prk, info, i) && |Cut(LoopStream(mac, prk, info, i), outLen)| < outLen
    ensures i < BlockCount(outLen)
    ensures AllBlocks(mac, prk, info, i + 1) ==>
      var done, t := Cut(LoopStream(mac, prk, info, i), outLen), LoopBlock(mac, prk, info, i + 1);
      Cut(LoopStream(mac, prk, info, i + 1), outLen) == done + Cut(t, outLen - |done|)
  {
    StreamLength(mac, prk, info, i);
  }

  lemma {:induction false} LastBlock(mac: Hmac, prk: seq<Byte>, info: seq<Byte>, i: nat, outLen: nat)
    requires IsHmac(mac) && AllBlocks(mac, prk, info, i) && i <= BlockCount(outLen)
    requires |Cut(LoopStream(mac, prk, info, i), outLen)| == outLen
    ensures Cut(LoopStream(mac, prk, info, i), outLen) == Expanded(mac, prk, info, outLen)
  {
    StreamLength(mac, prk, info, i);
    assert i == BlockCount(outLen);
  }

  lemma {:induction false} CounterStep(i: nat)
    ensures (i % 256 + 1) % 256 == (i + 1) % 256
  {
  }

  /** HkdfEngine::Expand appends to okm. */
  method Expand(mac: Hmac, prk: seq<Byte>, info: seq<Byte>, outLen: nat) returns (okm: seq<Byte>)
    requires IsHmac(mac)
    ensures okm == Expanded(mac, prk, info, outLen)
  {
    if |prk| == 0 || outLen == 0 {
      EmptyKeyExpands(mac, info, outLen);
      return [];
    }
    okm := [];
    var t: seq<Byte> := [];
    var counter: Byte := 1;
    ghost var i := 0;
    while |okm| < outLen
      invariant i <= BlockCount(outLen) && AllBlocks(mac, prk, info, i)
      invariant counter == (i + 1) % 256 && t == LoopBlock(mac, prk, info, i)
      invariant okm == Cut(LoopStream(mac, prk, info, i), outLen)
      decreases outLen - |okm|
    {
      NextBlock(mac, prk, info, i, outLen);
      var msg := t + info + [counter];
      t := mac(prk, msg);
      if |t| == 0 {
        MissingBlock(mac, prk, info, i + 1, BlockCount(outLen));
        return [];
      }
      var toCopy := if |t| < outLen - |okm| then |t| else outLen - |okm|;
      assert t[..toCopy] == Cut(t, outLen - |okm|);
      okm := okm + t[..toCopy];
      CounterStep(i + 1);
      counter := (counter + 1) % 256;
      i := i + 1;
    }
    LastBlock(mac, prk, info, i, outLen);
  }

  /**
   * HkdfManager.expand fills an array of the final size. The phone's provider does not fail, but an
   * empty key makes it throw, for which None stands.
   */
  method PhoneExpand(mac: Hmac, prk: seq<Byte>, info: seq<Byte>, outLen: nat) returns (r: Option<seq<Byte>>)
    requires IsHmac(mac) && NeverFails(mac)
    ensures r == if prk == [] && outLen > 0 then None else Some(Expanded(mac, prk, info, outLen))
  {
    var result := new Byte[outLen](_ => 0);
    var t: seq<Byte> := [];
    var counter: Byte := 1;
    var offset := 0;
    ghost var i := 0;
    while offset < outLen
      invariant offset <= outLen && (i > 0 ==> prk != [])
      invariant i <= BlockCount(outLen) && AllBlocks(mac, prk, info, i)
      invariant counter == (i + 1) % 256 && t == LoopBlock(mac, prk, info, i)
      invariant result[..offset] == Cut(LoopStream(mac, prk, info, i), outLen)
      decreases outLen - offset
    {
      if |prk| == 0 {
        return None;
      }
      NextBlock(mac, prk, info, i, outLen);
      var msg := t + info + [counter];
      t := mac(prk, msg);
      var toCopy := if |t| < outLen - offset then |t| else outLen - offset;
      assert t[..toCopy] == Cut(t, outLen - offset);
      Copy(result, offset, t[..toCopy]);
      offset := offset + toCopy;
      CounterStep(i + 1);
      counter := (counter + 1) % 256;
      i := i + 1;
    }
    LastBlock(mac, prk, info, i, outLen);
    assert result[..] == result[..outLen];
    return Some(result[..]);
  }

  // ----- both are HKDF-Expand

  /** Up to 255 blocks the counter octet is the index of its block, so the loops produce the blocks of the RFC. */
  lemma {:induction false} StreamIsRfc(mac: Hmac, prk: seq<Byte>, info: seq<Byte>, n: nat)
    requires n <= 255
    ensures LoopBlock(mac, prk, info, n) == Block(mac, prk, info, n)
    ensures LoopStream(mac, prk, info, n) == BlocksUpTo(mac, prk, info, n)
    decreases n
  {
    if n > 0 {
      StreamIsRfc(mac, prk, info, n - 1);
    }
  }

  lemma {:induction false} NoBlockMissing(mac: Hmac, prk: seq<Byte>, info: seq<Byte>, n: nat)
    requires NeverFails(mac) && prk != []
    ensures AllBlocks(mac, prk, info, n)
    decreases n
  {
    if n > 0 {
      NoBlockMissing(mac, prk, info, n - 1);
      assert |LoopBlock(mac, prk, info, n)| == HASH_LEN;
    }
  }

  /** For every length that the RFC allows, the result is the OKM and nothing else is. */
  lemma {:induction false} ExpandIsHkdf(mac: Hmac, prk: seq<Byte>, info: seq<Byte>, outLen: nat, okm: seq<Byte>)
    requires IsHmac(mac) && NeverFails(mac) && prk != [] && outLen <= 255 * 32
    ensures IsOkm(okm, mac, prk, info, outLen) <==> okm == Expanded(mac, prk, info, outLen)
  {
    var n := BlockCount(outLen);
    StreamIsRfc(mac, prk, info, n);
    NoBlockMissing(mac, prk, info, n);
    StreamLength(mac, prk, info, n);
  }

  lemma {:induction false} BlockStep(mac: Hmac, prk: seq<Byte>, info: seq<Byte>, i: nat)
    ensures LoopBlock(mac, prk, info, i + 1) == mac(prk, LoopBlock(mac, prk, info, i) + info + [(i + 1) % 256])
    ensures LoopStream(mac, prk, info, i + 1) == LoopStream(mac, prk, info, i) + LoopBlock(mac, prk, info, i + 1)
  {
  }

  lemma {:induction false} TwoBlocks(mac: Hmac, prk: seq<Byte>, info: seq<Byte>)
    ensures var t1 := mac(prk, info + [1]);
      LoopStream(mac, prk, info, 2) == t1 + mac(prk, t1 + info + [2])
  {
    var t1 := mac(prk, info + [1]);
    assert [] + info == info && [] + t1 == t1;
    BlockStep(mac, prk, info, 0);
    BlockStep(mac, prk, info, 1);
  }

  /** Up to two blocks, the second chained to the first. */
  lemma {:induction false} FirstBlocks(mac: Hmac, prk: seq<Byte>, info: seq<Byte>, outLen: nat)
    requires IsHmac(mac) && NeverFails(mac) && prk != [] && 0 < outLen <= 64
    ensures var t1 := mac(prk, info + [1]);
      Expanded(mac, prk, info, outLen) <= t1 + mac(prk, t1 + info + [2]) && |Expanded(mac, prk, info, outLen)| == outLen
  {
    var n := BlockCount(outLen);
    TwoBlocks(mac, prk, info);
    NoBlockMissing(mac, prk, info, n);
    StreamLength(mac, prk, info, n);
    StreamPrefix(mac, prk, info, n, 2);
  }

  /** A shorter output is a prefix of a longer one. */
  lemma {:induction false} ShorterIsPrefix(mac: Hmac, prk: seq<Byte>, info: seq<Byte>, a: nat, b: nat)
    requires IsHmac(mac) && NeverFails(mac) && prk != [] && a <= b
    ensures |Expanded(mac, prk, info, a)| == a && Expanded(mac, prk, info, a) <= Expanded(mac, prk, info, b)
  {
    var m, n := BlockCount(a), BlockCount(b);
    NoBlockMissing(mac, prk, info, m);
    NoBlockMissing(mac, prk, info, n);
    StreamLength(mac, prk, info, m);
    StreamLength(mac, prk, info, n);
    StreamPrefix(mac, prk, info, m, n);
  }

  // ----- extract and derive

  /** Section 2.2 of RFC 5869: a salt that is not provided is a string of HashLen zeros. */
  method Extract(mac: Hmac, salt: seq<Byte>, ikm: seq<Byte>) returns (prk: seq<Byte>)
    requires IsHmac(mac)
    ensures prk == mac(if salt == [] then Zeroes(32) else salt, ikm) && (NeverFails(mac) ==> |prk| == 32)
  {
    var actualSalt := salt;
    if |salt| == 0 {
      actualSalt := Zeroes(32);
    }
    prk := mac(actualSalt, ikm);
  }

  method DeriveKey(mac: Hmac, salt: seq<Byte>, ikm: seq<Byte>, info: seq<Byte>, outLen: nat) returns (okm: seq<Byte>)
    requires IsHmac(mac)
    ensures okm == Expanded(mac, mac(if salt == [] then Zeroes(32) else salt, ikm), info, outLen)
  {
    var prk := Extract(mac, salt, ikm);
    if |prk| == 0 {
      EmptyKeyExpands(mac, info, outLen);
      return [];
    }
    okm := Expand(mac, prk, info, outLen);
  }

  method PhoneDeriveKey(mac: Hmac, salt: seq<Byte>, ikm: seq<Byte>, info: seq<Byte>, outLen: nat)
    returns (okm: seq<Byte>)
    requires IsHmac(mac) && NeverFails(mac)
    ensures okm == Expanded(mac, mac(if salt == [] then Zeroes(32) else salt, ikm), info, outLen)
  {
    var prk := Extract(mac, salt, ikm);
    var r := PhoneExpand(mac, prk, info, outLen);
    okm := r.value;
  }
}
